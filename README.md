# Knowledge-graph triplet extraction, modelled in Dafny

The application reads text from an uploaded PDF or `.txt` file, or from a web
page. It runs a dependency parser over the text and pulls one
(subject, relation, object) triplet out of each sentence where it can. It
then draws the triplets as a directed graph.

The only decision logic the repository owns is the triplet heuristic of
`extract_triplets` and the file-name dispatch of `extract_text`. Both are
modelled here:

- `strings.dfy` (module `Strings`): Python's substring test `sub in s`
  (`Contains`) and `str.endswith` (`EndsWith`).
- `options.dfy` (module `Options`): `Option`, and `Somes`, the present values
  of a sequence of options in order, with lemmas on their order and count.
- `triplets.dfy` (module `Triplets`): tokens, sentences and triplets. It has
  the specification of the heuristic and the method `ExtractTriplets`, which
  runs the source's nested loop over sentences and tokens with three slots
  reset per sentence. The method is proved equal to the specification
  `Extract`.
- `upload.dfy` (module `Upload`): `ExtractText`, the dispatch on the upload's
  name, with the PDF page-concatenation loop.

The parser's output is the input of the model. A document is a sequence of
sentences, and each token carries its text, its part-of-speech tag (`pos_`)
and its dependency label (`dep_`). For an upload, the text the PDF reader
extracts from each page and the UTF-8 decoding of the file's bytes are
parameters.

The heuristic keeps three slots per sentence:

- the subject: the last token whose label contains "subj";
- the relation: the last token tagged exactly "VERB";
- the object: the last token whose label contains "obj".

A slot whose test no token passes stays "". The three tests are separate
`if`s, so one token can fill several slots. A sentence yields a triplet only
when all three slots are non-empty strings (Python truthiness). A matching
token with empty text therefore leaves its slot empty. This is why
`SingleRolesYieldTheirTexts` asks for non-empty token texts: one subject, one
verb and one object token are not enough on their own.

## Model

| member | source | states |
|---|---|---|
| `Triplets.ExtractTriplets` | app.py:35-51 | The nested per-sentence, per-token loop returns exactly `Extract(doc)`: at most one triplet per sentence, and each one complete |
| `Triplets.Fills` | app.py:43-47 | A token overwrites the subject exactly when "subj" occurs in its label, the relation exactly when its tag is "VERB", and the object exactly when "obj" occurs in its label |
| `Triplets.SentenceTriplet` | app.py:49-50 | A sentence's triplet, when there is one, is its three slots with none empty; when there is none, some slot is empty |
| `Triplets.LastIndex` | app.py:42-48 | Gives the position of the last token that passes a slot's test: none exactly when no token passes; otherwise that token passes and no later one does |
| `Triplets.SlotStep` | app.py:42-48 | One more token changes each slot by that slot's own test only: its text if it passes, the old value if not |
| `Triplets.VerbSubjectFillsTwoSlots` | app.py:43-46 | A VERB token whose label contains "subj" becomes both the subject and the relation (separate `if`s, not `elif`) |
| `Triplets.SlotIsLastFiller` | app.py:42-48 | After the pass, a slot holds the text of the last token that passes its test |
| `Triplets.LaterFillerWins` | app.py:42-50 | Of two qualifying tokens at i < j, with none after j, the emitted triplet's field is j's text, and not i's when their texts differ (last match wins) |
| `Triplets.MissingRoleYieldsNothing` | app.py:39-50 | If no token passes a slot's test, that slot stays "" and the sentence yields no triplet |
| `Triplets.SlotNonEmptyIff` | app.py:39-49 | A slot is non-empty exactly when its last qualifying token exists and has non-empty text |
| `Triplets.SentenceTripletIff` | app.py:39-50 | A sentence yields a triplet exactly when each slot has a last qualifying token with non-empty text |
| `Triplets.LastFillersDecide` | app.py:42-50 | Given the last subject, verb and object tokens, the sentence yields their three texts if all are non-empty, and nothing otherwise |
| `Triplets.SingleRolesYieldTheirTexts` | app.py:42-50 | One subject, one verb and one object token with text, in any order, yield exactly the triplet of their texts |
| `Triplets.OutcomesAppend` | app.py:38-50 | Each sentence's outcome depends on that sentence alone, so the outcomes of two joined documents are the two lists of outcomes joined |
| `Triplets.ExtractAppend` | app.py:37-51 | Extracting from two documents joined gives the two extractions joined |
| `Triplets.ExtractPrefixStep` | app.py:38-50 | Taking one more sentence of the document appends that sentence's triplet, if it has one |
| `Triplets.ExtractSingle` | app.py:38-50 | A one-sentence document yields that sentence's triplet, or nothing |
| `Triplets.SentenceIndependence` | app.py:38-41 | Slots are reset per sentence: a sentence contributes the same output whatever sentences surround it |
| `Triplets.ExtractBound` | app.py:37-51 | The output has no more triplets than there are sentences |
| `Triplets.ExtractComplete` | app.py:49-50 | Every emitted triplet has three non-empty fields, so no partial triplets |
| `Triplets.ExtractCount` | app.py:49-51 | The number of triplets equals the number of sentences that meet the all-non-empty condition |
| `Triplets.ExtractOrder` | app.py:37-51 | The k-th triplet comes from the k-th productive sentence, in increasing position; every productive sentence is listed once |
| `Triplets.AliceWroteLetter` | app.py:42-50 | The tagged sentence "Alice quickly wrote a letter" yields ("Alice", "wrote", "letter") |
| `Strings.Contains` | app.py:43-47 | `sub in s` never finds a pattern longer than the string, and always finds the empty pattern |
| `Strings.ContainsIff` | app.py:43-47 | The substring test holds exactly when the pattern occurs at some position of the label |
| `Strings.SameLengthSuffixesExclude` | app.py:14-20 | No name ends with two different suffixes of the same length |
| `Strings.EndsWith` | app.py:14-20 | `name.endswith(suffix)` holds exactly when the name is some string followed by the suffix |
| `Upload.ExtractText` | app.py:13-23 | ".pdf" names give the pages' texts joined in page order, ".txt" names the decoded bytes, any other name "" |
| `Upload.PdfAndTxtExclusive` | app.py:14-22 | No name ends in both ".pdf" and ".txt", so testing ".pdf" first never hides a ".txt" file |
| `Upload.Concat` | app.py:15-18 | The PDF text ends with the last page's text, and is empty exactly when every page's text is empty |
| `Upload.ConcatAppend` | app.py:15-18 | The text of a document split into two runs of pages is the two texts joined |
| `Upload.PageInConcat` | app.py:15-18 | Each page's text appears in the PDF text right after the text of the pages before it |
| `Options.SomesOrder` | app.py:37-51 | The k-th kept value is the value at the k-th position that holds one |
| `Options.SomesCount` | app.py:49-51 | The number of kept values equals the number of positions that hold one |

## Left out

- Loading the spaCy model and parsing (app.py:11, app.py:36). Sentence
  splitting, tags and labels come from an external model, so the parsed
  sentences are an input.
- Reading PDFs with PyMuPDF (app.py:16-18) and UTF-8 decoding (app.py:21).
  These are foreign library calls. Their results are parameters of
  `Upload.ExtractText`. Failures (a malformed PDF, invalid UTF-8) raise
  exceptions in the source and are not modelled.
- `extract_text_from_url` (app.py:25-33). It is network I/O and HTML parsing,
  and its only logic is an exception catch that reports through the UI.
- `draw_graph` (app.py:53-64). It builds a graph, lays it out with a
  randomised floating-point spring layout, and renders it. The code builds a
  `networkx.DiGraph`, which keeps one edge per (subject, object) pair. A
  repeated pair overwrites the edge's label. So the graph is not a multigraph,
  and parallel edges are not kept.
- The Streamlit UI flow (app.py:66-99). This covers the widgets, the rule
  that empty text skips extraction, and the success and warning messages. It
  is I/O and session plumbing.

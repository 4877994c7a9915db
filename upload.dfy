/** The file-type dispatch of `extract_text`.

    The uploaded file's contents are parameters: `pages` is the text the PDF
    reader extracts from each page, in page order, and `decoded` is the
    UTF-8 decoding of the file's bytes. Only the name decides which of them
    becomes the text. */
module Upload {
  import opened Strings

  /** The text of a PDF: its pages' texts, one after the other. It ends
      with the last page's text, and it is empty exactly when every page is. */
  function Concat(pages: seq<string>): (text: string)
    ensures 0 < |pages| ==> EndsWith(text, pages[|pages| - 1])
    ensures text == "" <==> forall k :: 0 <= k < |pages| ==> pages[k] == ""
    decreases |pages|
  {
    if |pages| == 0 then "" else Concat(pages[..|pages| - 1]) + pages[|pages| - 1]
  }

  /** Concatenating a document split in two gives the two texts joined. */
  lemma {:induction false} ConcatAppend(a: seq<string>, b: seq<string>)
    ensures Concat(a + b) == Concat(a) + Concat(b)
    decreases |b|
  {
    if |b| == 0 {
      assert a + b == a;
    } else {
      var n := |b| - 1;
      assert (a + b)[..|a + b| - 1] == a + b[..n];
      ConcatAppend(a, b[..n]);
    }
  }

  /** Every page's text appears in the document text, at the offset given by
      the pages before it. */
  lemma PageInConcat(pages: seq<string>, k: nat)
    requires k < |pages|
    ensures |Concat(pages[..k])| + |pages[k]| <= |Concat(pages)|
    ensures Concat(pages)[|Concat(pages[..k])|..|Concat(pages[..k])| + |pages[k]|] == pages[k]
  {
    assert pages == pages[..k] + [pages[k]] + pages[k + 1..];
    ConcatAppend(pages[..k] + [pages[k]], pages[k + 1..]);
    ConcatAppend(pages[..k], [pages[k]]);
    assert [pages[k]][..0] == [];
  }

  /** A name ends in ".pdf" or in ".txt", never in both, so testing ".pdf"
      first decides nothing the other order would not. */
  lemma PdfAndTxtExclusive(name: string)
    ensures !(EndsWith(name, ".pdf") && EndsWith(name, ".txt"))
  {
    SameLengthSuffixesExclude(name, ".pdf", ".txt");
  }

  /** `extract_text`: ".pdf" names give the pages' texts concatenated in page
      order, ".txt" names the decoded bytes, any other name "". */
  method ExtractText(name: string, pages: seq<string>, decoded: string) returns (text: string)
    ensures EndsWith(name, ".pdf") ==> text == Concat(pages)
    ensures EndsWith(name, ".txt") ==> text == decoded
    ensures !EndsWith(name, ".pdf") && !EndsWith(name, ".txt") ==> text == ""
  {
    if EndsWith(name, ".pdf") {
      text := "";
      for i := 0 to |pages|
        invariant text == Concat(pages[..i])
      {
        assert pages[..i + 1][..i] == pages[..i];
        text := text + pages[i];
      }
      assert pages[..|pages|] == pages;
      PdfAndTxtExclusive(name);
    } else if EndsWith(name, ".txt") {
      text := decoded;
    } else {
      text := "";
    }
  }
}

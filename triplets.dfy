/** The subject-verb-object heuristic of `extract_triplets`.

    The dependency parser is outside the model: its output, a sequence of
    sentences whose tokens carry text, part-of-speech tag and dependency
    label, is the input here. Each sentence is scanned once, left to right,
    keeping three slots; the last token that qualifies for a slot wins, and
    the sentence yields a triplet only when all three slots are non-empty. */
module Triplets {
  import opened Strings
  import opened Options

  /** A parsed token: `token.text`, `token.pos_` and `token.dep_`. */
  datatype Token = Token(text: string, pos: string, dep: string)

  type Sentence = seq<Token>

  /** One extracted relation, in the order (subj, verb, obj) the source appends it. */
  datatype Triplet = Triplet(subj: string, rel: string, obj: string)

  /** The three slots a sentence scan keeps. */
  datatype Slot = Subject | Relation | Object

  /** Whether token `t` overwrites `slot`: a dependency label containing
      "subj", the tag "VERB" exactly, a dependency label containing "obj". */
  predicate Fills(slot: Slot, t: Token): (b: bool)
    ensures slot == Subject ==> (b <==> exists i :: OccursAt(t.dep, "subj", i))
    ensures slot == Relation ==> (b <==> t.pos == "VERB")
    ensures slot == Object ==> (b <==> exists i :: OccursAt(t.dep, "obj", i))
  {
    ContainsIff(t.dep, "subj");
    ContainsIff(t.dep, "obj");
    match slot
    case Subject => Contains(t.dep, "subj")
    case Relation => t.pos == "VERB"
    case Object => Contains(t.dep, "obj")
  }

  /** The position of the last token of `s` that fills `slot`, if any. */
  function LastIndex(s: Sentence, slot: Slot): (r: Option<nat>)
    ensures r.None? <==> forall k :: 0 <= k < |s| ==> !Fills(slot, s[k])
    ensures r.Some? ==> r.value < |s| && Fills(slot, s[r.value])
    ensures r.Some? ==> forall m :: r.value < m < |s| ==> !Fills(slot, s[m])
    decreases |s|
  {
    if |s| == 0 then None
    else if Fills(slot, s[|s| - 1]) then Some(|s| - 1)
    else LastIndex(s[..|s| - 1], slot)
  }

  /** What a slot holds after scanning `s`: the text of the last token that
      fills it, or "" when no token does. */
  function SlotValue(s: Sentence, slot: Slot): string
  {
    match LastIndex(s, slot)
    case None => ""
    case Some(k) => s[k].text
  }

  /** Python truthiness of the three slots: every field non-empty. */
  predicate Complete(t: Triplet)
  {
    t.subj != "" && t.rel != "" && t.obj != ""
  }

  /** The triplet one sentence contributes, if any: all or nothing. When
      there is one, its fields are the three slots and none is empty; when
      there is none, some slot is empty. */
  function SentenceTriplet(s: Sentence): (r: Option<Triplet>)
    ensures r.Some? ==> Complete(r.value)
    ensures r.Some? ==> r.value.subj == SlotValue(s, Subject)
    ensures r.Some? ==> r.value.rel == SlotValue(s, Relation)
    ensures r.Some? ==> r.value.obj == SlotValue(s, Object)
    ensures r.None? ==> SlotValue(s, Subject) == "" || SlotValue(s, Relation) == "" || SlotValue(s, Object) == ""
  {
    var t := Triplet(SlotValue(s, Subject), SlotValue(s, Relation), SlotValue(s, Object));
    if Complete(t) then Some(t) else None
  }

  predicate Productive(s: Sentence)
  {
    SentenceTriplet(s).Some?
  }

  /** Each sentence's outcome, in document order. */
  function Outcomes(doc: seq<Sentence>): seq<Option<Triplet>>
  {
    seq(|doc|, i requires 0 <= i < |doc| => SentenceTriplet(doc[i]))
  }

  /** The whole extraction: the triplets of the productive sentences, in
      document order. */
  function Extract(doc: seq<Sentence>): seq<Triplet>
  {
    Somes(Outcomes(doc))
  }

  /** `extract_triplets`, given the parser's sentences: one forward pass per
      sentence over three slots reset to "", and an append when all three are
      non-empty. */
  method ExtractTriplets(doc: seq<Sentence>) returns (triplets: seq<Triplet>)
    ensures triplets == Extract(doc)
    ensures |triplets| <= |doc|
    ensures forall k :: 0 <= k < |triplets| ==> Complete(triplets[k])
  {
    triplets := [];
    for i := 0 to |doc|
      invariant triplets == Extract(doc[..i])
    {
      var sent := doc[i];
      var subj, verb, obj := "", "", "";
      for j := 0 to |sent|
        invariant subj == SlotValue(sent[..j], Subject)
        invariant verb == SlotValue(sent[..j], Relation)
        invariant obj == SlotValue(sent[..j], Object)
      {
        var token := sent[j];
        SlotStep(sent, j, Subject);
        if Contains(token.dep, "subj") {
          subj := token.text;
        }
        assert subj == SlotValue(sent[..j + 1], Subject);
        SlotStep(sent, j, Relation);
        if token.pos == "VERB" {
          verb := token.text;
        }
        assert verb == SlotValue(sent[..j + 1], Relation);
        SlotStep(sent, j, Object);
        if Contains(token.dep, "obj") {
          obj := token.text;
        }
      }
      assert sent[..|sent|] == sent;
      assert SentenceTriplet(sent) == if subj != "" && verb != "" && obj != ""
        then Some(Triplet(subj, verb, obj)) else None;
      if subj != "" && verb != "" && obj != "" {
        triplets := triplets + [Triplet(subj, verb, obj)];
      }
      ExtractPrefixStep(doc, i);
    }
    assert doc[..|doc|] == doc;
    ExtractBound(doc);
    ExtractComplete(doc);
  }

  // ---- one token: the three tests are independent ----

  /** Scanning one more token updates each slot by that slot's own test
      alone: a token that passes several tests fills several slots. */
  lemma SlotStep(s: Sentence, j: nat, slot: Slot)
    requires j < |s|
    ensures SlotValue(s[..j + 1], slot) == if Fills(slot, s[j]) then s[j].text else SlotValue(s[..j], slot)
  {
    assert s[..j + 1][..j] == s[..j];
  }

  /** A VERB token labelled as a subject becomes both subject and relation. */
  lemma VerbSubjectFillsTwoSlots(s: Sentence, j: nat)
    requires j < |s| && s[j].pos == "VERB" && Contains(s[j].dep, "subj")
    ensures SlotValue(s[..j + 1], Subject) == s[j].text
    ensures SlotValue(s[..j + 1], Relation) == s[j].text
  {
    SlotStep(s, j, Subject);
    SlotStep(s, j, Relation);
  }

  // ---- one sentence ----

  /** Token `k` fills `slot` and no later token of `s` does. */
  predicate LastFiller(s: Sentence, slot: Slot, k: nat)
  {
    k < |s| && Fills(slot, s[k]) && forall m :: k < m < |s| ==> !Fills(slot, s[m])
  }

  /** The slot holds the text of the last qualifying token. */
  lemma SlotIsLastFiller(s: Sentence, slot: Slot, k: nat)
    requires LastFiller(s, slot, k)
    ensures SlotValue(s, slot) == s[k].text
  {
  }

  /** The field of a triplet that `slot` fills. */
  function Field(t: Triplet, slot: Slot): string
  {
    match slot
    case Subject => t.subj
    case Relation => t.rel
    case Object => t.obj
  }

  /** Of two qualifying tokens at i < j, with nothing after j qualifying, the
      emitted triplet takes j's text for that field, never i's (unless the
      two texts are equal). */
  lemma LaterFillerWins(s: Sentence, slot: Slot, i: nat, j: nat)
    requires i < j < |s| && Fills(slot, s[i]) && Fills(slot, s[j])
    requires forall m :: j < m < |s| ==> !Fills(slot, s[m])
    ensures Productive(s) ==> Field(SentenceTriplet(s).value, slot) == s[j].text
    ensures Productive(s) && s[i].text != s[j].text ==> Field(SentenceTriplet(s).value, slot) != s[i].text
  {
    SlotIsLastFiller(s, slot, j);
  }

  /** No token filling a slot: the slot stays "" and the sentence yields nothing. */
  lemma MissingRoleYieldsNothing(s: Sentence, slot: Slot)
    requires forall k :: 0 <= k < |s| ==> !Fills(slot, s[k])
    ensures SlotValue(s, slot) == ""
    ensures SentenceTriplet(s) == None
  {
  }

  /** For one slot: its value is non-empty exactly when its last filler
      exists and has non-empty text. */
  lemma SlotNonEmptyIff(s: Sentence, slot: Slot)
    ensures SlotValue(s, slot) != "" <==> exists k: nat :: LastFiller(s, slot, k) && s[k].text != ""
  {
    if SlotValue(s, slot) != "" {
      var k := LastIndex(s, slot).value;
      assert LastFiller(s, slot, k);
    }
    if exists k: nat :: LastFiller(s, slot, k) && s[k].text != "" {
      var k: nat :| LastFiller(s, slot, k) && s[k].text != "";
      SlotIsLastFiller(s, slot, k);
    }
  }

  /** A sentence yields a triplet exactly when, for each slot, some token
      fills it and the last such token has non-empty text. */
  lemma SentenceTripletIff(s: Sentence)
    ensures Productive(s) <==>
      && (exists a: nat :: LastFiller(s, Subject, a) && s[a].text != "")
      && (exists b: nat :: LastFiller(s, Relation, b) && s[b].text != "")
      && (exists c: nat :: LastFiller(s, Object, c) && s[c].text != "")
  {
    SlotNonEmptyIff(s, Subject);
    SlotNonEmptyIff(s, Relation);
    SlotNonEmptyIff(s, Object);
  }

  /** With a, b and c the last subject, verb and object tokens, the sentence
      yields their three texts when all are non-empty and nothing otherwise. */
  lemma LastFillersDecide(s: Sentence, a: nat, b: nat, c: nat)
    requires LastFiller(s, Subject, a) && LastFiller(s, Relation, b) && LastFiller(s, Object, c)
    ensures SentenceTriplet(s) ==
      if s[a].text != "" && s[b].text != "" && s[c].text != ""
      then Some(Triplet(s[a].text, s[b].text, s[c].text))
      else None
  {
    SlotIsLastFiller(s, Subject, a);
    SlotIsLastFiller(s, Relation, b);
    SlotIsLastFiller(s, Object, c);
  }

  /** One subject token at a, one verb at b, one object token at c, all with
      text: the sentence yields exactly their texts, in any token order. */
  lemma SingleRolesYieldTheirTexts(s: Sentence, a: nat, b: nat, c: nat)
    requires a < |s| && b < |s| && c < |s|
    requires forall k :: 0 <= k < |s| ==> (Fills(Subject, s[k]) <==> k == a)
    requires forall k :: 0 <= k < |s| ==> (Fills(Relation, s[k]) <==> k == b)
    requires forall k :: 0 <= k < |s| ==> (Fills(Object, s[k]) <==> k == c)
    requires s[a].text != "" && s[b].text != "" && s[c].text != ""
    ensures SentenceTriplet(s) == Some(Triplet(s[a].text, s[b].text, s[c].text))
  {
    LastFillersDecide(s, a, b, c);
  }

  // ---- the whole document ----

  /** Sentence outcomes distribute over concatenation of documents. */
  lemma OutcomesAppend(a: seq<Sentence>, b: seq<Sentence>)
    ensures Outcomes(a + b) == Outcomes(a) + Outcomes(b)
  {
    var ab, oa, ob := Outcomes(a + b), Outcomes(a), Outcomes(b);
    forall i | 0 <= i < |ab| ensures ab[i] == (oa + ob)[i] {
      if i < |a| {
        assert (a + b)[i] == a[i];
      } else {
        assert (a + b)[i] == b[i - |a|];
      }
    }
  }

  /** Extraction distributes over concatenation of documents. */
  lemma ExtractAppend(a: seq<Sentence>, b: seq<Sentence>)
    ensures Extract(a + b) == Extract(a) + Extract(b)
  {
    OutcomesAppend(a, b);
    SomesAppend(Outcomes(a), Outcomes(b));
  }

  /** A one-sentence document yields that sentence's triplet, if any. */
  lemma ExtractSingle(s: Sentence)
    ensures Extract([s]) == Present(SentenceTriplet(s))
  {
    assert Outcomes([s]) == [] + [SentenceTriplet(s)];
    SomesSnoc([], SentenceTriplet(s));
  }

  /** Extending a prefix of the document by its next sentence appends that
      sentence's triplet, if any. */
  lemma ExtractPrefixStep(doc: seq<Sentence>, i: nat)
    requires i < |doc|
    ensures Extract(doc[..i + 1]) == Extract(doc[..i]) + Present(SentenceTriplet(doc[i]))
  {
    assert doc[..i + 1] == doc[..i] + [doc[i]];
    ExtractAppend(doc[..i], [doc[i]]);
    ExtractSingle(doc[i]);
  }

  /** Slots are reset per sentence: a sentence contributes the same triplets
      whatever comes before or after it. */
  lemma SentenceIndependence(pre: seq<Sentence>, s: Sentence, post: seq<Sentence>)
    ensures Extract(pre + [s] + post) == Extract(pre) + Present(SentenceTriplet(s)) + Extract(post)
  {
    ExtractAppend(pre + [s], post);
    ExtractAppend(pre, [s]);
    ExtractSingle(s);
  }

  /** At most one triplet per sentence. */
  lemma ExtractBound(doc: seq<Sentence>)
    ensures |Extract(doc)| <= |doc|
  {
    SomesBound(Outcomes(doc));
  }

  /** The positions of the sentences that yield a triplet, in increasing order. */
  function Producers(doc: seq<Sentence>): (idx: seq<nat>)
    ensures forall k :: 0 <= k < |idx| ==> idx[k] < |doc|
  {
    SomePositions(Outcomes(doc))
  }

  /** Order is kept: `Producers` lists exactly the productive sentences, in
      increasing position, and the k-th triplet is the one of the k-th of
      them; so each productive sentence contributes its triplet once, in
      document order. */
  lemma ExtractOrder(doc: seq<Sentence>)
    ensures forall k, m :: 0 <= k < m < |Producers(doc)| ==> Producers(doc)[k] < Producers(doc)[m]
    ensures forall k :: 0 <= k < |Producers(doc)| ==> Productive(doc[Producers(doc)[k]])
    ensures forall i :: 0 <= i < |doc| && Productive(doc[i]) ==> i in Producers(doc)
    ensures |Extract(doc)| == |Producers(doc)|
    ensures forall k :: 0 <= k < |Extract(doc)| ==>
      SentenceTriplet(doc[Producers(doc)[k]]) == Some(Extract(doc)[k])
  {
    SomePositionsExact(Outcomes(doc));
    SomesOrder(Outcomes(doc));
  }

  /** No partial triplets: every extracted triplet has three non-empty fields. */
  lemma ExtractComplete(doc: seq<Sentence>)
    ensures forall k :: 0 <= k < |Extract(doc)| ==> Complete(Extract(doc)[k])
  {
    SomesOrder(Outcomes(doc));
  }

  /** The positions of the sentences that yield a triplet, as a set. */
  function ProductiveIndices(doc: seq<Sentence>): set<nat>
  {
    set i: nat | i < |doc| && Productive(doc[i])
  }

  /** Exactly one triplet for each sentence meeting the all-non-empty condition. */
  lemma ExtractCount(doc: seq<Sentence>)
    ensures |Extract(doc)| == |ProductiveIndices(doc)|
  {
    SomesCount(Outcomes(doc));
    assert ProductiveIndices(doc) == SomeIndexSet(Outcomes(doc));
  }

  // ---- the worked example ----

  /** "Alice quickly wrote a letter" as the parser tags it. */
  function AliceSentence(): Sentence
  {
    [Token("Alice", "PROPN", "nsubj"), Token("quickly", "ADV", "advmod"),
     Token("wrote", "VERB", "ROOT"), Token("a", "DET", "det"),
     Token("letter", "NOUN", "dobj")]
  }

  /** The example's dependency labels, in token order. */
  function AliceLabels(): seq<string>
  {
    ["nsubj", "advmod", "ROOT", "det", "dobj"]
  }

  /** Label k is the only one containing `pattern` when it contains it and
      the pattern's first character starts no window of any other label. */
  lemma OnlyLabelContaining(labels: seq<string>, k: nat, pattern: string)
    requires k < |labels| && 0 < |pattern| && Contains(labels[k], pattern)
    requires forall j, i ::
      (0 <= j < |labels| && j != k && 0 <= i && i + |pattern| <= |labels[j]|) ==> labels[j][i] != pattern[0]
    ensures forall j :: 0 <= j < |labels| ==> (Contains(labels[j], pattern) <==> j == k)
  {
    forall j | 0 <= j < |labels| && j != k ensures !Contains(labels[j], pattern) {
      AbsentWhenHeadAbsent(labels[j], pattern);
    }
  }

  /** The example's subject slot: "Alice" is its only subject token. */
  lemma AliceSubject()
    ensures SlotValue(AliceSentence(), Subject) == "Alice"
  {
    OnlyLabelContaining(AliceLabels(), 0, "subj");
    assert forall k :: 0 <= k < 5 ==> AliceSentence()[k].dep == AliceLabels()[k];
    assert LastFiller(AliceSentence(), Subject, 0);
    SlotIsLastFiller(AliceSentence(), Subject, 0);
  }

  /** The example's relation slot: "wrote" is its only VERB token. */
  lemma AliceRelation()
    ensures SlotValue(AliceSentence(), Relation) == "wrote"
  {
    assert LastFiller(AliceSentence(), Relation, 2);
    SlotIsLastFiller(AliceSentence(), Relation, 2);
  }

  /** The example's object slot: "letter" is its only object token. */
  lemma AliceObject()
    ensures SlotValue(AliceSentence(), Object) == "letter"
  {
    OnlyLabelContaining(AliceLabels(), 4, "obj");
    assert forall k :: 0 <= k < 5 ==> AliceSentence()[k].dep == AliceLabels()[k];
    assert LastFiller(AliceSentence(), Object, 4);
    SlotIsLastFiller(AliceSentence(), Object, 4);
  }

  /** The one-sentence document of the example yields (Alice, wrote, letter). */
  lemma AliceWroteLetter()
    ensures Extract([AliceSentence()]) == [Triplet("Alice", "wrote", "letter")]
  {
    AliceSubject();
    AliceRelation();
    AliceObject();
    ExtractSingle(AliceSentence());
  }
}

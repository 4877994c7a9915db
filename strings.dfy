/** The two string tests the extractor and the upload dispatch rely on:
    Python's substring test `sub in s` and `s.endswith(suffix)`. */
module Strings {

  /** `sub in s`: some window of `s` equals `sub`. Checked left to right.
      A pattern longer than `s` is never found; the empty pattern always is. */
  predicate Contains(s: string, sub: string): (b: bool)
    ensures b ==> |sub| <= |s|
    ensures |sub| == 0 ==> b
    decreases |s|
  {
    (|sub| <= |s| && s[..|sub|] == sub) || (0 < |s| && Contains(s[1..], sub))
  }

  /** `sub` occurs in `s` starting at position `i`. */
  predicate OccursAt(s: string, sub: string, i: int)
  {
    0 <= i && i + |sub| <= |s| && s[i..i + |sub|] == sub
  }

  /** The window characterisation of `Contains`: it holds exactly when `sub`
      occurs at some position of `s`. */
  lemma {:induction false} ContainsIff(s: string, sub: string)
    ensures Contains(s, sub) <==> exists i :: OccursAt(s, sub, i)
    decreases |s|
  {
    if Contains(s, sub) {
      if |sub| <= |s| && s[..|sub|] == sub {
        assert OccursAt(s, sub, 0);
      } else {
        ContainsIff(s[1..], sub);
        var i :| OccursAt(s[1..], sub, i);
        assert s[i + 1..i + 1 + |sub|] == s[1..][i..i + |sub|];
        assert OccursAt(s, sub, i + 1);
      }
    }
    if exists i :: OccursAt(s, sub, i) {
      var i :| OccursAt(s, sub, i);
      if i == 0 {
        assert s[..|sub|] == sub;
      } else {
        assert s[1..][i - 1..i - 1 + |sub|] == s[i..i + |sub|];
        assert OccursAt(s[1..], sub, i - 1);
        ContainsIff(s[1..], sub);
      }
    }
  }

  /** An occurrence of a non-empty `sub` starts with its first character. */
  lemma OccurrenceStartsWithHead(s: string, sub: string)
    requires 0 < |sub|
    ensures forall i :: OccursAt(s, sub, i) ==> s[i] == sub[0]
  {
    forall i | OccursAt(s, sub, i) ensures s[i] == sub[0] {
      assert s[i] == s[i..i + |sub|][0];
    }
  }

  /** `s.endswith(suffix)`: `s` is some string followed by `suffix`. */
  predicate EndsWith(s: string, suffix: string): (b: bool)
    ensures b <==> exists front :: s == front + suffix
  {
    SuffixWindow(s, suffix);
    |suffix| <= |s| && s[|s| - |suffix|..] == suffix
  }

  /** The last |suffix| characters of `s` are `suffix` exactly when `s` is
      some string followed by `suffix`. */
  lemma SuffixWindow(s: string, suffix: string)
    ensures (|suffix| <= |s| && s[|s| - |suffix|..] == suffix) <==> exists front :: s == front + suffix
  {
    if |suffix| <= |s| && s[|s| - |suffix|..] == suffix {
      assert s == s[..|s| - |suffix|] + suffix;
    }
    if exists front :: s == front + suffix {
      var front :| s == front + suffix;
      assert s[|s| - |suffix|..] == (front + suffix)[|front|..];
    }
  }

  /** Two different suffixes of the same length never both end one name. */
  lemma SameLengthSuffixesExclude(s: string, a: string, b: string)
    requires |a| == |b| && a != b
    ensures !(EndsWith(s, a) && EndsWith(s, b))
  {
  }

  /** `sub` is absent from `s` when its first character occurs at no
      position of `s` where a whole window would still fit. */
  lemma AbsentWhenHeadAbsent(s: string, sub: string)
    requires 0 < |sub|
    requires forall i :: 0 <= i && i + |sub| <= |s| ==> s[i] != sub[0]
    ensures !Contains(s, sub)
  {
    ContainsIff(s, sub);
    OccurrenceStartsWithHead(s, sub);
  }
}

/** Optional values and the sequence of the values that are present. */
module Options {

  datatype Option<T> = None | Some(value: T)

  /** The contribution of one optional value: nothing or the value itself. */
  function Present<T>(x: Option<T>): seq<T>
  {
    match x
    case None => []
    case Some(v) => [v]
  }

  /** The values present in `xs`, in the order of `xs`. */
  function Somes<T>(xs: seq<Option<T>>): seq<T>
    decreases |xs|
  {
    if |xs| == 0 then [] else Somes(xs[..|xs| - 1]) + Present(xs[|xs| - 1])
  }

  /** The positions of `xs` that hold a value, in increasing order. */
  function SomePositions<T>(xs: seq<Option<T>>): (idx: seq<nat>)
    ensures forall k :: 0 <= k < |idx| ==> idx[k] < |xs|
    ensures forall k, m :: 0 <= k < m < |idx| ==> idx[k] < idx[m]
    decreases |xs|
  {
    if |xs| == 0 then []
    else
      var n := |xs| - 1;
      SomePositions(xs[..n]) + (if xs[n].Some? then [n] else [])
  }

  /** One more element adds its value, if it has one, at the end. */
  lemma SomesSnoc<T>(xs: seq<Option<T>>, x: Option<T>)
    ensures Somes(xs + [x]) == Somes(xs) + Present(x)
  {
    assert (xs + [x])[..|xs|] == xs;
  }

  /** `Somes` distributes over concatenation. */
  lemma {:induction false} SomesAppend<T>(a: seq<Option<T>>, b: seq<Option<T>>)
    ensures Somes(a + b) == Somes(a) + Somes(b)
    decreases |b|
  {
    if |b| == 0 {
      assert a + b == a;
    } else {
      var n := |b| - 1;
      assert (a + b)[..|a + b| - 1] == a + b[..n];
      SomesAppend(a, b[..n]);
    }
  }

  /** At most one value per element. */
  lemma {:induction false} SomesBound<T>(xs: seq<Option<T>>)
    ensures |Somes(xs)| <= |xs|
    decreases |xs|
  {
    if 0 < |xs| {
      SomesBound(xs[..|xs| - 1]);
    }
  }

  /** `SomePositions` lists exactly the positions that hold a value. */
  lemma {:induction false} SomePositionsExact<T>(xs: seq<Option<T>>)
    ensures forall k :: 0 <= k < |SomePositions(xs)| ==> xs[SomePositions(xs)[k]].Some?
    ensures forall i :: 0 <= i < |xs| && xs[i].Some? ==> i in SomePositions(xs)
    decreases |xs|
  {
    if 0 < |xs| {
      var n := |xs| - 1;
      var init := xs[..n];
      SomePositionsExact(init);
      var before, after := SomePositions(init), SomePositions(xs);
      assert after == before + (if xs[n].Some? then [n] else []);
      forall k | 0 <= k < |after| ensures xs[after[k]].Some? {
        if k < |before| {
          assert after[k] == before[k] && xs[before[k]] == init[before[k]];
        }
      }
      forall i | 0 <= i < |xs| && xs[i].Some? ensures i in after {
        if i < n {
          assert init[i] == xs[i];
          assert i in before;
        }
      }
    }
  }

  /** The k-th present value is the value at the k-th position holding one. */
  lemma {:induction false} SomesOrder<T>(xs: seq<Option<T>>)
    ensures |Somes(xs)| == |SomePositions(xs)|
    ensures forall k :: 0 <= k < |Somes(xs)| ==> xs[SomePositions(xs)[k]] == Some(Somes(xs)[k])
    decreases |xs|
  {
    if 0 < |xs| {
      var n := |xs| - 1;
      var init := xs[..n];
      SomesOrder(init);
      var before, after := SomePositions(init), SomePositions(xs);
      assert after == before + (if xs[n].Some? then [n] else []);
      assert Somes(xs) == Somes(init) + Present(xs[n]);
      forall k | 0 <= k < |Somes(xs)| ensures xs[after[k]] == Some(Somes(xs)[k]) {
        if k < |Somes(init)| {
          assert after[k] == before[k] && xs[before[k]] == init[before[k]];
        } else {
          assert after[k] == n;
        }
      }
    }
  }

  /** The positions holding a value, as a set. */
  function SomeIndexSet<T>(xs: seq<Option<T>>): set<nat>
  {
    set i: nat | i < |xs| && xs[i].Some?
  }

  /** The number of present values is the number of positions holding one. */
  lemma {:induction false} SomesCount<T>(xs: seq<Option<T>>)
    ensures |Somes(xs)| == |SomeIndexSet(xs)|
    decreases |xs|
  {
    if 0 < |xs| {
      var n := |xs| - 1;
      var init := xs[..n];
      SomesCount(init);
      var extra: set<nat> := if xs[n].Some? then {n} else {};
      forall x | x in SomeIndexSet(xs) ensures x in SomeIndexSet(init) + extra {
        if x < n {
          assert init[x] == xs[x];
        }
      }
      forall x | x in SomeIndexSet(init) + extra ensures x in SomeIndexSet(xs) {
        if x < n {
          assert init[x] == xs[x];
        }
      }
      assert SomeIndexSet(xs) == SomeIndexSet(init) + extra;
      assert n !in SomeIndexSet(init);
    }
  }
}

/** Order-preserving selection from a sequence: `filter`, and the
    filter-then-map shape of a `forEach` loop that pushes some items into
    an array. */
module Collections {
  import opened Wrappers

  /** The values `f` yields, in the order of `s`, skipping the items where it yields nothing. */
  function Collect<A, B>(s: seq<A>, f: A -> Option<B>): (r: seq<B>)
    ensures |r| <= |s|
  {
    if |s| == 0 then []
    else
      var last := f(s[|s| - 1]);
      Collect(s[..|s| - 1], f) + (if last.Some? then [last.value] else [])
  }

  /** The positions of `s` where `f` yields a value, in increasing order. */
  function CollectedIndices<A, B>(s: seq<A>, f: A -> Option<B>): (idx: seq<nat>)
    ensures forall k :: 0 <= k < |idx| ==> idx[k] < |s| && f(s[idx[k]]).Some?
    ensures forall k, l :: 0 <= k < l < |idx| ==> idx[k] < idx[l]
  {
    if |s| == 0 then []
    else CollectedIndices(s[..|s| - 1], f) + (if f(s[|s| - 1]).Some? then [|s| - 1] else [])
  }

  lemma {:induction false} CollectAppend<A, B>(a: seq<A>, b: seq<A>, f: A -> Option<B>)
    ensures Collect(a + b, f) == Collect(a, f) + Collect(b, f)
  {
    if |b| > 0 {
      var ab := a + b;
      assert ab[..|ab| - 1] == a + b[..|b| - 1];
      assert ab[|ab| - 1] == b[|b| - 1];
      CollectAppend(a, b[..|b| - 1], f);
    } else {
      assert a + b == a;
    }
  }

  /** One more item adds at most its own value at the end. */
  lemma CollectStep<A, B>(s: seq<A>, i: nat, f: A -> Option<B>)
    requires i < |s|
    ensures Collect(s[..i + 1], f) == Collect(s[..i], f) + (if f(s[i]).Some? then [f(s[i]).value] else [])
  {
    assert s[..i + 1][..i] == s[..i];
  }

  /** An item that yields nothing leaves no trace. */
  lemma CollectSkip<A, B>(a: seq<A>, x: A, b: seq<A>, f: A -> Option<B>)
    requires f(x).None?
    ensures Collect(a + [x] + b, f) == Collect(a, f) + Collect(b, f)
  {
    CollectAppend(a + [x], b, f);
    CollectAppend(a, [x], f);
    assert [x][..0] == [];
    assert Collect([x], f) == Collect([], f);
  }

  /** Two selections that agree on every item collect the same values. */
  lemma {:induction false} CollectCongruent<A, B>(s: seq<A>, f: A -> Option<B>, g: A -> Option<B>)
    requires forall i :: 0 <= i < |s| ==> f(s[i]) == g(s[i])
    ensures Collect(s, f) == Collect(s, g)
  {
    if |s| > 0 {
      var init := s[..|s| - 1];
      assert forall i :: 0 <= i < |init| ==> init[i] == s[i];
      CollectCongruent(init, f, g);
    }
  }

  /** Every value Collect returns has a property that every value `f` yields has. */
  lemma {:induction false} CollectAll<A, B>(s: seq<A>, f: A -> Option<B>, p: B -> bool)
    requires forall i :: 0 <= i < |s| && f(s[i]).Some? ==> p(f(s[i]).value)
    ensures forall k :: 0 <= k < |Collect(s, f)| ==> p(Collect(s, f)[k])
  {
    if |s| > 0 {
      var init := s[..|s| - 1];
      assert forall i :: 0 <= i < |init| ==> init[i] == s[i];
      CollectAll(init, f, p);
    }
  }

  /** Collect keeps exactly the items where `f` yields a value, in their
      original order: its k-th result comes from the k-th such position. */
  lemma {:induction false} CollectExactly<A, B>(s: seq<A>, f: A -> Option<B>)
    ensures var r, idx := Collect(s, f), CollectedIndices(s, f);
      |idx| == |r|
      && (forall k :: 0 <= k < |r| ==> r[k] == f(s[idx[k]]).value)
      && (forall i :: 0 <= i < |s| && f(s[i]).Some? ==> i in idx)
  {
    if |s| > 0 {
      var init := s[..|s| - 1];
      CollectExactly(init, f);
      var r, idx := Collect(s, f), CollectedIndices(s, f);
      assert forall k :: 0 <= k < |CollectedIndices(init, f)| ==> idx[k] == CollectedIndices(init, f)[k];
      forall i | 0 <= i < |s| && f(s[i]).Some? ensures i in idx {
        if i < |s| - 1 {
          assert s[i] == init[i];
          var k :| 0 <= k < |CollectedIndices(init, f)| && CollectedIndices(init, f)[k] == i;
          assert idx[k] == i;
        } else {
          assert idx[|idx| - 1] == i;
        }
      }
      forall k | 0 <= k < |r| ensures r[k] == f(s[idx[k]]).value {
        if k < |Collect(init, f)| {
          assert s[idx[k]] == init[CollectedIndices(init, f)[k]];
        }
      }
    }
  }

  /** `s.filter(p)`. */
  function Filter<T>(s: seq<T>, p: T -> bool): (r: seq<T>)
    ensures |r| <= |s|
    ensures forall k :: 0 <= k < |r| ==> r[k] in s && p(r[k])
    ensures forall i :: 0 <= i < |s| && p(s[i]) ==> s[i] in r
  {
    if |s| == 0 then []
    else
      var init := Filter(s[..|s| - 1], p);
      assert forall i :: 0 <= i < |s| - 1 ==> s[i] == s[..|s| - 1][i];
      init + (if p(s[|s| - 1]) then [s[|s| - 1]] else [])
  }

  /** Filtering distributes over concatenation. */
  lemma {:induction false} FilterAppend<T>(a: seq<T>, b: seq<T>, p: T -> bool)
    ensures Filter(a + b, p) == Filter(a, p) + Filter(b, p)
  {
    if |b| > 0 {
      var ab := a + b;
      assert ab[..|ab| - 1] == a + b[..|b| - 1];
      assert ab[|ab| - 1] == b[|b| - 1];
      FilterAppend(a, b[..|b| - 1], p);
    } else {
      assert a + b == a;
    }
  }

  /** An item that fails the test leaves no trace. */
  lemma FilterSkip<T>(a: seq<T>, x: T, b: seq<T>, p: T -> bool)
    requires !p(x)
    ensures Filter(a + [x] + b, p) == Filter(a, p) + Filter(b, p)
  {
    FilterAppend(a + [x], b, p);
    FilterAppend(a, [x], p);
    assert [x][..0] == [];
    assert Filter([x], p) == Filter([], p);
  }

  /** Filtering by a test no item passes leaves nothing. */
  lemma {:induction false} FilterNone<T>(s: seq<T>, p: T -> bool)
    requires forall i :: 0 <= i < |s| ==> !p(s[i])
    ensures Filter(s, p) == []
  {
    if |s| > 0 {
      FilterNone(s[..|s| - 1], p);
    }
  }

  /** Filtering by a test every item passes changes nothing. */
  lemma {:induction false} FilterAll<T>(s: seq<T>, p: T -> bool)
    requires forall i :: 0 <= i < |s| ==> p(s[i])
    ensures Filter(s, p) == s
  {
    if |s| > 0 {
      FilterAll(s[..|s| - 1], p);
    }
  }
}

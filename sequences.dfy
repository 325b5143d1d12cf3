/**
 * The Python list idioms the log code is built from, over any element
 * type: a filtering comprehension `[x for x in s if p(x)]`, keeping the
 * non-None results of a per-element function, and counting the elements
 * that satisfy a condition.
 */
module Sequences {
  import opened Options

  /** `[x for x in s if p(x)]`. */
  function Filter<T>(s: seq<T>, p: T -> bool): (r: seq<T>)
    ensures |r| <= |s|
  {
    if s == [] then []
    else Filter(s[..|s| - 1], p) + (if p(s[|s| - 1]) then [s[|s| - 1]] else [])
  }

  /** The values inside the `Some`s of `s`, in order: what a loop appending every non-None result builds. */
  function Somes<T>(s: seq<Option<T>>): (r: seq<T>)
    ensures |r| <= |s|
  {
    if s == [] then []
    else Somes(s[..|s| - 1]) + (if s[|s| - 1].Some? then [s[|s| - 1].value] else [])
  }

  /** `[f(x) for x in s]`. */
  function Map<A, B>(s: seq<A>, f: A -> B): (r: seq<B>)
    ensures |r| == |s|
  {
    seq(|s|, i requires 0 <= i < |s| => f(s[i]))
  }

  /** Mapping a concatenation maps each part. */
  lemma MapAppend<A, B>(a: seq<A>, b: seq<A>, f: A -> B)
    ensures Map(a + b, f) == Map(a, f) + Map(b, f)
  {
    var r := Map(a + b, f);
    forall i | 0 <= i < |a| ensures r[i] == Map(a, f)[i] {
      assert (a + b)[i] == a[i];
    }
    forall i | 0 <= i < |b| ensures r[|a| + i] == Map(b, f)[i] {
      assert (a + b)[|a| + i] == b[i];
    }
  }

  /** Mapping a prefix gives the prefix of the mapped sequence. */
  lemma MapPrefix<A, B>(s: seq<A>, f: A -> B, k: nat)
    requires k <= |s|
    ensures Map(s, f)[..k] == Map(s[..k], f)
  {
  }

  /** The number of elements of `s` satisfying `p`. */
  function Count<T>(s: seq<T>, p: T -> bool): (n: nat)
    ensures n <= |s|
  {
    if s == [] then 0
    else Count(s[..|s| - 1], p) + (if p(s[|s| - 1]) then 1 else 0)
  }

  /** Positions listed in strictly increasing order, all below `n`. */
  predicate IncreasingBelow(idx: seq<nat>, n: nat) {
    (forall q | 0 <= q < |idx| :: idx[q] < n) && (forall p, q | 0 <= p < q < |idx| :: idx[p] < idx[q])
  }

  /** Listing position `n` after positions below `n` keeps the list increasing and adds only `n`. */
  lemma ExtendPositions(before: seq<nat>, n: nat, keep: bool) returns (idx: seq<nat>)
    requires IncreasingBelow(before, n)
    ensures idx == if keep then before + [n] else before
    ensures IncreasingBelow(idx, n + 1)
  {
    idx := if keep then before + [n] else before;
  }

  /** Which positions an extended list holds: those of the old list, and `n` when it was kept. */
  lemma ExtendedMembers(before: seq<nat>, n: nat, keep: bool, idx: seq<nat>)
    requires IncreasingBelow(before, n)
    requires idx == if keep then before + [n] else before
    ensures forall j | 0 <= j < n :: j in idx <==> j in before
    ensures n in idx <==> keep
  {
  }

  /**
   * A filter keeps an order-preserving subsequence: the q-th kept element
   * is `s[idx[q]]`, and `idx` holds, increasing, exactly the positions
   * whose element satisfies `p`.
   */
  lemma {:induction false} FilterIndices<T>(s: seq<T>, p: T -> bool) returns (idx: seq<nat>)
    ensures |idx| == |Filter(s, p)|
    ensures IncreasingBelow(idx, |s|)
    ensures forall q | 0 <= q < |idx| :: s[idx[q]] == Filter(s, p)[q]
    ensures forall j | 0 <= j < |s| :: p(s[j]) <==> j in idx
  {
    if s == [] {
      idx := [];
    } else {
      var init, last := s[..|s| - 1], s[|s| - 1];
      assert s == init + [last];
      var before := FilterIndices(init, p);
      idx := FilterStep(init, last, p, before);
    }
  }

  /** The positions kept from `init`, extended by one element. */
  lemma FilterStep<T>(init: seq<T>, last: T, p: T -> bool, before: seq<nat>) returns (idx: seq<nat>)
    requires |before| == |Filter(init, p)|
    requires IncreasingBelow(before, |init|)
    requires forall q | 0 <= q < |before| :: init[before[q]] == Filter(init, p)[q]
    requires forall j | 0 <= j < |init| :: p(init[j]) <==> j in before
    ensures |idx| == |Filter(init + [last], p)|
    ensures IncreasingBelow(idx, |init + [last]|)
    ensures forall q | 0 <= q < |idx| :: (init + [last])[idx[q]] == Filter(init + [last], p)[q]
    ensures forall j | 0 <= j < |init + [last]| :: p((init + [last])[j]) <==> j in idx
  {
    var s := init + [last];
    assert s[..|s| - 1] == init;
    idx := ExtendPositions(before, |init|, p(last));
    ExtendedMembers(before, |init|, p(last), idx);
    FilterStepValues(init, last, p, before, idx);
  }

  /** Extending the positions by one element keeps each kept element at its listed position. */
  lemma FilterStepValues<T>(init: seq<T>, last: T, p: T -> bool, before: seq<nat>, idx: seq<nat>)
    requires |before| == |Filter(init, p)|
    requires forall q | 0 <= q < |before| :: before[q] < |init| && init[before[q]] == Filter(init, p)[q]
    requires idx == if p(last) then before + [|init|] else before
    ensures |idx| == |Filter(init + [last], p)|
    ensures forall q | 0 <= q < |idx| :: (init + [last])[idx[q]] == Filter(init + [last], p)[q]
  {
    var s := init + [last];
    assert s[..|s| - 1] == init;
    var r, rInit := Filter(s, p), Filter(init, p);
    forall q | 0 <= q < |idx| ensures s[idx[q]] == r[q] {
      if q < |before| {
        assert idx[q] == before[q] && r[q] == rInit[q];
      }
    }
  }

  /** An element is kept exactly when it occurs in `s` and satisfies `p`. */
  lemma FilterMembers<T>(s: seq<T>, p: T -> bool)
    ensures forall x :: x in Filter(s, p) <==> x in s && p(x)
  {
    var idx := FilterIndices(s, p);
    var r := Filter(s, p);
    forall x | x in s && p(x) ensures x in r {
      var j :| 0 <= j < |s| && s[j] == x;
      var q :| 0 <= q < |idx| && idx[q] == j;
      assert r[q] == x;
    }
    forall x | x in r ensures x in s {
      var q :| 0 <= q < |r| && r[q] == x;
      assert s[idx[q]] == x;
    }
  }

  /** Filtering a concatenation filters each part. */
  lemma {:induction false} FilterAppend<T>(a: seq<T>, b: seq<T>, p: T -> bool)
    ensures Filter(a + b, p) == Filter(a, p) + Filter(b, p)
    decreases |b|
  {
    if b == [] {
      assert a + b == a;
    } else {
      var n := |b|;
      assert (a + b)[..|a + b| - 1] == a + b[..n - 1];
      FilterAppend(a, b[..n - 1], p);
    }
  }

  /**
   * The kept values are an order-preserving subsequence: the q-th is the
   * value at `idx[q]`, and `idx` holds, increasing, exactly the positions
   * holding a `Some`.
   */
  lemma {:induction false} SomesIndices<T>(s: seq<Option<T>>) returns (idx: seq<nat>)
    ensures |idx| == |Somes(s)|
    ensures IncreasingBelow(idx, |s|)
    ensures forall q | 0 <= q < |idx| :: s[idx[q]] == Some(Somes(s)[q])
    ensures forall j | 0 <= j < |s| :: s[j].Some? <==> j in idx
  {
    if s == [] {
      idx := [];
    } else {
      var init, last := s[..|s| - 1], s[|s| - 1];
      assert s == init + [last];
      var before := SomesIndices(init);
      idx := SomesStep(init, last, before);
    }
  }

  /** The positions of the values kept from `init`, extended by one element. */
  lemma SomesStep<T>(init: seq<Option<T>>, last: Option<T>, before: seq<nat>) returns (idx: seq<nat>)
    requires |before| == |Somes(init)|
    requires IncreasingBelow(before, |init|)
    requires forall q | 0 <= q < |before| :: init[before[q]] == Some(Somes(init)[q])
    requires forall j | 0 <= j < |init| :: init[j].Some? <==> j in before
    ensures |idx| == |Somes(init + [last])|
    ensures IncreasingBelow(idx, |init + [last]|)
    ensures forall q | 0 <= q < |idx| :: (init + [last])[idx[q]] == Some(Somes(init + [last])[q])
    ensures forall j | 0 <= j < |init + [last]| :: (init + [last])[j].Some? <==> j in idx
  {
    var s := init + [last];
    assert s[..|s| - 1] == init;
    idx := ExtendPositions(before, |init|, last.Some?);
    ExtendedMembers(before, |init|, last.Some?, idx);
    SomesStepValues(init, last, before, idx);
  }

  /** Extending the positions by one element keeps each kept value at its listed position. */
  lemma SomesStepValues<T>(init: seq<Option<T>>, last: Option<T>, before: seq<nat>, idx: seq<nat>)
    requires |before| == |Somes(init)|
    requires forall q | 0 <= q < |before| :: before[q] < |init| && init[before[q]] == Some(Somes(init)[q])
    requires idx == if last.Some? then before + [|init|] else before
    ensures |idx| == |Somes(init + [last])|
    ensures forall q | 0 <= q < |idx| :: (init + [last])[idx[q]] == Some(Somes(init + [last])[q])
  {
    var s := init + [last];
    assert s[..|s| - 1] == init;
    var r, rInit := Somes(s), Somes(init);
    forall q | 0 <= q < |idx| ensures s[idx[q]] == Some(r[q]) {
      if q < |before| {
        assert idx[q] == before[q] && r[q] == rInit[q];
      }
    }
  }

  lemma {:induction false} SomesAppend<T>(a: seq<Option<T>>, b: seq<Option<T>>)
    ensures Somes(a + b) == Somes(a) + Somes(b)
    decreases |b|
  {
    if b == [] {
      assert a + b == a;
    } else {
      var n := |b|;
      assert (a + b)[..|a + b| - 1] == a + b[..n - 1];
      SomesAppend(a, b[..n - 1]);
    }
  }

  /** When every element is a `Some`, `Somes` drops nothing: it gives back the values, in order. */
  lemma {:induction false} SomesAllSome<T>(s: seq<Option<T>>, xs: seq<T>)
    requires |s| == |xs|
    requires forall i | 0 <= i < |s| :: s[i] == Some(xs[i])
    ensures Somes(s) == xs
  {
    if s != [] {
      var n := |s|;
      SomesAllSome(s[..n - 1], xs[..n - 1]);
      assert xs == xs[..n - 1] + [xs[n - 1]];
    }
  }

  lemma {:induction false} CountAppend<T>(a: seq<T>, b: seq<T>, p: T -> bool)
    ensures Count(a + b, p) == Count(a, p) + Count(b, p)
    decreases |b|
  {
    if b == [] {
      assert a + b == a;
    } else {
      var n := |b|;
      assert (a + b)[..|a + b| - 1] == a + b[..n - 1];
      CountAppend(a, b[..n - 1], p);
    }
  }

  /** The elements satisfying `p` do not depend on the order of `s`: a permutation counts as many. */
  lemma {:induction false} CountPermutation<T>(a: seq<T>, b: seq<T>, p: T -> bool)
    requires multiset(a) == multiset(b)
    ensures Count(a, p) == Count(b, p)
    decreases |a|
  {
    if a != [] {
      var n := |a|;
      var x := a[n - 1];
      assert x in multiset(a);
      var i :| 0 <= i < |b| && b[i] == x;
      var rest := b[..i] + b[i + 1..];
      RemoveMatching(a, b, i);
      CountPermutation(a[..n - 1], rest, p);
      CountRemove(b, i, p);
    }
  }

  /** Taking the last element of `a` and a copy of it out of `b` keeps the two multisets equal. */
  lemma RemoveMatching<T>(a: seq<T>, b: seq<T>, i: nat)
    requires a != [] && i < |b| && b[i] == a[|a| - 1]
    requires multiset(a) == multiset(b)
    ensures multiset(a[..|a| - 1]) == multiset(b[..i] + b[i + 1..])
  {
    var x, init, left, right := b[i], a[..|a| - 1], b[..i], b[i + 1..];
    assert a == init + [x];
    assert multiset(a) == multiset(init) + multiset{x};
    assert b == left + [x] + right;
    assert multiset(b) == multiset(left) + multiset{x} + multiset(right);
    assert multiset(left + right) == multiset(left) + multiset(right);
    assert multiset(init) == multiset(a) - multiset{x};
    assert multiset(left + right) == multiset(b) - multiset{x};
  }

  /** Removing the element at `i` lowers the count by one exactly when that element satisfies `p`. */
  lemma CountRemove<T>(b: seq<T>, i: nat, p: T -> bool)
    requires i < |b|
    ensures Count(b, p) == Count(b[..i] + b[i + 1..], p) + (if p(b[i]) then 1 else 0)
  {
    var left, mid, right := b[..i], [b[i]], b[i + 1..];
    assert b == left + b[i..];
    assert b[i..] == mid + right;
    CountAppend(left, b[i..], p);
    CountAppend(mid, right, p);
    CountAppend(left, right, p);
    CountSingle(b[i], p);
  }

  lemma CountSingle<T>(x: T, p: T -> bool)
    ensures Count([x], p) == if p(x) then 1 else 0
  {
    assert [x][..0] == [];
  }
}

/** Sequence helpers shared by the models: filtering and first-seen de-duplication. */
module Seqs {

  /** `xs.filter(p)`: the elements of `xs` that satisfy `p`, in their original order. */
  function Filter<T(!new)>(xs: seq<T>, p: T -> bool): (r: seq<T>)
    ensures |r| <= |xs|
    ensures forall x :: x in r <==> x in xs && p(x)
    ensures forall i :: 0 <= i < |r| ==> p(r[i])
  {
    if xs == [] then []
    else if p(xs[0]) then [xs[0]] + Filter(xs[1..], p)
    else Filter(xs[1..], p)
  }

  /** Filtering works piece by piece: kept elements keep their order and their repeats. */
  lemma {:induction false} FilterConcat<T(!new)>(a: seq<T>, b: seq<T>, p: T -> bool)
    ensures Filter(a + b, p) == Filter(a, p) + Filter(b, p)
  {
    if a == [] {
      assert a + b == b;
    } else {
      var x, tail := a[0], a[1..];
      var head := if p(x) then [x] else [];
      assert (a + b)[0] == x && (a + b)[1..] == tail + b;
      assert Filter(a + b, p) == head + Filter(tail + b, p);
      assert Filter(a, p) == head + Filter(tail, p);
      FilterConcat(tail, b, p);
      Associative(head, Filter(tail, p), Filter(b, p));
    }
  }

  /** A single element is kept exactly when it passes. */
  lemma FilterSingle<T(!new)>(x: T, p: T -> bool)
    ensures Filter([x], p) == if p(x) then [x] else []
  {
    assert [x][1..] == [];
  }

  lemma {:induction false} FilterAll<T(!new)>(xs: seq<T>, p: T -> bool)
    requires forall i :: 0 <= i < |xs| ==> p(xs[i])
    ensures Filter(xs, p) == xs
  {
    if xs != [] {
      assert forall i :: 0 <= i < |xs| - 1 ==> xs[1..][i] == xs[i + 1];
      FilterAll(xs[1..], p);
      assert xs == [xs[0]] + xs[1..];
    }
  }

  /** Splitting by a test and by its negation loses and adds nothing. */
  lemma {:induction false} FilterPartition<T(!new)>(xs: seq<T>, p: T -> bool, q: T -> bool)
    requires forall x :: q(x) == !p(x)
    ensures multiset(Filter(xs, p)) + multiset(Filter(xs, q)) == multiset(xs)
  {
    if xs != [] {
      var x, tail := xs[0], xs[1..];
      FilterPartition(tail, p, q);
      assert xs == [x] + tail;
      if p(x) {
        assert Filter(xs, p) == [x] + Filter(tail, p);
        assert Filter(xs, q) == Filter(tail, q);
      } else {
        assert Filter(xs, q) == [x] + Filter(tail, q);
        assert Filter(xs, p) == Filter(tail, p);
      }
    }
  }

  lemma {:induction false} FilterNone<T(!new)>(xs: seq<T>, p: T -> bool)
    requires forall i :: 0 <= i < |xs| ==> !p(xs[i])
    ensures Filter(xs, p) == []
  {
    if xs != [] {
      assert forall i :: 0 <= i < |xs| - 1 ==> xs[1..][i] == xs[i + 1];
      FilterNone(xs[1..], p);
    }
  }

  lemma Associative<T>(a: seq<T>, b: seq<T>, c: seq<T>)
    ensures a + (b + c) == (a + b) + c
  {
  }

  predicate NoDuplicates<T(==)>(xs: seq<T>) {
    forall i, j :: 0 <= i < j < |xs| ==> xs[i] != xs[j]
  }

  /** Index of the first occurrence of `x` in `xs`. */
  function FirstIndex<T(==)>(xs: seq<T>, x: T): (k: nat)
    requires x in xs
    ensures k < |xs| && xs[k] == x
    ensures forall i :: 0 <= i < k ==> xs[i] != x
  {
    if xs[0] == x then 0 else 1 + FirstIndex(xs[1..], x)
  }

  lemma FirstIndexPrefix<T>(xs: seq<T>, n: nat, x: T)
    requires n <= |xs| && x in xs[..n]
    ensures x in xs && FirstIndex(xs, x) == FirstIndex(xs[..n], x)
  {
    var k := FirstIndex(xs[..n], x);
    assert xs[k] == x;
    var k' := FirstIndex(xs, x);
    assert k' <= k;
    assert xs[..n][k'] == x;
  }

  /**
   * The distinct elements of `xs` in first-seen order: what iterating a
   * JavaScript `Set` built from `xs` yields.
   */
  function Distinct<T(==,!new)>(xs: seq<T>): (r: seq<T>)
    ensures NoDuplicates(r)
    ensures forall x :: x in r <==> x in xs
    ensures forall i, j :: 0 <= i < j < |r| ==> FirstIndex(xs, r[i]) < FirstIndex(xs, r[j])
    decreases |xs|
  {
    if xs == [] then []
    else
      var init := xs[..|xs| - 1];
      var d := Distinct(init);
      var last := xs[|xs| - 1];
      assert xs == init + [last];
      FirstIndexesAgree(xs, d);
      if last in d then d
      else
        assert FirstIndex(xs, last) == |xs| - 1 by {
          assert last !in init;
        }
        d + [last]
  }

  lemma FirstIndexesAgree<T(!new)>(xs: seq<T>, d: seq<T>)
    requires |xs| > 0
    requires forall x :: x in d <==> x in xs[..|xs| - 1]
    ensures forall i :: 0 <= i < |d| ==>
      d[i] in xs[..|xs| - 1] && d[i] in xs && FirstIndex(xs, d[i]) == FirstIndex(xs[..|xs| - 1], d[i]) < |xs| - 1
  {
    forall i | 0 <= i < |d|
      ensures d[i] in xs[..|xs| - 1] && d[i] in xs && FirstIndex(xs, d[i]) == FirstIndex(xs[..|xs| - 1], d[i]) < |xs| - 1
    {
      assert d[i] in d;
      FirstIndexPrefix(xs, |xs| - 1, d[i]);
    }
  }
}

/** Finite sums of reals over sequences, and the laws the cost and profile proofs need. */
module Sums {

  function Sum<T>(xs: seq<T>, f: T -> real): (total: real) {
    if xs == [] then 0.0 else Sum(xs[..|xs| - 1], f) + f(xs[|xs| - 1])
  }

  lemma SumAppend<T>(xs: seq<T>, x: T, f: T -> real)
    ensures Sum(xs + [x], f) == Sum(xs, f) + f(x)
  {
    assert (xs + [x])[..|xs|] == xs;
  }

  lemma SumPrefix<T>(xs: seq<T>, i: nat, f: T -> real)
    requires i < |xs|
    ensures Sum(xs[..i + 1], f) == Sum(xs[..i], f) + f(xs[i])
  {
    assert xs[..i + 1] == xs[..i] + [xs[i]];
    SumAppend(xs[..i], xs[i], f);
  }

  lemma {:induction false} SumConcat<T>(xs: seq<T>, ys: seq<T>, f: T -> real)
    ensures Sum(xs + ys, f) == Sum(xs, f) + Sum(ys, f)
  {
    if ys == [] {
      assert xs + ys == xs;
    } else {
      assert xs + ys == (xs + ys[..|ys| - 1]) + [ys[|ys| - 1]];
      SumAppend(xs + ys[..|ys| - 1], ys[|ys| - 1], f);
      SumConcat(xs, ys[..|ys| - 1], f);
    }
  }

  lemma {:induction false} SumCongruent<T>(xs: seq<T>, f: T -> real, g: T -> real)
    requires forall x :: x in xs ==> f(x) == g(x)
    ensures Sum(xs, f) == Sum(xs, g)
  {
    if xs != [] {
      SumCongruent(xs[..|xs| - 1], f, g);
    }
  }

  lemma {:induction false} SumMonotone<T>(xs: seq<T>, f: T -> real, g: T -> real)
    requires forall x :: x in xs ==> f(x) <= g(x)
    ensures Sum(xs, f) <= Sum(xs, g)
  {
    if xs != [] {
      SumMonotone(xs[..|xs| - 1], f, g);
    }
  }

  lemma {:induction false} SumZero<T>(xs: seq<T>, f: T -> real)
    requires forall x :: x in xs ==> f(x) == 0.0
    ensures Sum(xs, f) == 0.0
  {
    if xs != [] {
      SumZero(xs[..|xs| - 1], f);
    }
  }

  /** A sum of non-negative terms is non-negative and at least each term. */
  lemma {:induction false} SumNonNegative<T>(xs: seq<T>, f: T -> real)
    requires forall x :: x in xs ==> f(x) >= 0.0
    ensures Sum(xs, f) >= 0.0
    ensures forall x :: x in xs ==> f(x) <= Sum(xs, f)
  {
    if xs != [] {
      SumNonNegative(xs[..|xs| - 1], f);
      forall x | x in xs ensures f(x) <= Sum(xs, f) {
        assert xs == xs[..|xs| - 1] + [xs[|xs| - 1]];
      }
    }
  }

  /** A sum of non-negative terms is zero exactly when every term is. */
  lemma SumZeroIff<T>(xs: seq<T>, f: T -> real)
    requires forall x :: x in xs ==> f(x) >= 0.0
    ensures Sum(xs, f) == 0.0 <==> forall x :: x in xs ==> f(x) == 0.0
  {
    SumNonNegative(xs, f);
    if forall x :: x in xs ==> f(x) == 0.0 {
      SumZero(xs, f);
    }
  }

  lemma {:induction false} SumAdd<T>(xs: seq<T>, f: T -> real, g: T -> real, h: T -> real)
    requires forall x :: x in xs ==> h(x) == f(x) + g(x)
    ensures Sum(xs, h) == Sum(xs, f) + Sum(xs, g)
  {
    if xs != [] {
      SumAdd(xs[..|xs| - 1], f, g, h);
    }
  }

  lemma {:induction false} SumScale<T>(xs: seq<T>, k: real, f: T -> real, g: T -> real)
    requires forall x :: x in xs ==> g(x) == k * f(x)
    ensures Sum(xs, g) == k * Sum(xs, f)
  {
    if xs != [] {
      SumScale(xs[..|xs| - 1], k, f, g);
    }
  }

  ghost function Row<X, Y>(m: (X, Y) -> real, x: X): Y -> real {
    y => m(x, y)
  }

  ghost function Column<X, Y>(m: (X, Y) -> real, y: Y): X -> real {
    x => m(x, y)
  }

  /** Summing a table by rows or by columns gives the same total. */
  lemma {:induction false} SumSwap<X, Y>(xs: seq<X>, ys: seq<Y>, m: (X, Y) -> real, rows: X -> real, columns: Y -> real)
    requires forall x :: x in xs ==> rows(x) == Sum(ys, Row(m, x))
    requires forall y :: y in ys ==> columns(y) == Sum(xs, Column(m, y))
    ensures Sum(xs, rows) == Sum(ys, columns)
  {
    if xs == [] {
      SumZero(ys, columns);
    } else {
      var rest, last := xs[..|xs| - 1], xs[|xs| - 1];
      var fewer: Y -> real := y => Sum(rest, Column(m, y));
      SumSwap(rest, ys, m, rows, fewer);
      SumAdd(ys, fewer, Row(m, last), columns);
    }
  }

  /** The order of the terms does not matter. */
  lemma {:induction false} SumPermutation<T>(xs: seq<T>, ys: seq<T>, f: T -> real)
    requires multiset(xs) == multiset(ys)
    ensures Sum(xs, f) == Sum(ys, f)
  {
    if xs == [] {
      assert |multiset(ys)| == |ys| && |multiset(xs)| == 0;
    } else {
      var x := xs[|xs| - 1];
      assert xs == xs[..|xs| - 1] + [x];
      assert x in multiset(ys);
      var i :| 0 <= i < |ys| && ys[i] == x;
      var ys' := ys[..i] + ys[i + 1..];
      assert ys == ys[..i] + ([x] + ys[i + 1..]);
      assert multiset(ys') == multiset(ys) - multiset{x};
      SumPermutation(xs[..|xs| - 1], ys', f);
      SumConcat(ys[..i], [x] + ys[i + 1..], f);
      SumConcat([x], ys[i + 1..], f);
      SumConcat(ys[..i], ys[i + 1..], f);
      SumAppend([], x, f);
      assert [] + [x] == [x];
    }
  }

  /** 0, 1, ..., n-1. */
  function Range(n: nat): (r: seq<int>)
    ensures |r| == n && forall i :: 0 <= i < n ==> r[i] == i
  {
    seq(n, i => i)
  }

  lemma SumRangeStep(n: nat, f: int -> real)
    ensures Sum(Range(n + 1), f) == Sum(Range(n), f) + f(n)
  {
    assert Range(n + 1)[..n] == Range(n);
  }

  /** Summing over positions is summing over elements. */
  lemma {:induction false} SumByIndex<T>(xs: seq<T>, n: nat, f: T -> real, g: int -> real)
    requires n <= |xs| && forall i :: 0 <= i < n ==> g(i) == f(xs[i])
    ensures Sum(Range(n), g) == Sum(xs[..n], f)
  {
    if n > 0 {
      SumByIndex(xs, n - 1, f, g);
      SumRangeStep(n - 1, g);
      SumPrefix(xs, n - 1, f);
    }
  }

  /** A sum whose only non-zero term is at `a`. */
  lemma {:induction false} SumSingle(n: nat, a: int, f: int -> real)
    requires forall i :: 0 <= i < n && i != a ==> f(i) == 0.0
    ensures Sum(Range(n), f) == if 0 <= a < n then f(a) else 0.0
  {
    if n > 0 {
      SumSingle(n - 1, a, f);
      SumRangeStep(n - 1, f);
    }
  }

  ghost function InGroup<T>(group: T -> int, f: T -> real, c: int): T -> real {
    x => if group(x) == c then f(x) else 0.0
  }

  ghost function InGroupsBelow<T>(group: T -> int, f: T -> real, k: int): T -> real {
    x => if 0 <= group(x) < k then f(x) else 0.0
  }

  /** Grouping: summing each group's terms and then the groups below `k` gives the sum over their members. */
  lemma SumByGroup<T>(xs: seq<T>, k: nat, group: T -> int, f: T -> real, byGroup: int -> real)
    requires forall c :: 0 <= c < k ==> byGroup(c) == Sum(xs, InGroup(group, f, c))
    ensures Sum(Range(k), byGroup) == Sum(xs, InGroupsBelow(group, f, k))
    ensures (forall x :: x in xs ==> 0 <= group(x) < k) ==> Sum(Range(k), byGroup) == Sum(xs, f)
  {
    var m: (int, T) -> real := (c, x) => InGroup(group, f, c)(x);
    forall c | c in Range(k) ensures byGroup(c) == Sum(xs, Row(m, c)) {
      SumCongruent(xs, InGroup(group, f, c), Row(m, c));
    }
    forall x | x in xs ensures InGroupsBelow(group, f, k)(x) == Sum(Range(k), Column(m, x)) {
      SumSingle(k, group(x), Column(m, x));
    }
    SumSwap(Range(k), xs, m, byGroup, InGroupsBelow(group, f, k));
    if forall x :: x in xs ==> 0 <= group(x) < k {
      SumCongruent(xs, InGroupsBelow(group, f, k), f);
    }
  }

  /** Two different terms of a non-negative sum fit into it together. */
  lemma {:induction false} SumTwoTerms(n: nat, v: int, w: int, f: int -> real)
    requires 0 <= v < w < n && forall i :: 0 <= i < n ==> f(i) >= 0.0
    ensures f(v) + f(w) <= Sum(Range(n), f)
  {
    SumRangeStep(n - 1, f);
    if w < n - 1 {
      SumTwoTerms(n - 1, v, w, f);
    } else {
      SumNonNegative(Range(n - 1), f);
      assert v == Range(n - 1)[v];
    }
  }

  /** A sum with at most one non-zero position. */
  lemma {:induction false} SumAtMostOne<T>(xs: seq<T>, f: T -> real, v: real, hit: int)
    requires forall i :: 0 <= i < |xs| ==> f(xs[i]) == if i == hit then v else 0.0
    ensures Sum(xs, f) == if 0 <= hit < |xs| then v else 0.0
  {
    if xs != [] {
      SumAtMostOne(xs[..|xs| - 1], f, v, hit);
    }
  }

  /** Two different positions of a non-negative sum fit into it together. */
  lemma SumTwoPositions<T>(xs: seq<T>, v: int, w: int, f: T -> real)
    requires 0 <= v < |xs| && 0 <= w < |xs| && v != w
    requires forall x :: x in xs ==> f(x) >= 0.0
    ensures f(xs[v]) + f(xs[w]) <= Sum(xs, f)
  {
    var g: int -> real := i => if 0 <= i < |xs| then f(xs[i]) else 0.0;
    SumByIndex(xs, |xs|, f, g);
    assert xs[..|xs|] == xs;
    SumTwoTerms(|xs|, if v < w then v else w, if v < w then w else v, g);
  }
}

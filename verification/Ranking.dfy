/** Ordering as the rankings do it: a stable sort by a comparator, then the first few. */
module Ranking {
  /** Every two elements compare, and comparison is transitive. */
  ghost predicate TotalPreorder<T(!new)>(before: (T, T) -> bool) {
    && (forall a, b :: before(a, b) || before(b, a))
    && (forall a, b, c :: before(a, b) && before(b, c) ==> before(a, c))
  }

  ghost predicate SortedBy<T>(xs: seq<T>, before: (T, T) -> bool) {
    forall i, j :: 0 <= i < j < |xs| ==> before(xs[i], xs[j])
  }

  /** Inserts `x` after everything that may stand before it. */
  function Insert<T>(xs: seq<T>, x: T, before: (T, T) -> bool): seq<T> {
    if xs == [] || before(xs[|xs| - 1], x) then xs + [x]
    else Insert(xs[..|xs| - 1], x, before) + [xs[|xs| - 1]]
  }

  /** The array's `sort`: stable, by comparator. */
  function Sort<T>(xs: seq<T>, before: (T, T) -> bool): seq<T> {
    if xs == [] then [] else Insert(Sort(xs[..|xs| - 1], before), xs[|xs| - 1], before)
  }

  lemma {:induction false} InsertPermutes<T>(xs: seq<T>, x: T, before: (T, T) -> bool)
    ensures multiset(Insert(xs, x, before)) == multiset(xs) + multiset{x}
  {
    if !(xs == [] || before(xs[|xs| - 1], x)) {
      InsertPermutes(xs[..|xs| - 1], x, before);
      assert xs == xs[..|xs| - 1] + [xs[|xs| - 1]];
    }
  }

  lemma {:induction false} InsertSorts<T(!new)>(xs: seq<T>, x: T, before: (T, T) -> bool)
    requires TotalPreorder(before) && SortedBy(xs, before)
    ensures SortedBy(Insert(xs, x, before), before)
  {
    if !(xs == [] || before(xs[|xs| - 1], x)) {
      var rest, last := xs[..|xs| - 1], xs[|xs| - 1];
      InsertSorts(rest, x, before);
      InsertPermutes(rest, x, before);
      var r := Insert(rest, x, before);
      forall i | 0 <= i < |r| ensures before(r[i], last) {
        assert r[i] in multiset(r);
        assert r[i] in multiset(rest) || r[i] == x;
      }
    }
  }

  lemma {:induction false} SortPermutes<T>(xs: seq<T>, before: (T, T) -> bool)
    ensures multiset(Sort(xs, before)) == multiset(xs)
    ensures |Sort(xs, before)| == |xs|
  {
    if xs != [] {
      SortPermutes(xs[..|xs| - 1], before);
      InsertPermutes(Sort(xs[..|xs| - 1], before), xs[|xs| - 1], before);
      assert xs == xs[..|xs| - 1] + [xs[|xs| - 1]];
    }
    assert |multiset(Sort(xs, before))| == |Sort(xs, before)| && |multiset(xs)| == |xs|;
  }

  lemma {:induction false} SortSorts<T(!new)>(xs: seq<T>, before: (T, T) -> bool)
    requires TotalPreorder(before)
    ensures SortedBy(Sort(xs, before), before)
  {
    if xs != [] {
      SortSorts(xs[..|xs| - 1], before);
      InsertSorts(Sort(xs[..|xs| - 1], before), xs[|xs| - 1], before);
    }
  }

  function Filter<T>(xs: seq<T>, keep: T -> bool): seq<T> {
    if xs == [] then [] else
      Filter(xs[..|xs| - 1], keep) + if keep(xs[|xs| - 1]) then [xs[|xs| - 1]] else []
  }

  lemma {:induction false} FilterMembers<T>(xs: seq<T>, keep: T -> bool)
    ensures forall x :: multiset(Filter(xs, keep))[x] == if keep(x) then multiset(xs)[x] else 0
    ensures forall x :: x in Filter(xs, keep) <==> x in xs && keep(x)
  {
    if xs != [] {
      FilterMembers(xs[..|xs| - 1], keep);
      assert xs == xs[..|xs| - 1] + [xs[|xs| - 1]];
    }
  }

  /** Filtering keeps the order: the kept elements stand at increasing positions, and every element that passes is kept. */
  lemma {:induction false} FilterPlaces<T>(xs: seq<T>, keep: T -> bool) returns (at: seq<int>)
    ensures |at| == |Filter(xs, keep)|
    ensures forall p :: 0 <= p < |at| ==> 0 <= at[p] < |xs| && Filter(xs, keep)[p] == xs[at[p]] && keep(xs[at[p]])
    ensures forall p, q :: 0 <= p < q < |at| ==> at[p] < at[q]
    ensures forall i :: 0 <= i < |xs| && keep(xs[i]) ==> i in at
  {
    at := [];
    if xs != [] {
      var last := |xs| - 1;
      FilterAppend(xs[..last], xs[last], keep);
      assert xs == xs[..last] + [xs[last]];
      hide Filter;
      var before := FilterPlaces(xs[..last], keep);
      at := before + if keep(xs[last]) then [last] else [];
      forall i | 0 <= i < |xs| && keep(xs[i]) ensures i in at {
        if i < last {
          assert xs[..last][i] == xs[i];
        }
      }
    }
  }

  /** Two elements stand at different places and are both kept. */
  ghost predicate KeepsTwo<T>(xs: seq<T>, keep: T -> bool) {
    exists i, j :: 0 <= i < j < |xs| && keep(xs[i]) && keep(xs[j])
  }

  lemma SeveralKept<T>(xs: seq<T>, keep: T -> bool)
    ensures |Filter(xs, keep)| > 1 <==> KeepsTwo(xs, keep)
  {
    hide Filter;
    var at := FilterPlaces(xs, keep);
    if |at| > 1 {
      assert keep(xs[at[0]]) && keep(xs[at[1]]);
    }
    if i, j :| 0 <= i < j < |xs| && keep(xs[i]) && keep(xs[j]) {
      assert i in at && j in at;
    }
  }

  /** Filtering twice is filtering by both. */
  lemma {:induction false} FilterFilter<T>(xs: seq<T>, first: T -> bool, second: T -> bool, both: T -> bool)
    requires forall x :: x in xs ==> (both(x) <==> first(x) && second(x))
    ensures Filter(Filter(xs, first), second) == Filter(xs, both)
  {
    if xs != [] {
      var rest, x := xs[..|xs| - 1], xs[|xs| - 1];
      FilterFilter(rest, first, second, both);
      assert xs == rest + [x];
      FilterAppend(rest, x, first);
      FilterAppend(rest, x, both);
      FilterAppend(Filter(rest, first), x, second);
      hide Filter;
      assert Filter(rest, first) + [] == Filter(rest, first);
      assert Filter(rest, both) + [] == Filter(rest, both);
    }
  }

  /** Elements that may stand on either side of `pivot`. */
  ghost function TiedWith<T>(before: (T, T) -> bool, pivot: T): T -> bool {
    (x: T) => before(x, pivot) && before(pivot, x)
  }

  lemma {:induction false} InsertStable<T(!new)>(xs: seq<T>, x: T, before: (T, T) -> bool, pivot: T)
    requires TotalPreorder(before)
    ensures Filter(Insert(xs, x, before), TiedWith(before, pivot)) == Filter(xs + [x], TiedWith(before, pivot))
  {
    var tied := TiedWith(before, pivot);
    if !(xs == [] || before(xs[|xs| - 1], x)) {
      var rest, last := xs[..|xs| - 1], xs[|xs| - 1];
      InsertStable(rest, x, before, pivot);
      assert xs == rest + [last];
      assert tied(last) && tied(x) ==> before(last, x);
      FilterAppend(rest, x, tied);
      FilterAppend(rest, last, tied);
      FilterAppend(xs, x, tied);
      FilterAppend(Insert(rest, x, before), last, tied);
      hide Filter, Insert, TiedWith, TotalPreorder;
      assert Filter(rest, tied) + [] == Filter(rest, tied);
    }
  }

  /** Elements that tie keep the order they came in. */
  lemma {:induction false} SortStable<T(!new)>(xs: seq<T>, before: (T, T) -> bool, pivot: T)
    requires TotalPreorder(before)
    ensures Filter(Sort(xs, before), TiedWith(before, pivot)) == Filter(xs, TiedWith(before, pivot))
  {
    if xs != [] {
      var rest, x := xs[..|xs| - 1], xs[|xs| - 1];
      SortStable(rest, before, pivot);
      InsertStable(Sort(rest, before), x, before, pivot);
      assert xs == rest + [x];
      FilterAppend(Sort(rest, before), x, TiedWith(before, pivot));
      FilterAppend(rest, x, TiedWith(before, pivot));
    }
  }

  lemma FilterAppend<T>(xs: seq<T>, x: T, keep: T -> bool)
    ensures Filter(xs + [x], keep) == Filter(xs, keep) + if keep(x) then [x] else []
  {
    assert (xs + [x])[..|xs|] == xs;
  }

  lemma {:induction false} FilterTwice<T>(xs: seq<T>, first: T -> bool, second: T -> bool, at: int)
    requires forall i :: 0 <= i < |xs| ==> (first(xs[i]) && second(xs[i]) <==> i == at)
    ensures Filter(Filter(xs, first), second) == if 0 <= at < |xs| then [xs[at]] else []
  {
    if xs != [] {
      var rest, x := xs[..|xs| - 1], xs[|xs| - 1];
      FilterTwice(rest, first, second, at);
      FilterTwiceAppend(rest, x, first, second);
      assert xs == rest + [x];
      assert first(x) && second(x) <==> at == |rest|;
      hide Filter;
    }
  }

  lemma FilterTwiceAppend<T>(xs: seq<T>, x: T, first: T -> bool, second: T -> bool)
    ensures Filter(Filter(xs + [x], first), second) ==
            Filter(Filter(xs, first), second) + if first(x) && second(x) then [x] else []
  {
    FilterAppend(xs, x, first);
    FilterAppend(Filter(xs, first), x, second);
    hide Filter;
    assert Filter(xs, first) + [] == Filter(xs, first);
  }

  /** The first `limit` elements. */
  function Take<T>(xs: seq<T>, limit: nat): seq<T> {
    if |xs| <= limit then xs else xs[..limit]
  }

  /** Filter, sort, cut: the shape of every ranking. */
  function Top<T>(xs: seq<T>, keep: T -> bool, before: (T, T) -> bool, limit: nat): seq<T> {
    Take(Sort(Filter(xs, keep), before), limit)
  }
}

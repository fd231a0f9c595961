/** Reachability in a finite directed graph given as a set of arcs. */
module Paths {

  ghost predicate IsPath<T(!new)>(arcs: set<(T, T)>, p: seq<T>) {
    && |p| > 0
    && forall i :: 0 <= i < |p| - 1 ==> (p[i], p[i + 1]) in arcs
  }

  ghost predicate PathFromTo<T(!new)>(arcs: set<(T, T)>, p: seq<T>, a: T, b: T) {
    IsPath(arcs, p) && p[0] == a && p[|p| - 1] == b
  }

  /** There is a path of zero or more arcs from `a` to `b`. */
  ghost predicate Reaches<T(!new)>(arcs: set<(T, T)>, a: T, b: T) {
    exists p: seq<T> :: PathFromTo(arcs, p, a, b)
  }

  /** There is a path of one or more arcs from `a` to `b`. */
  ghost predicate ReachesByCall<T(!new)>(arcs: set<(T, T)>, a: T, b: T) {
    exists m :: (a, m) in arcs && Reaches(arcs, m, b)
  }

  /** `a` and `b` lie on a common cycle, or are the same node. */
  ghost predicate Mutual<T(!new)>(arcs: set<(T, T)>, a: T, b: T) {
    Reaches(arcs, a, b) && Reaches(arcs, b, a)
  }

  lemma ReachesSelf<T(!new)>(arcs: set<(T, T)>, a: T)
    ensures Reaches(arcs, a, a)
  {
    assert PathFromTo(arcs, [a], a, a);
  }

  lemma ReachesArc<T(!new)>(arcs: set<(T, T)>, a: T, b: T)
    requires (a, b) in arcs
    ensures Reaches(arcs, a, b)
  {
    assert PathFromTo(arcs, [a, b], a, b);
  }

  lemma ReachesTransitive<T(!new)>(arcs: set<(T, T)>, a: T, b: T, c: T)
    requires Reaches(arcs, a, b) && Reaches(arcs, b, c)
    ensures Reaches(arcs, a, c)
  {
    var p :| PathFromTo(arcs, p, a, b);
    var q :| PathFromTo(arcs, q, b, c);
    var pq := p + q[1..];
    forall i | 0 <= i < |pq| - 1
      ensures (pq[i], pq[i + 1]) in arcs
    {
      if i >= |p| - 1 {
        assert pq[i] == q[i - (|p| - 1)] && pq[i + 1] == q[i + 1 - (|p| - 1)];
      }
    }
    assert PathFromTo(arcs, pq, a, c);
  }

  lemma PathTail<T(!new)>(arcs: set<(T, T)>, p: seq<T>)
    requires IsPath(arcs, p) && |p| > 1
    ensures IsPath(arcs, p[1..]) && (p[0], p[1]) in arcs
  {
    forall i | 0 <= i < |p[1..]| - 1
      ensures (p[1..][i], p[1..][i + 1]) in arcs
    {
      var j := i + 1;
      assert (p[j], p[j + 1]) in arcs;
    }
  }

  lemma PathInit<T(!new)>(arcs: set<(T, T)>, p: seq<T>)
    requires IsPath(arcs, p) && |p| > 1
    ensures IsPath(arcs, p[..|p| - 1]) && (p[|p| - 2], p[|p| - 1]) in arcs
  {
    var i := |p| - 2;
    assert (p[i], p[i + 1]) in arcs;
  }

  /** A set of nodes no arc leaves contains everything its members reach. */
  lemma {:induction false} ClosedSetKeepsPath<T(!new)>(arcs: set<(T, T)>, s: iset<T>, p: seq<T>)
    requires IsPath(arcs, p) && p[0] in s
    requires forall a, b :: (a, b) in arcs && a in s ==> b in s
    ensures p[|p| - 1] in s
  {
    if |p| > 1 {
      PathTail(arcs, p);
      ClosedSetKeepsPath(arcs, s, p[1..]);
    }
  }

  lemma ClosedSetKeepsReach<T(!new)>(arcs: set<(T, T)>, s: iset<T>, a: T, b: T)
    requires Reaches(arcs, a, b) && a in s
    requires forall x, y :: (x, y) in arcs && x in s ==> y in s
    ensures b in s
  {
    var p :| PathFromTo(arcs, p, a, b);
    ClosedSetKeepsPath(arcs, s, p);
  }

  /** A map that carries arcs to arcs carries reach to reach. */
  lemma ReachMap<S(!new), T(!new)>(arcs: set<(S, S)>, images: set<(T, T)>, f: S -> T, a: S, b: S)
    requires forall x, y :: (x, y) in arcs ==> (f(x), f(y)) in images
    requires Reaches(arcs, a, b)
    ensures Reaches(images, f(a), f(b))
  {
    var p :| PathFromTo(arcs, p, a, b);
    var q := seq(|p|, i requires 0 <= i < |p| => f(p[i]));
    assert PathFromTo(images, q, f(a), f(b));
  }

  /** The arcs of an adjacency list. */
  ghost function Arcs(g: seq<seq<nat>>): set<(nat, nat)> {
    set u, k | 0 <= u < |g| && 0 <= k < |g[u]| :: (u, g[u][k])
  }

  ghost predicate ValidGraph(g: seq<seq<nat>>) {
    forall u, k :: 0 <= u < |g| && 0 <= k < |g[u]| ==> g[u][k] < |g|
  }
}

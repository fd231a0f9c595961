/** Transitive caller counts of src/query/graph_query.ts (blastRadiusSizes, reachableCount). */
module BlastRadius {
  import opened Paths
  import opened CallGraph
  import opened CostFlow
  import opened CostOrder
  import opened StrongComponents

  /** Every decoded call, self-calls included. */
  ghost function CallArcs(edges: seq<CallEdge>): set<(string, string)> {
    set e | e in edges :: (e.fromId, e.toId)
  }

  ghost function Sources(arcs: set<(string, string)>): set<string> {
    set p | p in arcs :: p.0
  }

  /** Everything that reaches `b` by one or more calls. */
  ghost function Ancestors(arcs: set<(string, string)>, b: string): set<string> {
    set a | a in Sources(arcs) && ReachesByCall(arcs, a, b)
  }

  /** `callers` is the reverse adjacency of `arcs`. */
  ghost predicate ReverseOf(callers: map<string, seq<string>>, arcs: set<(string, string)>) {
    forall a, b :: (a, b) in arcs <==> b in callers && a in callers[b]
  }

  function CallersOf(callers: map<string, seq<string>>, id: string): seq<string> {
    if id in callers then callers[id] else []
  }

  lemma AncestorsByArc(arcs: set<(string, string)>, a: string, m: string, b: string)
    requires (a, m) in arcs && (m == b || m in Ancestors(arcs, b))
    ensures a in Ancestors(arcs, b)
  {
    assert a in Sources(arcs) by {
      assert (a, m) in arcs && (a, m).0 == a;
    }
    if m == b {
      ReachesSelf(arcs, b);
    } else {
      var n :| (m, n) in arcs && Reaches(arcs, n, b);
      ReachesArc(arcs, m, n);
      ReachesTransitive(arcs, m, n, b);
    }
  }

  /** A set closed under taking callers holds every caller chain that ends in it. */
  lemma {:induction false} ClosedUnderCallers(arcs: set<(string, string)>, s: set<string>, p: seq<string>)
    requires IsPath(arcs, p) && p[|p| - 1] in s
    requires forall a, b :: (a, b) in arcs && b in s ==> a in s
    ensures p[0] in s
  {
    if |p| > 1 {
      PathTail(arcs, p);
      ClosedUnderCallers(arcs, s, p[1..]);
    }
  }

  lemma ClosedVisitedIsAll(arcs: set<(string, string)>, visited: set<string>, start: string)
    requires forall a, b :: (a, b) in arcs && (b in visited || b == start) ==> a in visited
    ensures Ancestors(arcs, start) <= visited
  {
    forall a | a in Ancestors(arcs, start) ensures a in visited {
      var m :| (a, m) in arcs && Reaches(arcs, m, start);
      var p :| PathFromTo(arcs, p, m, start);
      ClosedUnderCallers(arcs, visited + {start}, p);
    }
  }

  /** Counts the distinct nodes other than `start` that reach it by one or more calls. */
  method ReachableCount(start: string, callers: map<string, seq<string>>, ghost arcs: set<(string, string)>) returns (count: nat)
    requires ReverseOf(callers, arcs)
    ensures count == |Ancestors(arcs, start) - {start}|
  {
    var visited: set<string> := {};
    var stack := CallersOf(callers, start);
    forall c | c in stack ensures c in Ancestors(arcs, start) {
      AncestorsByArc(arcs, c, start, start);
    }
    while |stack| > 0
      invariant visited <= Ancestors(arcs, start)
      invariant forall c :: c in stack ==> c in Ancestors(arcs, start)
      invariant forall a, b :: (a, b) in arcs && (b in visited || b == start) ==> a in visited || a in stack
      decreases Ancestors(arcs, start) - visited, |stack|
    {
      var id := stack[|stack| - 1];
      assert stack == stack[..|stack| - 1] + [id];
      stack := stack[..|stack| - 1];
      if id in visited {
        continue;
      }
      visited := visited + {id};
      ghost var before := stack;
      var more := CallersOf(callers, id);
      for i := 0 to |more|
        invariant forall c :: c in stack ==> c in Ancestors(arcs, start)
        invariant forall c :: c in before ==> c in stack
        invariant forall c :: c in more[..i] ==> c in visited || c in stack
      {
        var next := more[i];
        AncestorsByArc(arcs, next, id, start);
        if next !in visited {
          stack := stack + [next];
        }
      }
      assert more[..|more|] == more;
    }
    ClosedVisitedIsAll(arcs, visited, start);
    assert visited == Ancestors(arcs, start);
    visited := visited - {start};
    count := |visited|;
  }

  /** Reverse call adjacency. */
  method ReverseEdges(edges: seq<CallEdge>) returns (callers: map<string, seq<string>>)
    ensures ReverseOf(callers, CallArcs(edges))
  {
    callers := map[];
    for i := 0 to |edges|
      invariant ReverseOf(callers, CallArcs(edges[..i]))
    {
      var edge := edges[i];
      assert edges[..i + 1] == edges[..i] + [edge];
      assert forall a, b :: (a, b) in CallArcs(edges[..i + 1]) <==>
                            (a, b) in CallArcs(edges[..i]) || (a, b) == (edge.fromId, edge.toId);
      callers := callers[edge.toId := CallersOf(callers, edge.toId) + [edge.fromId]];
    }
    assert edges[..|edges|] == edges;
  }

  /** For every node, the number of other nodes that transitively call it. */
  method BlastRadiusSizes(nodes: seq<StoredNode>, edges: seq<CallEdge>) returns (sizes: map<string, nat>)
    ensures forall id :: id in sizes <==> Position(nodes, id) >= 0
    ensures forall id :: id in sizes ==> sizes[id] == |Ancestors(CallArcs(edges), id) - {id}|
  {
    var callers := ReverseEdges(edges);
    sizes := map[];
    for i := 0 to |nodes|
      invariant forall id :: id in sizes <==> Position(nodes[..i], id) >= 0
      invariant forall id :: id in sizes ==> sizes[id] == |Ancestors(CallArcs(edges), id) - {id}|
    {
      assert nodes[..i + 1][..i] == nodes[..i];
      var count := ReachableCount(nodes[i].id, callers, CallArcs(edges));
      sizes := sizes[nodes[i].id := count];
    }
    assert nodes[..|nodes|] == nodes;
  }

  // ---------- blast radius and call cycles ----------

  /** `b` together with everything that reaches it. */
  ghost function Upstream(arcs: set<(string, string)>, b: string): set<string> {
    Ancestors(arcs, b) + {b}
  }

  lemma UpstreamIsReach(arcs: set<(string, string)>, a: string, b: string)
    ensures a in Upstream(arcs, b) <==> Reaches(arcs, a, b)
  {
    if a in Ancestors(arcs, b) {
      var m :| (a, m) in arcs && Reaches(arcs, m, b);
      ReachesArc(arcs, a, m);
      ReachesTransitive(arcs, a, m, b);
    }
    ReachesSelf(arcs, b);
    if Reaches(arcs, a, b) && a != b {
      var p :| PathFromTo(arcs, p, a, b);
      PathTail(arcs, p);
      assert PathFromTo(arcs, p[1..], p[1], b);
      assert (a, p[1]).0 == a;
      assert ReachesByCall(arcs, a, b);
    }
  }

  lemma UpstreamGrows(arcs: set<(string, string)>, a: string, b: string)
    requires Reaches(arcs, a, b)
    ensures Upstream(arcs, a) <= Upstream(arcs, b)
  {
    forall x | x in Upstream(arcs, a) ensures x in Upstream(arcs, b) {
      UpstreamIsReach(arcs, x, a);
      ReachesTransitive(arcs, x, a, b);
      UpstreamIsReach(arcs, x, b);
    }
  }

  lemma RadiusIsUpstream(arcs: set<(string, string)>, b: string)
    ensures |Ancestors(arcs, b) - {b}| == |Upstream(arcs, b)| - 1
  {
    assert Upstream(arcs, b) == (Ancestors(arcs, b) - {b}) + {b};
  }

  lemma ProperSubsetIsSmaller<T>(s: set<T>, t: set<T>)
    requires s < t
    ensures |s| < |t|
  {
    var x :| x in t && x !in s;
    assert |s + {x}| == |s| + 1;
    SubsetIsNoLarger(s + {x}, t);
  }

  lemma SubsetIsNoLarger<T>(s: set<T>, t: set<T>)
    requires s <= t
    ensures |s| <= |t|
  {
    assert t == s + (t - s);
    assert |s + (t - s)| == |s| + |t - s|;
  }

  /** Nodes on a common cycle have the same blast radius; where `a` reaches `b` but not back, `b`'s is larger. */
  lemma RadiusFollowsReach(arcs: set<(string, string)>, a: string, b: string)
    requires Reaches(arcs, a, b)
    ensures if Reaches(arcs, b, a)
            then |Ancestors(arcs, a) - {a}| == |Ancestors(arcs, b) - {b}|
            else |Ancestors(arcs, a) - {a}| < |Ancestors(arcs, b) - {b}|
  {
    RadiusIsUpstream(arcs, a);
    RadiusIsUpstream(arcs, b);
    UpstreamGrows(arcs, a, b);
    if Reaches(arcs, b, a) {
      UpstreamGrows(arcs, b, a);
      assert Upstream(arcs, a) == Upstream(arcs, b);
    } else {
      UpstreamIsReach(arcs, b, a);
      ProperSubsetIsSmaller(Upstream(arcs, a), Upstream(arcs, b));
    }
  }

  /** Self-calls do not change who reaches whom. */
  lemma LiveReachIsReach(nodes: seq<StoredNode>, edges: seq<CallEdge>, a: string, b: string)
    requires forall e :: e in edges ==> Position(nodes, e.fromId) >= 0 && Position(nodes, e.toId) >= 0
    ensures Reaches(IdArcs(nodes, edges), a, b) <==> Reaches(CallArcs(edges), a, b)
  {
    var live, all := IdArcs(nodes, edges), CallArcs(edges);
    if Reaches(live, a, b) {
      var p :| PathFromTo(live, p, a, b);
      assert PathFromTo(all, p, a, b);
    }
    if Reaches(all, a, b) {
      var reached := iset x: string | Reaches(live, a, x);
      ReachesSelf(live, a);
      forall x, y | (x, y) in all && x in reached ensures y in reached {
        if x != y {
          var e :| e in edges && e.fromId == x && e.toId == y;
          assert Live(nodes, e);
          assert (x, y) in live;
          ReachesArc(live, x, y);
          ReachesTransitive(live, a, x, y);
        }
      }
      ClosedSetKeepsReach(all, reached, a, b);
    }
  }

  /**
   Blast radius respects the condensation the cost model is built on: equal within a component,
   strictly larger for the callee on every call between components.
   */
  lemma RadiusRespectsComponents(nodes: seq<StoredNode>, edges: seq<CallEdge>, net: Net, sizes: map<string, nat>, e: CallEdge, a: string, b: string)
    requires DistinctIds(nodes) && Numbering(Graph(nodes, edges), net.comp, net.count)
    requires forall x :: x in edges ==> Position(nodes, x.fromId) >= 0 && Position(nodes, x.toId) >= 0
    requires forall id :: id in sizes <==> Position(nodes, id) >= 0
    requires forall id :: id in sizes ==> sizes[id] == |Ancestors(CallArcs(edges), id) - {id}|
    requires a in sizes && b in sizes && e in edges
    ensures CompOfId(nodes, net, a) == CompOfId(nodes, net, b) ==> sizes[a] == sizes[b]
    ensures e.fromId in sizes && e.toId in sizes
    ensures CompOfId(nodes, net, e.fromId) != CompOfId(nodes, net, e.toId) ==> sizes[e.toId] > sizes[e.fromId]
  {
    var arcs := CallArcs(edges);
    SameNumberIffMutual(nodes, edges, net, a, b);
    LiveReachIsReach(nodes, edges, a, b);
    LiveReachIsReach(nodes, edges, b, a);
    if CompOfId(nodes, net, a) == CompOfId(nodes, net, b) {
      RadiusFollowsReach(arcs, a, b);
    }
    var c, d := e.fromId, e.toId;
    SameNumberIffMutual(nodes, edges, net, c, d);
    LiveReachIsReach(nodes, edges, d, c);
    LiveReachIsReach(nodes, edges, c, d);
    assert (c, d) in arcs;
    ReachesArc(arcs, c, d);
    RadiusFollowsReach(arcs, c, d);
  }
}

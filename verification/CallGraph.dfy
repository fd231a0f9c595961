/** Stored nodes and decoded call edges of src/query/graph_query.ts, and their index-based adjacency. */
module CallGraph {
  import opened Paths
  import opened Results
  import opened Sums
  import opened CostFlow

  /** The runtime metadata `enrich` records on a node; a field that is absent or not a number is None. */
  datatype Runtime = Runtime(selfMs: Option<real>, samples: Option<real>)

  datatype StoredNode = StoredNode(
    id: string, kind: string, name: string, filePath: string, startLine: int, runtime: Option<Runtime>)

  datatype CallEdge = CallEdge(fromId: string, toId: string, count: real)

  datatype CostMetric = SelfTime | Samples

  function RuntimeValue(node: StoredNode, metric: CostMetric): real {
    match node.runtime
    case None => 0.0
    case Some(runtime) =>
      match (if metric == SelfTime then runtime.selfMs else runtime.samples)
      case None => 0.0
      case Some(value) => value
  }

  predicate HasRuntime(node: StoredNode) {
    node.runtime.Some?
  }

  /** `id` is the primary key of the node table. */
  ghost predicate DistinctIds(nodes: seq<StoredNode>) {
    forall i, j :: 0 <= i < j < |nodes| ==> nodes[i].id != nodes[j].id
  }

  /** Where `id` was last listed, or -1. */
  function Position(nodes: seq<StoredNode>, id: string): (i: int)
    ensures -1 <= i < |nodes|
    ensures i >= 0 ==> nodes[i].id == id
    ensures i < 0 <==> forall j :: 0 <= j < |nodes| ==> nodes[j].id != id
  {
    if nodes == [] then -1
    else if nodes[|nodes| - 1].id == id then |nodes| - 1
    else Position(nodes[..|nodes| - 1], id)
  }

  lemma PositionOfNode(nodes: seq<StoredNode>, i: int)
    requires DistinctIds(nodes) && 0 <= i < |nodes|
    ensures Position(nodes, nodes[i].id) == i
  {
    var j := Position(nodes, nodes[i].id);
    assert nodes[i].id == nodes[i].id;
  }

  // ---------- live edges ----------

  /** The edge joins two known, different nodes. */
  predicate Live(nodes: seq<StoredNode>, e: CallEdge) {
    Position(nodes, e.fromId) >= 0 && Position(nodes, e.toId) >= 0
    && Position(nodes, e.fromId) != Position(nodes, e.toId)
  }

  function ArcOf(nodes: seq<StoredNode>, e: CallEdge): CallArc
    requires Live(nodes, e)
  {
    CallArc(Position(nodes, e.fromId), Position(nodes, e.toId), e.count)
  }

  /** The live edges, by node position, in reading order. */
  ghost function NetArcs(nodes: seq<StoredNode>, edges: seq<CallEdge>): seq<CallArc> {
    if edges == [] then [] else
      var e := edges[|edges| - 1];
      NetArcs(nodes, edges[..|edges| - 1]) + if Live(nodes, e) then [ArcOf(nodes, e)] else []
  }

  lemma {:induction false} NetArcsFromEdges(nodes: seq<StoredNode>, edges: seq<CallEdge>)
    ensures forall a :: a in NetArcs(nodes, edges) <==> exists e :: e in edges && Live(nodes, e) && ArcOf(nodes, e) == a
    ensures forall a :: a in NetArcs(nodes, edges) ==> a.from < |nodes| && a.to < |nodes| && a.from != a.to
  {
    if edges != [] {
      var e := edges[|edges| - 1];
      NetArcsFromEdges(nodes, edges[..|edges| - 1]);
      assert edges == edges[..|edges| - 1] + [e];
    }
  }

  /** Summing over the live arcs is summing over the edges, ignoring the dropped ones. */
  lemma {:induction false} SumNetArcs(nodes: seq<StoredNode>, edges: seq<CallEdge>, f: CallArc -> real, g: CallEdge -> real)
    requires forall e :: e in edges ==> g(e) == if Live(nodes, e) then f(ArcOf(nodes, e)) else 0.0
    ensures Sum(NetArcs(nodes, edges), f) == Sum(edges, g)
  {
    if edges != [] {
      var rest, e := edges[..|edges| - 1], edges[|edges| - 1];
      SumNetArcs(nodes, rest, f, g);
      if Live(nodes, e) {
        SumAppend(NetArcs(nodes, rest), ArcOf(nodes, e), f);
      } else {
        assert NetArcs(nodes, edges) == NetArcs(nodes, rest);
      }
    }
  }

  // ---------- adjacency ----------

  ghost function ArcsFrom(arcs: seq<CallArc>, u: int): seq<CallArc> {
    if arcs == [] then [] else
      ArcsFrom(arcs[..|arcs| - 1], u) + if arcs[|arcs| - 1].from == u then [arcs[|arcs| - 1]] else []
  }

  ghost function ArcsTo(arcs: seq<CallArc>, v: int): seq<CallArc> {
    if arcs == [] then [] else
      ArcsTo(arcs[..|arcs| - 1], v) + if arcs[|arcs| - 1].to == v then [arcs[|arcs| - 1]] else []
  }

  lemma ArcsAppend(arcs: seq<CallArc>, a: CallArc, v: int)
    ensures ArcsFrom(arcs + [a], v) == ArcsFrom(arcs, v) + if a.from == v then [a] else []
    ensures ArcsTo(arcs + [a], v) == ArcsTo(arcs, v) + if a.to == v then [a] else []
  {
    assert (arcs + [a])[..|arcs|] == arcs;
  }

  ghost function Targets(arcs: seq<CallArc>): seq<nat> {
    seq(|arcs|, i requires 0 <= i < |arcs| => arcs[i].to)
  }

  ghost function Successors(arcs: seq<CallArc>, n: nat): seq<seq<nat>> {
    seq(n, u => Targets(ArcsFrom(arcs, u)))
  }

  lemma {:induction false} ArcsFromMembers(arcs: seq<CallArc>, u: int)
    ensures forall a :: a in ArcsFrom(arcs, u) <==> a in arcs && a.from == u
  {
    if arcs != [] {
      ArcsFromMembers(arcs[..|arcs| - 1], u);
      assert arcs == arcs[..|arcs| - 1] + [arcs[|arcs| - 1]];
    }
  }

  lemma {:induction false} ArcsToMembers(arcs: seq<CallArc>, v: int)
    ensures forall a :: a in ArcsTo(arcs, v) <==> a in arcs && a.to == v
  {
    if arcs != [] {
      ArcsToMembers(arcs[..|arcs| - 1], v);
      assert arcs == arcs[..|arcs| - 1] + [arcs[|arcs| - 1]];
    }
  }

  lemma {:induction false} SumArcsFrom(arcs: seq<CallArc>, u: int, f: CallArc -> real, g: CallArc -> real)
    requires forall a :: a in arcs ==> g(a) == if a.from == u then f(a) else 0.0
    ensures Sum(ArcsFrom(arcs, u), f) == Sum(arcs, g)
  {
    if arcs != [] {
      var rest, a := arcs[..|arcs| - 1], arcs[|arcs| - 1];
      SumArcsFrom(rest, u, f, g);
      if a.from == u {
        SumAppend(ArcsFrom(rest, u), a, f);
      } else {
        assert ArcsFrom(arcs, u) == ArcsFrom(rest, u);
      }
    }
  }

  lemma {:induction false} SumArcsTo(arcs: seq<CallArc>, v: int, f: CallArc -> real, g: CallArc -> real)
    requires forall a :: a in arcs ==> g(a) == if a.to == v then f(a) else 0.0
    ensures Sum(ArcsTo(arcs, v), f) == Sum(arcs, g)
  {
    if arcs != [] {
      var rest, a := arcs[..|arcs| - 1], arcs[|arcs| - 1];
      SumArcsTo(rest, v, f, g);
      if a.to == v {
        SumAppend(ArcsTo(rest, v), a, f);
      } else {
        assert ArcsTo(arcs, v) == ArcsTo(rest, v);
      }
    }
  }

  lemma SuccessorArcs(arcs: seq<CallArc>, n: nat)
    requires forall a :: a in arcs ==> a.from < n && a.to < n
    ensures ValidGraph(Successors(arcs, n))
    ensures forall u: nat, v: nat :: (u, v) in Arcs(Successors(arcs, n)) <==> exists a :: a in arcs && a.from == u && a.to == v
  {
    var g := Successors(arcs, n);
    forall u, k | 0 <= u < n && 0 <= k < |g[u]|
      ensures exists a :: a in arcs && a.from == u && a.to == g[u][k]
    {
      ArcsFromMembers(arcs, u);
      var a := ArcsFrom(arcs, u)[k];
      assert a in ArcsFrom(arcs, u);
    }
    forall a | a in arcs
      ensures (a.from, a.to) in Arcs(g)
    {
      ArcsFromMembers(arcs, a.from);
      var k :| 0 <= k < |ArcsFrom(arcs, a.from)| && ArcsFrom(arcs, a.from)[k] == a;
      assert g[a.from][k] == a.to;
    }
  }

  // ---------- reach by id ----------

  ghost function IdArcs(nodes: seq<StoredNode>, edges: seq<CallEdge>): set<(string, string)> {
    set e | e in edges && Live(nodes, e) :: (e.fromId, e.toId)
  }

  ghost function Graph(nodes: seq<StoredNode>, edges: seq<CallEdge>): seq<seq<nat>> {
    Successors(NetArcs(nodes, edges), |nodes|)
  }

  ghost function IdAt(nodes: seq<StoredNode>): nat -> string {
    (v: nat) => if v < |nodes| then nodes[v].id else ""
  }

  ghost function PositionIn(nodes: seq<StoredNode>): string -> nat {
    (id: string) => if Position(nodes, id) >= 0 then Position(nodes, id) else 0
  }

  /** Arcs between positions are the live arcs between ids. */
  lemma ArcsById(nodes: seq<StoredNode>, edges: seq<CallEdge>)
    ensures forall x: nat, y: nat :: (x, y) in Arcs(Graph(nodes, edges)) ==>
              (IdAt(nodes)(x), IdAt(nodes)(y)) in IdArcs(nodes, edges)
    ensures forall a, b :: (a, b) in IdArcs(nodes, edges) ==>
              (PositionIn(nodes)(a), PositionIn(nodes)(b)) in Arcs(Graph(nodes, edges))
  {
    var arcs := NetArcs(nodes, edges);
    var g := Graph(nodes, edges);
    NetArcsFromEdges(nodes, edges);
    SuccessorArcs(arcs, |nodes|);
    hide NetArcs, Successors;
    forall x: nat, y: nat | (x, y) in Arcs(g)
      ensures (IdAt(nodes)(x), IdAt(nodes)(y)) in IdArcs(nodes, edges)
    {
      var a :| a in arcs && a.from == x && a.to == y;
      var e :| e in edges && Live(nodes, e) && ArcOf(nodes, e) == a;
    }
    forall x, y | (x, y) in IdArcs(nodes, edges)
      ensures (PositionIn(nodes)(x), PositionIn(nodes)(y)) in Arcs(g)
    {
      var e :| e in edges && Live(nodes, e) && e.fromId == x && e.toId == y;
      assert ArcOf(nodes, e) in arcs;
    }
  }

  /** Reach between positions is reach between ids. */
  lemma ReachById(nodes: seq<StoredNode>, edges: seq<CallEdge>, u: nat, v: nat)
    requires DistinctIds(nodes) && u < |nodes| && v < |nodes|
    ensures Reaches(Arcs(Graph(nodes, edges)), u, v) <==> Reaches(IdArcs(nodes, edges), nodes[u].id, nodes[v].id)
  {
    ArcsById(nodes, edges);
    PositionOfNode(nodes, u);
    PositionOfNode(nodes, v);
    var g := Arcs(Graph(nodes, edges));
    hide Reaches, Graph, IdArcs;
    if Reaches(g, u, v) {
      ReachMap(g, IdArcs(nodes, edges), IdAt(nodes), u, v);
    }
    if Reaches(IdArcs(nodes, edges), nodes[u].id, nodes[v].id) {
      ReachMap(IdArcs(nodes, edges), g, PositionIn(nodes), nodes[u].id, nodes[v].id);
    }
  }

  // ---------- the indexing loops ----------

  method IndexNodes(nodes: seq<StoredNode>) returns (indexOf: map<string, nat>)
    ensures forall id :: (id in indexOf <==> Position(nodes, id) >= 0) && (id in indexOf ==> indexOf[id] == Position(nodes, id))
  {
    indexOf := map[];
    for i := 0 to |nodes|
      invariant forall id :: id in indexOf <==> Position(nodes[..i], id) >= 0
      invariant forall id :: id in indexOf ==> indexOf[id] == Position(nodes[..i], id)
    {
      assert nodes[..i + 1][..i] == nodes[..i];
      indexOf := indexOf[nodes[i].id := i];
    }
    assert nodes[..|nodes|] == nodes;
  }

  /** The three adjacency lists hold `arcs`, in order. */
  ghost predicate Adjacent(successors: seq<seq<nat>>, outEdges: seq<seq<CallArc>>, inEdges: seq<seq<CallArc>>, arcs: seq<CallArc>) {
    && |successors| == |outEdges| == |inEdges|
    && (forall u :: 0 <= u < |outEdges| ==> outEdges[u] == ArcsFrom(arcs, u))
    && (forall v :: 0 <= v < |inEdges| ==> inEdges[v] == ArcsTo(arcs, v))
    && (forall u :: 0 <= u < |successors| ==> successors[u] == Targets(ArcsFrom(arcs, u)))
  }

  lemma AdjacentStep(successors: seq<seq<nat>>, outEdges: seq<seq<CallArc>>, inEdges: seq<seq<CallArc>>, arcs: seq<CallArc>, a: CallArc)
    requires Adjacent(successors, outEdges, inEdges, arcs) && a.from < |successors| && a.to < |successors|
    ensures Adjacent(successors[a.from := successors[a.from] + [a.to]], outEdges[a.from := outEdges[a.from] + [a]],
                     inEdges[a.to := inEdges[a.to] + [a]], arcs + [a])
  {
    hide ArcsFrom, ArcsTo;
    forall v
      ensures ArcsFrom(arcs + [a], v) == ArcsFrom(arcs, v) + if a.from == v then [a] else []
      ensures ArcsTo(arcs + [a], v) == ArcsTo(arcs, v) + if a.to == v then [a] else []
    {
      ArcsAppend(arcs, a, v);
    }
    assert Targets(ArcsFrom(arcs, a.from) + [a]) == Targets(ArcsFrom(arcs, a.from)) + [a.to];
  }

  lemma NetArcsStep(nodes: seq<StoredNode>, edges: seq<CallEdge>, i: nat)
    requires i < |edges|
    ensures NetArcs(nodes, edges[..i + 1]) == NetArcs(nodes, edges[..i]) + if Live(nodes, edges[i]) then [ArcOf(nodes, edges[i])] else []
  {
    assert edges[..i + 1][..i] == edges[..i];
  }

  /** Enters one arc into the three lists. */
  method AddArc(next: array<seq<nat>>, outs: array<seq<CallArc>>, ins: array<seq<CallArc>>, a: CallArc, ghost arcs: seq<CallArc>)
    requires outs != ins && Adjacent(next[..], outs[..], ins[..], arcs) && a.from < next.Length && a.to < next.Length
    modifies next, outs, ins
    ensures Adjacent(next[..], outs[..], ins[..], arcs + [a])
  {
    AdjacentStep(next[..], outs[..], ins[..], arcs, a);
    hide ArcsFrom, ArcsTo, Targets;
    next[a.from] := next[a.from] + [a.to];
    outs[a.from] := outs[a.from] + [a];
    ins[a.to] := ins[a.to] + [a];
  }

  /** Successor, outgoing and incoming lists over positions, self-edges and unknown endpoints dropped. */
  method BuildAdjacency(nodes: seq<StoredNode>, edges: seq<CallEdge>)
    returns (successors: seq<seq<nat>>, outEdges: seq<seq<CallArc>>, inEdges: seq<seq<CallArc>>)
    ensures successors == Graph(nodes, edges)
    ensures |outEdges| == |inEdges| == |nodes|
    ensures forall u :: 0 <= u < |nodes| ==> outEdges[u] == ArcsFrom(NetArcs(nodes, edges), u)
    ensures forall v :: 0 <= v < |nodes| ==> inEdges[v] == ArcsTo(NetArcs(nodes, edges), v)
  {
    var n := |nodes|;
    var indexOf := IndexNodes(nodes);
    var next := new seq<nat>[n](_ => []);
    var outs := new seq<CallArc>[n](_ => []);
    var ins := new seq<CallArc>[n](_ => []);
    for i := 0 to |edges|
      invariant Adjacent(next[..], outs[..], ins[..], NetArcs(nodes, edges[..i]))
    {
      hide Adjacent, NetArcs;
      var edge := edges[i];
      NetArcsStep(nodes, edges, i);
      hide Position;
      if edge.fromId !in indexOf || edge.toId !in indexOf || indexOf[edge.fromId] == indexOf[edge.toId] {
        assert NetArcs(nodes, edges[..i + 1]) == NetArcs(nodes, edges[..i]);
        continue;
      }
      var from, to := indexOf[edge.fromId], indexOf[edge.toId];
      var arc := CallArc(from, to, edge.count);
      AddArc(next, outs, ins, arc, NetArcs(nodes, edges[..i]));
    }
    assert edges[..|edges|] == edges;
    successors, outEdges, inEdges := next[..], outs[..], ins[..];
    assert successors == Graph(nodes, edges);
  }
}

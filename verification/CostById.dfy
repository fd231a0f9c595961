/** What a computed cost model says, by node id and in terms of the stored nodes and call edges alone. */
module CostById {
  import opened Paths
  import opened Sums
  import opened CostFlow
  import opened CallGraph
  import opened CostModel
  import opened CostOrder
  import opened StrongComponents
  import opened Ranking

  ghost predicate KnownId(nodes: seq<StoredNode>, id: string) {
    exists i :: 0 <= i < |nodes| && nodes[i].id == id
  }

  /** The calls between known nodes, self-calls included. */
  ghost function KnownCalls(nodes: seq<StoredNode>, edges: seq<CallEdge>): set<(string, string)> {
    set e | e in edges && KnownId(nodes, e.fromId) && KnownId(nodes, e.toId) :: (e.fromId, e.toId)
  }

  /** `a` and `b` call each other transitively, or are the same. */
  ghost predicate SameCycle(nodes: seq<StoredNode>, edges: seq<CallEdge>, a: string, b: string) {
    Mutual(KnownCalls(nodes, edges), a, b)
  }

  /** The recorded number of the metric, 0 where there is none. */
  ghost function Measured(metric: CostMetric): StoredNode -> real {
    (node: StoredNode) =>
      if node.runtime.None? then 0.0
      else
        match metric
        case SelfTime => (if node.runtime.value.selfMs.Some? then node.runtime.value.selfMs.value else 0.0)
        case Samples => (if node.runtime.value.samples.Some? then node.runtime.value.samples.value else 0.0)
  }

  lemma MeasuredIs(node: StoredNode, metric: CostMetric)
    ensures RuntimeValue(node, metric) == Measured(metric)(node)
  {
  }

  lemma KnownIsPosition(nodes: seq<StoredNode>, id: string)
    ensures KnownId(nodes, id) <==> Position(nodes, id) >= 0
  {
    if Position(nodes, id) >= 0 {
      assert nodes[Position(nodes, id)].id == id;
    }
  }

  lemma IndexOfKnown(nodes: seq<StoredNode>, id: string) returns (u: int)
    requires KnownId(nodes, id)
    ensures 0 <= u < |nodes| && nodes[u].id == id
  {
    u :| 0 <= u < |nodes| && nodes[u].id == id;
  }

  lemma NodeIsKnown(nodes: seq<StoredNode>, u: int)
    requires 0 <= u < |nodes|
    ensures KnownId(nodes, nodes[u].id)
  {
  }

  lemma LiveIsKnown(nodes: seq<StoredNode>, e: CallEdge)
    ensures Live(nodes, e) <==> KnownId(nodes, e.fromId) && KnownId(nodes, e.toId) && e.fromId != e.toId
  {
    KnownIsPosition(nodes, e.fromId);
    KnownIsPosition(nodes, e.toId);
  }

  /** Dropping self-calls changes no reach. */
  lemma KnownReach(nodes: seq<StoredNode>, edges: seq<CallEdge>, a: string, b: string)
    ensures Reaches(IdArcs(nodes, edges), a, b) <==> Reaches(KnownCalls(nodes, edges), a, b)
  {
    var live, all := IdArcs(nodes, edges), KnownCalls(nodes, edges);
    forall e ensures Live(nodes, e) <==> KnownId(nodes, e.fromId) && KnownId(nodes, e.toId) && e.fromId != e.toId {
      LiveIsKnown(nodes, e);
    }
    assert forall x, y :: (x, y) in live <==> (x, y) in all && x != y;
    hide IdArcs, KnownCalls;
    if Reaches(live, a, b) {
      var p :| PathFromTo(live, p, a, b);
      assert PathFromTo(all, p, a, b);
    }
    if Reaches(all, a, b) {
      var reached := iset x: string | Reaches(live, a, x);
      ReachesSelf(live, a);
      forall x, y | (x, y) in all && x in reached ensures y in reached {
        if x != y {
          ReachesArc(live, x, y);
          ReachesTransitive(live, a, x, y);
        }
      }
      ClosedSetKeepsReach(all, reached, a, b);
    }
  }

  lemma SameNumberIffSameCycle(nodes: seq<StoredNode>, edges: seq<CallEdge>, net: Net, a: string, b: string)
    requires DistinctIds(nodes) && Numbering(Graph(nodes, edges), net.comp, net.count) && KnownId(nodes, a) && KnownId(nodes, b)
    ensures CompOfId(nodes, net, a) == CompOfId(nodes, net, b) <==> SameCycle(nodes, edges, a, b)
  {
    hide Numbering, Graph, CompOfId;
    KnownIsPosition(nodes, a);
    KnownIsPosition(nodes, b);
    SameNumberIffMutual(nodes, edges, net, a, b);
    KnownReach(nodes, edges, a, b);
    KnownReach(nodes, edges, b, a);
  }

  // ---------- the call lists ----------

  /** A call of `id` to another known node. */
  ghost function CallsOutOf(nodes: seq<StoredNode>, id: string): CallEdge -> bool {
    (e: CallEdge) => e.fromId == id && e.toId != id && KnownId(nodes, e.toId)
  }

  /** A call to `id` from another known node. */
  ghost function CallsInto(nodes: seq<StoredNode>, id: string): CallEdge -> bool {
    (e: CallEdge) => e.toId == id && e.fromId != id && KnownId(nodes, e.fromId)
  }

  lemma EdgeOfArc(nodes: seq<StoredNode>, e: CallEdge)
    requires Live(nodes, e)
    ensures EdgeAt(nodes, ArcOf(nodes, e)) == e
  {
  }

  lemma EdgesAtAppend(nodes: seq<StoredNode>, arcs: seq<CallArc>, a: CallArc)
    ensures EdgesAt(nodes, arcs + [a]) == EdgesAt(nodes, arcs) + [EdgeAt(nodes, a)]
  {
  }

  /** Which of a node's lists a live edge belongs on, by position and by id. */
  lemma ListsOf(nodes: seq<StoredNode>, e: CallEdge, u: int)
    requires DistinctIds(nodes) && 0 <= u < |nodes|
    ensures Live(nodes, e) && ArcOf(nodes, e).from == u <==> CallsOutOf(nodes, nodes[u].id)(e)
    ensures Live(nodes, e) && ArcOf(nodes, e).to == u <==> CallsInto(nodes, nodes[u].id)(e)
  {
    LiveIsKnown(nodes, e);
    PositionOfNode(nodes, u);
    assert KnownId(nodes, nodes[u].id);
  }

  lemma {:induction false} ListsById(nodes: seq<StoredNode>, edges: seq<CallEdge>, u: int)
    requires DistinctIds(nodes) && 0 <= u < |nodes|
    ensures EdgesAt(nodes, ArcsFrom(NetArcs(nodes, edges), u)) == Filter(edges, CallsOutOf(nodes, nodes[u].id))
    ensures EdgesAt(nodes, ArcsTo(NetArcs(nodes, edges), u)) == Filter(edges, CallsInto(nodes, nodes[u].id))
  {
    if edges != [] {
      var rest, e := edges[..|edges| - 1], edges[|edges| - 1];
      ListsById(nodes, rest, u);
      ListsOf(nodes, e, u);
      var arcs := NetArcs(nodes, rest);
      if Live(nodes, e) {
        var a := ArcOf(nodes, e);
        EdgeOfArc(nodes, e);
        ArcsAppend(arcs, a, u);
        EdgesAtAppend(nodes, ArcsFrom(arcs, u), a);
        EdgesAtAppend(nodes, ArcsTo(arcs, u), a);
        assert NetArcs(nodes, edges) == arcs + [a];
        hide ArcsFrom, ArcsTo, NetArcs, EdgesAt, Live, CallsOutOf, CallsInto;
        assert ArcsFrom(arcs, u) + [] == ArcsFrom(arcs, u) && ArcsTo(arcs, u) + [] == ArcsTo(arcs, u);
      } else {
        assert NetArcs(nodes, edges) == arcs;
        hide ArcsFrom, ArcsTo, NetArcs, EdgesAt, Live, CallsOutOf, CallsInto;
      }
    }
  }

  /** A node's call lists are exactly its calls to and from other known nodes, each with its own count, in reading order. */
  lemma CallListsById(nodes: seq<StoredNode>, edges: seq<CallEdge>, metric: CostMetric, m: Model, id: string)
    requires DistinctIds(nodes) && Explained(nodes, edges, metric, m) && KnownId(nodes, id)
    ensures id in m.outEdges && m.outEdges[id] == Filter(edges, CallsOutOf(nodes, id))
    ensures id in m.inEdges && m.inEdges[id] == Filter(edges, CallsInto(nodes, id))
  {
    var net, inc :| Explains(nodes, edges, metric, net, inc, m);
    var u :| 0 <= u < |nodes| && nodes[u].id == id;
    assert net.arcs == NetArcs(nodes, edges);
    hide Explains;
    ModelEdgesAt(nodes, edges, metric, net, inc, m, u);
    ListsById(nodes, edges, u);
    hide *;
  }

  // ---------- cycles, self costs and inbound weights ----------

  /** Weight of the calls into `id` from known nodes it does not share a cycle with. */
  ghost function WeightInto(nodes: seq<StoredNode>, edges: seq<CallEdge>, id: string): CallEdge -> real {
    (e: CallEdge) =>
      if e.toId == id && KnownId(nodes, e.fromId) && !SameCycle(nodes, edges, e.fromId, id) then e.count else 0.0
  }

  lemma InboundTermById(nodes: seq<StoredNode>, edges: seq<CallEdge>, net: Net, u: int, e: CallEdge)
    requires DistinctIds(nodes) && Numbering(Graph(nodes, edges), net.comp, net.count) && 0 <= u < |nodes|
    ensures WeightInto(nodes, edges, nodes[u].id)(e) == if Live(nodes, e) then net.InboundTerm(u)(ArcOf(nodes, e)) else 0.0
  {
    var id := nodes[u].id;
    LiveIsKnown(nodes, e);
    PositionOfNode(nodes, u);
    assert KnownId(nodes, id);
    ReachesSelf(KnownCalls(nodes, edges), id);
    if Live(nodes, e) {
      SameNumberIffSameCycle(nodes, edges, net, e.fromId, e.toId);
    }
    hide Numbering, Graph, KnownId, Position, KnownCalls, Reaches;
  }

  lemma InboundIs(nodes: seq<StoredNode>, edges: seq<CallEdge>, net: Net, u: int)
    requires DistinctIds(nodes) && Numbering(Graph(nodes, edges), net.comp, net.count) && 0 <= u < |nodes|
    requires net.arcs == NetArcs(nodes, edges)
    ensures net.Inbound(u) == Sum(edges, WeightInto(nodes, edges, nodes[u].id))
  {
    assert net.Inbound(u) == Sum(net.arcs, net.InboundTerm(u));
    hide *;
    var weight := WeightInto(nodes, edges, nodes[u].id);
    forall e | e in edges ensures weight(e) == if Live(nodes, e) then net.InboundTerm(u)(ArcOf(nodes, e)) else 0.0 {
      InboundTermById(nodes, edges, net, u, e);
    }
    SumNetArcs(nodes, edges, net.InboundTerm(u), weight);
  }

  lemma TotalIs(nodes: seq<StoredNode>, metric: CostMetric, net: Net)
    requires |net.self| == |nodes| && forall i :: 0 <= i < |nodes| ==> net.Self(i) == RuntimeValue(nodes[i], metric)
    ensures net.Total() == Sum(nodes, Measured(metric))
  {
    forall i | 0 <= i < |nodes| ensures net.Selfs()(i) == Measured(metric)(nodes[i]) {
    }
    hide Net.Self, Measured, RuntimeValue;
    SumByIndex(nodes, |nodes|, Measured(metric), net.Selfs());
    assert nodes[..|nodes|] == nodes;
  }

  /** The net behind a model. */
  lemma NetBehind(nodes: seq<StoredNode>, edges: seq<CallEdge>, metric: CostMetric, m: Model) returns (net: Net, inc: seq<real>)
    requires Explained(nodes, edges, metric, m)
    ensures Explains(nodes, edges, metric, net, inc, m)
    ensures net.arcs == NetArcs(nodes, edges) && Numbering(Graph(nodes, edges), net.comp, net.count)
  {
    net, inc :| Explains(nodes, edges, metric, net, inc, m);
    hide NetArcs, Numbering, Graph, Recorded, Net.FlowEquations;
  }

  /** What the model records of a known node: its own measurement, and its inbound weight from outside its cycle. */
  lemma WeightsById(nodes: seq<StoredNode>, edges: seq<CallEdge>, metric: CostMetric, m: Model, u: int)
    requires DistinctIds(nodes) && Explained(nodes, edges, metric, m) && 0 <= u < |nodes|
    ensures var id := nodes[u].id;
            && id in m.selfCost && m.selfCost[id] == Measured(metric)(nodes[u])
            && id in m.externalInbound && m.externalInbound[id] == Sum(edges, WeightInto(nodes, edges, id))
    ensures m.totalSelf == Sum(nodes, Measured(metric))
  {
    hide Explains, Explained, Numbering, Graph, NetArcs, Position, WeightInto, Sum, Net.Inbound, Net.Total, Net.Condensed, Net.FlowEquations;
    var net, inc := NetBehind(nodes, edges, metric, m);
    PositionOfNode(nodes, u);
    ModelAt(nodes, edges, metric, net, inc, m, nodes[u].id);
    InboundIs(nodes, edges, net, u);
    NetFacts(nodes, edges, metric, net, inc, m);
    TotalIs(nodes, metric, net);
  }

  /** Two ids carry one component number exactly when they share a cycle, and a cycle's size counts its nodes. */
  lemma CyclesById(nodes: seq<StoredNode>, edges: seq<CallEdge>, metric: CostMetric, m: Model, u: int, v: int)
    requires DistinctIds(nodes) && Explained(nodes, edges, metric, m) && 0 <= u < |nodes| && 0 <= v < |nodes|
    ensures nodes[u].id in m.componentOf && nodes[v].id in m.componentOf && nodes[u].id in m.cycleSize
    ensures m.componentOf[nodes[u].id] == m.componentOf[nodes[v].id] <==> SameCycle(nodes, edges, nodes[u].id, nodes[v].id)
    ensures m.cycleSize[nodes[u].id] as real == Sum(nodes, OneTogether(nodes, edges, nodes[u].id))
  {
    hide Explains, Explained, Numbering, Graph, NetArcs, Position, Sum, Net.Condensed, Net.FlowEquations, CompOfId, MembersBelow;
    var net, inc := NetBehind(nodes, edges, metric, m);
    PositionOfNode(nodes, u);
    PositionOfNode(nodes, v);
    ModelAt(nodes, edges, metric, net, inc, m, nodes[u].id);
    ModelAt(nodes, edges, metric, net, inc, m, nodes[v].id);
    SameNumberIffSameCycle(nodes, edges, net, nodes[u].id, nodes[v].id);
    NetFacts(nodes, edges, metric, net, inc, m);
    SizeById(nodes, net, CompOfId(nodes, net, nodes[u].id));
    CountsTogether(nodes, edges, net, nodes[u].id);
  }

  /** One for every node on a cycle with `id`, itself included. */
  ghost function OneTogether(nodes: seq<StoredNode>, edges: seq<CallEdge>, id: string): StoredNode -> real {
    (node: StoredNode) => if SameCycle(nodes, edges, node.id, id) then 1.0 else 0.0
  }

  lemma CountsTogether(nodes: seq<StoredNode>, edges: seq<CallEdge>, net: Net, id: string)
    requires DistinctIds(nodes) && Numbering(Graph(nodes, edges), net.comp, net.count) && KnownId(nodes, id)
    ensures Sum(nodes, CountTermById(nodes, net, CompOfId(nodes, net, id))) == Sum(nodes, OneTogether(nodes, edges, id))
  {
    hide Numbering, Graph, CompOfId, SameCycle, Sum;
    var f, g := CountTermById(nodes, net, CompOfId(nodes, net, id)), OneTogether(nodes, edges, id);
    forall node | node in nodes ensures f(node) == g(node) {
      SameNumberIffSameCycle(nodes, edges, net, node.id, id);
    }
    SumCongruent(nodes, f, g);
  }

  // ---------- inclusive cost ----------

  /** Measurements of the nodes on a cycle with `id`, itself included. */
  ghost function MeasuredTogether(nodes: seq<StoredNode>, edges: seq<CallEdge>, metric: CostMetric, id: string): StoredNode -> real {
    (node: StoredNode) => if SameCycle(nodes, edges, node.id, id) then Measured(metric)(node) else 0.0
  }

  /** The callee's inclusive cost over a call out of `id`'s cycle, in proportion to the call's count among all its inbound weight. */
  ghost function BroughtIn(nodes: seq<StoredNode>, edges: seq<CallEdge>, m: Model, id: string): CallEdge -> real {
    (e: CallEdge) =>
      if && KnownId(nodes, e.fromId) && KnownId(nodes, e.toId)
         && SameCycle(nodes, edges, e.fromId, id) && !SameCycle(nodes, edges, e.toId, id)
         && Get(m.externalInbound, e.toId, 0.0) > 0.0
      then Get(m.inclusiveCost, e.toId, 0.0) * e.count / Get(m.externalInbound, e.toId, 0.0)
      else 0.0
  }

  lemma SelfTogether(nodes: seq<StoredNode>, edges: seq<CallEdge>, metric: CostMetric, net: Net, id: string)
    requires DistinctIds(nodes) && Numbering(Graph(nodes, edges), net.comp, net.count) && KnownId(nodes, id)
    requires net == NetOf(nodes, edges, metric, net.comp, net.count)
    ensures net.SelfIn(CompOfId(nodes, net, id)) == Sum(nodes, MeasuredTogether(nodes, edges, metric, id))
  {
    SelfInById(nodes, edges, net, metric, CompOfId(nodes, net, id));
    hide Numbering, Graph, CompOfId, SameCycle, Sum, NetOf, Net.SelfIn;
    var f, g := SelfTermById(nodes, net, metric, CompOfId(nodes, net, id)), MeasuredTogether(nodes, edges, metric, id);
    forall node | node in nodes ensures f(node) == g(node) {
      SameNumberIffSameCycle(nodes, edges, net, node.id, id);
      MeasuredIs(node, metric);
    }
    SumCongruent(nodes, f, g);
  }

  lemma BroughtInIs(nodes: seq<StoredNode>, edges: seq<CallEdge>, metric: CostMetric, net: Net, inc: seq<real>, m: Model, id: string, e: CallEdge)
    requires DistinctIds(nodes) && Explains(nodes, edges, metric, net, inc, m) && KnownId(nodes, id)
    requires Numbering(Graph(nodes, edges), net.comp, net.count)
    ensures var term := InGroup(net.CallerComp(), net.Amounts(inc), CompOfId(nodes, net, id));
            BroughtIn(nodes, edges, m, id)(e) == if Live(nodes, e) then term(ArcOf(nodes, e)) else 0.0
  {
    LiveIsKnown(nodes, e);
    hide Explains, Numbering, Graph, SameCycle, KnownId, Position, Net.Inbound, Net.Cost;
    if Live(nodes, e) {
      SameNumberIffSameCycle(nodes, edges, net, e.fromId, id);
      SameNumberIffSameCycle(nodes, edges, net, e.toId, id);
      ModelAt(nodes, edges, metric, net, inc, m, e.toId);
    }
  }

  /**
   The documented recurrence, on ids: a node's inclusive cost is what was measured on its cycle plus,
   for every call out of the cycle, the callee's inclusive cost times the call's count over all weight
   that enters the callee from outside its own cycle.
   */
  lemma InclusiveById(nodes: seq<StoredNode>, edges: seq<CallEdge>, metric: CostMetric, m: Model, id: string)
    requires DistinctIds(nodes) && Explained(nodes, edges, metric, m) && KnownId(nodes, id)
    ensures id in m.inclusiveCost
    ensures m.inclusiveCost[id] == Sum(nodes, MeasuredTogether(nodes, edges, metric, id)) + Sum(edges, BroughtIn(nodes, edges, m, id))
  {
    hide Explained, Numbering, Graph, NetArcs, Position, Sum, Recorded, NetOf, SameCycle, KnownId, Keyed, MembersBelow;
    var net, inc := NetBehind(nodes, edges, metric, m);
    KnownIsPosition(nodes, id);
    ModelAt(nodes, edges, metric, net, inc, m, id);
    assert net == NetOf(nodes, edges, metric, net.comp, net.count);
    SelfTogether(nodes, edges, metric, net, id);
    FlowTogether(nodes, edges, metric, net, inc, m, id);
    NetFacts(nodes, edges, metric, net, inc, m);
    assert 0 <= CompOfId(nodes, net, id) < net.count;
    hide Explains;
  }

  lemma FlowTogether(nodes: seq<StoredNode>, edges: seq<CallEdge>, metric: CostMetric, net: Net, inc: seq<real>, m: Model, id: string)
    requires DistinctIds(nodes) && Explains(nodes, edges, metric, net, inc, m) && KnownId(nodes, id)
    requires net.arcs == NetArcs(nodes, edges) && Numbering(Graph(nodes, edges), net.comp, net.count)
    ensures net.FlowInto(inc, CompOfId(nodes, net, id)) == Sum(edges, BroughtIn(nodes, edges, m, id))
  {
    var term, brought := InGroup(net.CallerComp(), net.Amounts(inc), CompOfId(nodes, net, id)), BroughtIn(nodes, edges, m, id);
    assert net.FlowInto(inc, CompOfId(nodes, net, id)) == Sum(net.arcs, term) by {
      hide Explains, Numbering, Graph, NetArcs, BroughtIn, Sum;
    }
    hide *;
    forall e | e in edges ensures brought(e) == if Live(nodes, e) then term(ArcOf(nodes, e)) else 0.0 {
      BroughtInIs(nodes, edges, metric, net, inc, m, id, e);
    }
    SumNetArcs(nodes, edges, term, brought);
  }
}

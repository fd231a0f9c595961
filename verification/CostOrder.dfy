/** The cost model does not depend on the order in which nodes and edges are read. */
module CostOrder {
  import opened Paths
  import opened Sums
  import opened CostFlow
  import opened CallGraph
  import opened StrongComponents
  import opened CostModel

  /** Component number of a node id, -1 when unknown. */
  ghost function CompOfId(nodes: seq<StoredNode>, net: Net, id: string): int {
    net.Comp(Position(nodes, id))
  }

  /** Nodes with the same number are exactly those on a common call cycle, told by id. */
  lemma SameNumberIffMutual(nodes: seq<StoredNode>, edges: seq<CallEdge>, net: Net, a: string, b: string)
    requires DistinctIds(nodes) && Numbering(Graph(nodes, edges), net.comp, net.count)
    requires Position(nodes, a) >= 0 && Position(nodes, b) >= 0
    ensures CompOfId(nodes, net, a) == CompOfId(nodes, net, b) <==> Mutual(IdArcs(nodes, edges), a, b)
  {
    var u, v := Position(nodes, a), Position(nodes, b);
    ReachById(nodes, edges, u, v);
    ReachById(nodes, edges, v, u);
  }

  // ---------- two readings of one graph ----------

  /** Two readings of the same nodes and edges, each with its own numbering. */
  ghost predicate Twins(nodes1: seq<StoredNode>, edges1: seq<CallEdge>, net1: Net,
                        nodes2: seq<StoredNode>, edges2: seq<CallEdge>, net2: Net, metric: CostMetric)
  {
    && DistinctIds(nodes1) && DistinctIds(nodes2)
    && multiset(nodes1) == multiset(nodes2) && multiset(edges1) == multiset(edges2)
    && net1 == NetOf(nodes1, edges1, metric, net1.comp, net1.count)
    && net2 == NetOf(nodes2, edges2, metric, net2.comp, net2.count)
    && Numbering(Graph(nodes1, edges1), net1.comp, net1.count)
    && Numbering(Graph(nodes2, edges2), net2.comp, net2.count)
  }

  lemma SameElements<T>(xs: seq<T>, ys: seq<T>)
    requires multiset(xs) == multiset(ys)
    ensures forall x :: x in xs <==> x in ys
  {
    forall x ensures x in xs <==> x in ys {
      assert x in multiset(xs) <==> x in multiset(ys);
    }
  }

  lemma TwinsKnowSameIds(nodes1: seq<StoredNode>, nodes2: seq<StoredNode>, id: string)
    requires multiset(nodes1) == multiset(nodes2)
    ensures Position(nodes1, id) >= 0 <==> Position(nodes2, id) >= 0
  {
    SameElements(nodes1, nodes2);
    if Position(nodes1, id) >= 0 {
      assert nodes1[Position(nodes1, id)] in nodes2;
    }
    if Position(nodes2, id) >= 0 {
      assert nodes2[Position(nodes2, id)] in nodes1;
    }
  }

  lemma TwinsShareLiveEdges(nodes1: seq<StoredNode>, edges1: seq<CallEdge>, nodes2: seq<StoredNode>, edges2: seq<CallEdge>)
    requires multiset(nodes1) == multiset(nodes2) && multiset(edges1) == multiset(edges2)
    ensures forall e :: Live(nodes1, e) <==> Live(nodes2, e)
    ensures IdArcs(nodes1, edges1) == IdArcs(nodes2, edges2)
  {
    SameElements(edges1, edges2);
    forall e ensures Live(nodes1, e) <==> Live(nodes2, e) {
      TwinsKnowSameIds(nodes1, nodes2, e.fromId);
      TwinsKnowSameIds(nodes1, nodes2, e.toId);
    }
  }

  /** Both numberings put the same nodes together. */
  lemma TwinsGroupAlike(nodes1: seq<StoredNode>, edges1: seq<CallEdge>, net1: Net,
                        nodes2: seq<StoredNode>, edges2: seq<CallEdge>, net2: Net, metric: CostMetric, a: string, b: string)
    requires Twins(nodes1, edges1, net1, nodes2, edges2, net2, metric)
    requires Position(nodes1, a) >= 0 && Position(nodes1, b) >= 0
    ensures CompOfId(nodes1, net1, a) == CompOfId(nodes1, net1, b) <==> CompOfId(nodes2, net2, a) == CompOfId(nodes2, net2, b)
  {
    TwinsKnowSameIds(nodes1, nodes2, a);
    TwinsKnowSameIds(nodes1, nodes2, b);
    TwinsShareLiveEdges(nodes1, edges1, nodes2, edges2);
    SameNumberIffMutual(nodes1, edges1, net1, a, b);
    SameNumberIffMutual(nodes2, edges2, net2, a, b);
  }

  // ---------- the sums, told by id ----------

  ghost function SelfTermById(nodes: seq<StoredNode>, net: Net, metric: CostMetric, c: int): StoredNode -> real {
    (node: StoredNode) => if CompOfId(nodes, net, node.id) == c then RuntimeValue(node, metric) else 0.0
  }

  lemma SelfInById(nodes: seq<StoredNode>, edges: seq<CallEdge>, net: Net, metric: CostMetric, c: int)
    requires DistinctIds(nodes) && net == NetOf(nodes, edges, metric, net.comp, net.count)
    ensures net.SelfIn(c) == Sum(nodes, SelfTermById(nodes, net, metric, c))
  {
    forall i | 0 <= i < |nodes|
      ensures net.SelfTerm(c)(i) == SelfTermById(nodes, net, metric, c)(nodes[i])
    {
      PositionOfNode(nodes, i);
    }
    SumByIndex(nodes, |nodes|, SelfTermById(nodes, net, metric, c), net.SelfTerm(c));
    assert nodes[..|nodes|] == nodes;
  }

  lemma {:induction false} SizeAsSum(xs: seq<int>, one: int -> real)
    requires forall x :: one(x) == 1.0
    ensures Sum(xs, one) == |xs| as real
  {
    if xs != [] {
      SizeAsSum(xs[..|xs| - 1], one);
    }
  }

  ghost function CountTermById(nodes: seq<StoredNode>, net: Net, c: int): StoredNode -> real {
    (node: StoredNode) => if CompOfId(nodes, net, node.id) == c then 1.0 else 0.0
  }

  lemma SizeById(nodes: seq<StoredNode>, net: Net, c: int)
    requires DistinctIds(nodes) && |net.comp| == |nodes|
    ensures |MembersBelow(net.comp, |net.comp|, c)| as real == Sum(nodes, CountTermById(nodes, net, c))
  {
    var one: int -> real := i => 1.0;
    var g: int -> real := i => if net.Comp(i) == c then 1.0 else 0.0;
    SumMembers(net.comp, |net.comp|, c, one, g);
    SizeAsSum(MembersBelow(net.comp, |net.comp|, c), one);
    forall i | 0 <= i < |nodes| ensures g(i) == CountTermById(nodes, net, c)(nodes[i]) {
      PositionOfNode(nodes, i);
    }
    SumByIndex(nodes, |nodes|, CountTermById(nodes, net, c), g);
    assert nodes[..|nodes|] == nodes;
  }

  lemma TwinsSize(nodes1: seq<StoredNode>, edges1: seq<CallEdge>, net1: Net,
                  nodes2: seq<StoredNode>, edges2: seq<CallEdge>, net2: Net, metric: CostMetric, id: string)
    requires Twins(nodes1, edges1, net1, nodes2, edges2, net2, metric) && Position(nodes1, id) >= 0
    ensures |MembersBelow(net1.comp, |net1.comp|, CompOfId(nodes1, net1, id))|
         == |MembersBelow(net2.comp, |net2.comp|, CompOfId(nodes2, net2, id))|
  {
    var f := CountTermById(nodes1, net1, CompOfId(nodes1, net1, id));
    var g := CountTermById(nodes2, net2, CompOfId(nodes2, net2, id));
    SizeById(nodes1, net1, CompOfId(nodes1, net1, id));
    SizeById(nodes2, net2, CompOfId(nodes2, net2, id));
    forall node | node in nodes1 ensures f(node) == g(node) {
      TwinsGroupAlike(nodes1, edges1, net1, nodes2, edges2, net2, metric, node.id, id);
    }
    SumCongruent(nodes1, f, g);
    SumPermutation(nodes1, nodes2, g);
  }

  ghost function ById(nodes: seq<StoredNode>, f: CallArc -> real): CallEdge -> real {
    (e: CallEdge) => if Live(nodes, e) then f(ArcOf(nodes, e)) else 0.0
  }

  lemma TwinsSelf(nodes1: seq<StoredNode>, edges1: seq<CallEdge>, net1: Net,
                  nodes2: seq<StoredNode>, edges2: seq<CallEdge>, net2: Net, metric: CostMetric, id: string)
    requires Twins(nodes1, edges1, net1, nodes2, edges2, net2, metric) && Position(nodes1, id) >= 0
    ensures net1.SelfIn(CompOfId(nodes1, net1, id)) == net2.SelfIn(CompOfId(nodes2, net2, id))
  {
    var f := SelfTermById(nodes1, net1, metric, CompOfId(nodes1, net1, id));
    var g := SelfTermById(nodes2, net2, metric, CompOfId(nodes2, net2, id));
    SelfInById(nodes1, edges1, net1, metric, CompOfId(nodes1, net1, id));
    SelfInById(nodes2, edges2, net2, metric, CompOfId(nodes2, net2, id));
    forall node | node in nodes1 ensures f(node) == g(node) {
      var i :| 0 <= i < |nodes1| && nodes1[i] == node;
      assert Position(nodes1, node.id) >= 0;
      TwinsGroupAlike(nodes1, edges1, net1, nodes2, edges2, net2, metric, node.id, id);
    }
    SumCongruent(nodes1, f, g);
    SumPermutation(nodes1, nodes2, g);
  }

  lemma SamePosition(nodes: seq<StoredNode>, a: string, b: string)
    requires Position(nodes, a) >= 0
    ensures Position(nodes, a) == Position(nodes, b) <==> a == b
  {
  }

  lemma TwinsInbound(nodes1: seq<StoredNode>, edges1: seq<CallEdge>, net1: Net,
                     nodes2: seq<StoredNode>, edges2: seq<CallEdge>, net2: Net, metric: CostMetric, id: string)
    requires Twins(nodes1, edges1, net1, nodes2, edges2, net2, metric) && Position(nodes1, id) >= 0
    ensures net1.Inbound(Position(nodes1, id)) == net2.Inbound(Position(nodes2, id))
  {
    TwinsKnowSameIds(nodes1, nodes2, id);
    TwinsShareLiveEdges(nodes1, edges1, nodes2, edges2);
    var f := ById(nodes1, net1.InboundTerm(Position(nodes1, id)));
    var g := ById(nodes2, net2.InboundTerm(Position(nodes2, id)));
    SumNetArcs(nodes1, edges1, net1.InboundTerm(Position(nodes1, id)), f);
    SumNetArcs(nodes2, edges2, net2.InboundTerm(Position(nodes2, id)), g);
    forall e | e in edges1 ensures f(e) == g(e) {
      if Live(nodes1, e) {
        TwinsGroupAlike(nodes1, edges1, net1, nodes2, edges2, net2, metric, e.fromId, e.toId);
        SamePosition(nodes1, e.toId, id);
        SamePosition(nodes2, e.toId, id);
        var a1, a2 := ArcOf(nodes1, e), ArcOf(nodes2, e);
        assert net1.External(a1) == net2.External(a2);
        assert (a1.to == Position(nodes1, id)) == (a2.to == Position(nodes2, id));
        assert f(e) == net1.InboundTerm(Position(nodes1, id))(a1);
        assert g(e) == net2.InboundTerm(Position(nodes2, id))(a2);
      }
    }
    SumCongruent(edges1, f, g);
    SumPermutation(edges1, edges2, g);
  }

  /** Costs that agree id by id. */
  ghost predicate CostsAgree(nodes1: seq<StoredNode>, net1: Net, inc1: seq<real>,
                             nodes2: seq<StoredNode>, net2: Net, inc2: seq<real>)
  {
    forall id :: Position(nodes1, id) >= 0 ==>
      Net.Cost(inc1, CompOfId(nodes1, net1, id)) == Net.Cost(inc2, CompOfId(nodes2, net2, id))
  }

  lemma TwinsAmount(nodes1: seq<StoredNode>, edges1: seq<CallEdge>, net1: Net, inc1: seq<real>,
                    nodes2: seq<StoredNode>, edges2: seq<CallEdge>, net2: Net, inc2: seq<real>, metric: CostMetric, e: CallEdge)
    requires Twins(nodes1, edges1, net1, nodes2, edges2, net2, metric)
    requires CostsAgree(nodes1, net1, inc1, nodes2, net2, inc2)
    requires Live(nodes1, e) && Live(nodes2, e)
    ensures net1.Amount(inc1, ArcOf(nodes1, e)) == net2.Amount(inc2, ArcOf(nodes2, e))
  {
    TwinsGroupAlike(nodes1, edges1, net1, nodes2, edges2, net2, metric, e.fromId, e.toId);
    TwinsInbound(nodes1, edges1, net1, nodes2, edges2, net2, metric, e.toId);
  }

  lemma TwinsFlow(nodes1: seq<StoredNode>, edges1: seq<CallEdge>, net1: Net, inc1: seq<real>,
                  nodes2: seq<StoredNode>, edges2: seq<CallEdge>, net2: Net, inc2: seq<real>, metric: CostMetric, id: string)
    requires Twins(nodes1, edges1, net1, nodes2, edges2, net2, metric) && Position(nodes1, id) >= 0
    requires CostsAgree(nodes1, net1, inc1, nodes2, net2, inc2)
    ensures net1.FlowInto(inc1, CompOfId(nodes1, net1, id)) == net2.FlowInto(inc2, CompOfId(nodes2, net2, id))
  {
    TwinsShareLiveEdges(nodes1, edges1, nodes2, edges2);
    var term1 := InGroup(net1.CallerComp(), net1.Amounts(inc1), CompOfId(nodes1, net1, id));
    var term2 := InGroup(net2.CallerComp(), net2.Amounts(inc2), CompOfId(nodes2, net2, id));
    var f, g := ById(nodes1, term1), ById(nodes2, term2);
    SumNetArcs(nodes1, edges1, term1, f);
    SumNetArcs(nodes2, edges2, term2, g);
    forall e | e in edges1 ensures f(e) == g(e) {
      if Live(nodes1, e) {
        TwinsGroupAlike(nodes1, edges1, net1, nodes2, edges2, net2, metric, e.fromId, id);
        TwinsAmount(nodes1, edges1, net1, inc1, nodes2, edges2, net2, inc2, metric, e);
      }
    }
    SumCongruent(edges1, f, g);
    SumPermutation(edges1, edges2, g);
  }

  // ---------- the theorem ----------

  ghost function MemberOf(net: Net, c: int): (v: int)
    requires Used(net.comp, c)
    ensures 0 <= v < |net.comp| && net.comp[v] == c
  {
    var v :| 0 <= v < |net.comp| && net.comp[v] == c;
    v
  }

  /** The second reading's costs, laid out by the first reading's numbers. */
  ghost function Transported(nodes1: seq<StoredNode>, net1: Net, nodes2: seq<StoredNode>, net2: Net, inc2: seq<real>): seq<real>
    requires |net1.comp| == |nodes1| && forall c :: 0 <= c < net1.count ==> Used(net1.comp, c)
  {
    seq(net1.count, c requires 0 <= c < net1.count =>
      Net.Cost(inc2, CompOfId(nodes2, net2, nodes1[MemberOf(net1, c)].id)))
  }

  lemma TransportedAgrees(nodes1: seq<StoredNode>, edges1: seq<CallEdge>, net1: Net,
                          nodes2: seq<StoredNode>, edges2: seq<CallEdge>, net2: Net, inc2: seq<real>, metric: CostMetric)
    requires Twins(nodes1, edges1, net1, nodes2, edges2, net2, metric)
    ensures CostsAgree(nodes1, net1, Transported(nodes1, net1, nodes2, net2, inc2), nodes2, net2, inc2)
  {
    forall id | Position(nodes1, id) >= 0
      ensures Net.Cost(Transported(nodes1, net1, nodes2, net2, inc2), CompOfId(nodes1, net1, id))
           == Net.Cost(inc2, CompOfId(nodes2, net2, id))
    {
      var c := CompOfId(nodes1, net1, id);
      var v := MemberOf(net1, c);
      PositionOfNode(nodes1, v);
      TwinsGroupAlike(nodes1, edges1, net1, nodes2, edges2, net2, metric, nodes1[v].id, id);
    }
  }

  lemma TransportedSolves(nodes1: seq<StoredNode>, edges1: seq<CallEdge>, net1: Net,
                          nodes2: seq<StoredNode>, edges2: seq<CallEdge>, net2: Net, inc2: seq<real>, metric: CostMetric)
    requires Twins(nodes1, edges1, net1, nodes2, edges2, net2, metric) && net2.FlowEquations(inc2)
    ensures net1.FlowEquations(Transported(nodes1, net1, nodes2, net2, inc2))
  {
    var f := Transported(nodes1, net1, nodes2, net2, inc2);
    TransportedAgrees(nodes1, edges1, net1, nodes2, edges2, net2, inc2, metric);
    forall c | 0 <= c < net1.count
      ensures f[c] == net1.SelfIn(c) + net1.FlowInto(f, c)
    {
      var v := MemberOf(net1, c);
      var id := nodes1[v].id;
      PositionOfNode(nodes1, v);
      TwinsKnowSameIds(nodes1, nodes2, id);
      TwinsSelf(nodes1, edges1, net1, nodes2, edges2, net2, metric, id);
      TwinsFlow(nodes1, edges1, net1, f, nodes2, edges2, net2, inc2, metric, id);
    }
  }

  lemma TwinsCost(nodes1: seq<StoredNode>, edges1: seq<CallEdge>, net1: Net, inc1: seq<real>,
                  nodes2: seq<StoredNode>, edges2: seq<CallEdge>, net2: Net, inc2: seq<real>, metric: CostMetric)
    requires Twins(nodes1, edges1, net1, nodes2, edges2, net2, metric)
    requires net1.FlowEquations(inc1) && net2.FlowEquations(inc2)
    ensures CostsAgree(nodes1, net1, inc1, nodes2, net2, inc2)
  {
    TransportedAgrees(nodes1, edges1, net1, nodes2, edges2, net2, inc2, metric);
    TransportedSolves(nodes1, edges1, net1, nodes2, edges2, net2, inc2, metric);
    NumberedNetIsCondensed(nodes1, edges1, metric, net1.comp, net1.count);
    FlowSolutionUnique(net1, inc1, Transported(nodes1, net1, nodes2, net2, inc2));
  }

  /** What a model says of a known node. */
  lemma ModelAt(nodes: seq<StoredNode>, edges: seq<CallEdge>, metric: CostMetric, net: Net, inc: seq<real>, m: Model, id: string)
    requires Explains(nodes, edges, metric, net, inc, m)
    ensures id in m.inclusiveCost <==> Position(nodes, id) >= 0
    ensures Position(nodes, id) >= 0 ==>
              && id in m.inclusiveCost && m.inclusiveCost[id] == Net.Cost(inc, CompOfId(nodes, net, id))
              && id in m.cycleSize && m.cycleSize[id] == |MembersBelow(net.comp, |net.comp|, CompOfId(nodes, net, id))|
              && id in m.externalInbound && m.externalInbound[id] == net.Inbound(Position(nodes, id))
              && id in m.componentOf && m.componentOf[id] == CompOfId(nodes, net, id)
              && id in m.selfCost && m.selfCost[id] == RuntimeValue(nodes[Position(nodes, id)], metric)
  {
    var i := Position(nodes, id);
    if i >= 0 {
      assert nodes[i].id == id;
    }
  }

  /** The two models say the same of `id`. */
  ghost predicate SameAt(m1: Model, m2: Model, id: string) {
    && (id in m1.inclusiveCost <==> id in m2.inclusiveCost)
    && (id in m1.inclusiveCost ==>
          && m1.inclusiveCost[id] == m2.inclusiveCost[id]
          && id in m1.cycleSize && id in m2.cycleSize && m1.cycleSize[id] == m2.cycleSize[id]
          && id in m1.externalInbound && id in m2.externalInbound && m1.externalInbound[id] == m2.externalInbound[id])
  }

  lemma SameEverywhere(m1: Model, m2: Model)
    requires forall id :: SameAt(m1, m2, id)
    ensures m1.inclusiveCost == m2.inclusiveCost
  {
    assert forall id :: SameAt(m1, m2, id) ==> (id in m1.inclusiveCost <==> id in m2.inclusiveCost);
  }

  lemma OrderDoesNotMatterAt(nodes1: seq<StoredNode>, edges1: seq<CallEdge>, net1: Net, inc1: seq<real>, m1: Model,
                             nodes2: seq<StoredNode>, edges2: seq<CallEdge>, net2: Net, inc2: seq<real>, m2: Model,
                             metric: CostMetric, id: string)
    requires Twins(nodes1, edges1, net1, nodes2, edges2, net2, metric)
    requires CostsAgree(nodes1, net1, inc1, nodes2, net2, inc2)
    requires Explains(nodes1, edges1, metric, net1, inc1, m1) && Explains(nodes2, edges2, metric, net2, inc2, m2)
    ensures SameAt(m1, m2, id)
  {
    TwinsKnowSameIds(nodes1, nodes2, id);
    if Position(nodes1, id) >= 0 {
      TwinsSize(nodes1, edges1, net1, nodes2, edges2, net2, metric, id);
      TwinsInbound(nodes1, edges1, net1, nodes2, edges2, net2, metric, id);
      assert Net.Cost(inc1, CompOfId(nodes1, net1, id)) == Net.Cost(inc2, CompOfId(nodes2, net2, id));
    }
    hide Explains, Twins, CostsAgree, CompOfId, Position;
    ModelAt(nodes1, edges1, metric, net1, inc1, m1, id);
    ModelAt(nodes2, edges2, metric, net2, inc2, m2, id);
  }

  /** What the explaining net is made of. */
  lemma NetFacts(nodes: seq<StoredNode>, edges: seq<CallEdge>, metric: CostMetric, net: Net, inc: seq<real>, m: Model)
    requires Explains(nodes, edges, metric, net, inc, m)
    ensures net.Condensed() && net.FlowEquations(inc) && |net.comp| == |nodes| == |net.self|
    ensures forall i :: 0 <= i < |nodes| ==> net.Self(i) == RuntimeValue(nodes[i], metric)
    ensures m.totalSelf == net.Total()
  {
    hide Numbering, Graph, Keyed, Net.FlowEquations, Net.Condensed, NetArcs, MeasuredBelow, Sum;
    NumberedNetIsCondensed(nodes, edges, metric, net.comp, net.count);
  }

  /** The call lists a model records, and the arcs behind them. */
  lemma ModelEdgesAt(nodes: seq<StoredNode>, edges: seq<CallEdge>, metric: CostMetric, net: Net, inc: seq<real>, m: Model, i: int)
    requires Explains(nodes, edges, metric, net, inc, m) && 0 <= i < |nodes|
    ensures nodes[i].id in m.outEdges && m.outEdges[nodes[i].id] == EdgesAt(nodes, ArcsFrom(net.arcs, i))
    ensures nodes[i].id in m.inEdges && m.inEdges[nodes[i].id] == EdgesAt(nodes, ArcsTo(net.arcs, i))
    ensures forall a :: a in net.arcs ==> a.from < |nodes| && a.to < |nodes|
  {
    NetArcsFromEdges(nodes, edges);
  }

  /**
   Reading the nodes and the edges in any other order leaves every node's inclusive cost, cycle size
   (hence its cyclic flag) and inbound weight as they were.
   */
  lemma OrderDoesNotMatter(nodes1: seq<StoredNode>, edges1: seq<CallEdge>, net1: Net, inc1: seq<real>, m1: Model,
                           nodes2: seq<StoredNode>, edges2: seq<CallEdge>, net2: Net, inc2: seq<real>, m2: Model,
                           metric: CostMetric)
    requires DistinctIds(nodes1) && DistinctIds(nodes2)
    requires multiset(nodes1) == multiset(nodes2) && multiset(edges1) == multiset(edges2)
    requires Explains(nodes1, edges1, metric, net1, inc1, m1) && Explains(nodes2, edges2, metric, net2, inc2, m2)
    ensures m1.inclusiveCost == m2.inclusiveCost
    ensures forall id :: SameAt(m1, m2, id)
  {
    assert Twins(nodes1, edges1, net1, nodes2, edges2, net2, metric) && net1.FlowEquations(inc1) && net2.FlowEquations(inc2) by {
      hide Recorded, Numbering, NetOf, Net.FlowEquations;
    }
    hide *;
    TwinsCost(nodes1, edges1, net1, inc1, nodes2, edges2, net2, inc2, metric);
    forall id ensures SameAt(m1, m2, id) {
      OrderDoesNotMatterAt(nodes1, edges1, net1, inc1, m1, nodes2, edges2, net2, inc2, m2, metric, id);
    }
    SameEverywhere(m1, m2);
  }
}

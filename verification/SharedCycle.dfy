/**
 Where the documented promises of the cost report fail (docs/commands/cost.md): a call cycle entered
 at two members, as stored nodes and call edges.
 */
module SharedCycle {
  import opened Paths
  import opened Sums
  import opened CostFlow
  import opened Results
  import opened CallGraph
  import opened CostModel
  import opened CostOrder
  import opened CostReport
  import opened StrongComponents

  /** a and b call each other, r calls both, and only a has self time. */
  function Nodes(): seq<StoredNode> {
    [StoredNode("a", "Function", "a", "f.ts", 1, Some(Runtime(Some(10.0), None))),
     StoredNode("b", "Function", "b", "f.ts", 2, None),
     StoredNode("r", "Function", "r", "f.ts", 3, None)]
  }

  function Calls(): seq<CallEdge> {
    [CallEdge("a", "b", 1.0), CallEdge("b", "a", 1.0), CallEdge("r", "a", 1.0), CallEdge("r", "b", 1.0)]
  }

  /** Its net, with the one numbering it has. */
  ghost function Shared(): Net {
    Net([10.0, 0.0, 0.0], [CallArc(0, 1, 1.0), CallArc(1, 0, 1.0), CallArc(2, 0, 1.0), CallArc(2, 1, 1.0)], [0, 0, 1], 2)
  }

  lemma SumFour(f: CallArc -> real)
    ensures var arcs := Shared().arcs; Sum(arcs, f) == f(arcs[0]) + f(arcs[1]) + f(arcs[2]) + f(arcs[3])
  {
    var arcs := Shared().arcs;
    SumPrefix(arcs, 0, f);
    SumPrefix(arcs, 1, f);
    SumPrefix(arcs, 2, f);
    SumPrefix(arcs, 3, f);
    assert arcs[..4] == arcs && arcs[..0] == [];
  }

  lemma SumThree(f: int -> real)
    ensures Sum(Range(3), f) == f(0) + f(1) + f(2)
  {
    SumRangeStep(0, f);
    SumRangeStep(1, f);
    SumRangeStep(2, f);
  }

  // ---------- its costs ----------

  lemma SharedInbound()
    ensures Shared().Inbound(0) == 1.0 && Shared().Inbound(1) == 1.0
  {
    SumFour(Shared().InboundTerm(0));
    SumFour(Shared().InboundTerm(1));
  }

  lemma CycleCost(inc: seq<real>)
    requires Shared().FlowEquations(inc)
    ensures |inc| == 2 && inc[0] == 10.0
  {
    var net := Shared();
    SumThree(net.SelfTerm(0));
    SumFour(InGroup(net.CallerComp(), net.Amounts(inc), 0));
    hide Sum;
  }

  lemma CallerCost(inc: seq<real>)
    requires Shared().FlowEquations(inc)
    ensures |inc| == 2 && inc[1] == 20.0
  {
    var net := Shared();
    SharedInbound();
    CycleCost(inc);
    SumThree(net.SelfTerm(1));
    SumFour(InGroup(net.CallerComp(), net.Amounts(inc), 1));
    hide Sum, Net.Inbound;
  }

  lemma SharedTotal()
    ensures Shared().Total() == 10.0
  {
    SumThree(Shared().Selfs());
  }

  // ---------- its only numbering ----------

  /** In that graph only a and b reach each other. */
  lemma SharedReach(u: nat, v: nat)
    requires u < 3 && v < 3
    ensures Mutual(Arcs(Successors(Shared().arcs, 3)), u, v) <==> u == v || (u < 2 && v < 2)
  {
    var net := Shared();
    var arcs := Arcs(Successors(net.arcs, 3));
    SuccessorArcs(net.arcs, 3);
    assert net.arcs[0] in net.arcs && net.arcs[1] in net.arcs;
    ReachesArc(arcs, 0, 1);
    ReachesArc(arcs, 1, 0);
    ReachesSelf(arcs, u);
    var low: iset<nat> := iset{0, 1};
    if u < 2 && Reaches(arcs, u, v) {
      ClosedSetKeepsReach(arcs, low, u, v);
    }
    if v < 2 && Reaches(arcs, v, u) {
      ClosedSetKeepsReach(arcs, low, v, u);
    }
  }

  lemma SharedNumbering()
    ensures Numbering(Successors(Shared().arcs, 3), Shared().comp, Shared().count)
  {
    var net := Shared();
    var g := Successors(net.arcs, 3);
    SuccessorArcs(net.arcs, 3);
    assert Used(net.comp, 0) by { assert net.comp[0] == 0; }
    assert Used(net.comp, 1) by { assert net.comp[2] == 1; }
    forall u: nat, v: nat | u < 3 && v < 3
      ensures net.comp[u] == net.comp[v] <==> Mutual(Arcs(g), u, v)
    {
      SharedReach(u, v);
    }
    forall u, k | 0 <= u < 3 && 0 <= k < |g[u]|
      ensures g[u][k] < 3 && net.comp[g[u][k]] <= net.comp[u]
    {
      assert (u, g[u][k]) in Arcs(g);
    }
  }

  lemma OnlyNumbering(comp: seq<int>, count: nat)
    requires Numbering(Successors(Shared().arcs, 3), comp, count)
    ensures comp == [0, 0, 1] && count == 2
  {
    var g := Successors(Shared().arcs, 3);
    SharedReach(0, 1);
    SharedReach(0, 2);
    ArcsFromMembers(Shared().arcs, 2);
    assert Shared().arcs[2] in ArcsFrom(Shared().arcs, 2);
    var k :| 0 <= k < |ArcsFrom(Shared().arcs, 2)| && ArcsFrom(Shared().arcs, 2)[k] == Shared().arcs[2];
    assert g[2][k] == 0;
    assert comp[0] == comp[1] != comp[2] && comp[0] <= comp[2];
    hide Mutual, Successors;
    assert Used(comp, 0);
    assert count > 1 ==> Used(comp, 1);
    assert count > 2 ==> Used(comp, 2);
  }

  lemma NetArcsAre()
    ensures NetArcs(Nodes(), Calls()) == Shared().arcs
  {
    var nodes, calls := Nodes(), Calls();
    assert Position(nodes, "a") == 0 && Position(nodes, "b") == 1 && Position(nodes, "r") == 2;
    hide Position;
    NetArcsStep(nodes, calls, 0);
    NetArcsStep(nodes, calls, 1);
    NetArcsStep(nodes, calls, 2);
    NetArcsStep(nodes, calls, 3);
    assert calls[..4] == calls && calls[..0] == [];
  }

  lemma NetIsShared(comp: seq<int>, count: nat)
    requires Numbering(Graph(Nodes(), Calls()), comp, count)
    ensures NetOf(Nodes(), Calls(), SelfTime, comp, count) == Shared()
  {
    NetArcsAre();
    hide NetArcs, Numbering;
    OnlyNumbering(comp, count);
    assert NetOf(Nodes(), Calls(), SelfTime, comp, count).self == Shared().self;
  }

  /** Every model of this graph is computed from this net. */
  lemma ExplainedByShared(net: Net, inc: seq<real>, m: Model)
    requires Explains(Nodes(), Calls(), SelfTime, net, inc, m)
    ensures net == Shared()
  {
    hide NetOf, Numbering, Recorded, Net.FlowEquations, Nodes, Calls, Shared, Graph;
    NetIsShared(net.comp, net.count);
  }

  lemma NodesDistinct()
    ensures DistinctIds(Nodes())
  {
  }

  // ---------- the failing inputs ----------

  /** r, whose only cost is that of the cycle, is charged twice the total: a share of 2. */
  lemma SharedCycleChargesTwice(net: Net, inc: seq<real>, m: Model)
    requires Explains(Nodes(), Calls(), SelfTime, net, inc, m)
    ensures m.totalSelf == 10.0 && ToCostRef(Nodes()[2], m).shareOfTotal == 2.0
  {
    hide Explains, Net.FlowEquations, Net.Condensed, Net.Total, Position, DistinctIds;
    NodesDistinct();
    ExplainedByShared(net, inc, m);
    NetFacts(Nodes(), Calls(), SelfTime, net, inc, m);
    PositionOfNode(Nodes(), 2);
    ModelAt(Nodes(), Calls(), SelfTime, net, inc, m, Nodes()[2].id);
    assert Get(m.inclusiveCost, Nodes()[2].id, 0.0) == Net.Cost(inc, 1);
    CallerCost(inc);
    SharedTotal();
  }

  /** b's one call stays within its cycle. */
  lemma NoSharesOut(inc: seq<real>)
    ensures Sum(ArcsFrom(Shared().arcs, 1), CalleeShare(Shared(), inc, 1)) == 0.0
  {
    ArcsFromMembers(Shared().arcs, 1);
    hide ArcsFrom, Net.Amount;
    SumZero(ArcsFrom(Shared().arcs, 1), CalleeShare(Shared(), inc, 1));
  }

  /** b, which only passes on the cycle's cost, accounts for none of it: its shares sum to 0. */
  lemma CycleMemberSharesNothing(net: Net, inc: seq<real>, m: Model)
    requires Explains(Nodes(), Calls(), SelfTime, net, inc, m)
    ensures Get(m.inclusiveCost, "b", 0.0) == 10.0 && SharesOf(Nodes(), m, "b") == 0.0
  {
    hide Explains, Callees, CalleeShare, ArcsFrom, Sum, Net.FlowEquations, Net.Condensed, Net.Total, Position, DistinctIds;
    NodesDistinct();
    ExplainedByShared(net, inc, m);
    NetFacts(Nodes(), Calls(), SelfTime, net, inc, m);
    PositionOfNode(Nodes(), 1);
    ModelAt(Nodes(), Calls(), SelfTime, net, inc, m, Nodes()[1].id);
    assert Get(m.inclusiveCost, Nodes()[1].id, 0.0) == Net.Cost(inc, 0);
    assert Get(m.selfCost, Nodes()[1].id, 0.0) == 0.0;
    CycleCost(inc);
    CalleeSums(Nodes(), Calls(), SelfTime, net, inc, m, 1);
    NoSharesOut(inc);
  }
}

/** The per-node cost breakdown and ranking of src/query/graph_query.ts, over a computed model. */
module CostReport {
  import opened Paths
  import opened Sums
  import opened CostFlow
  import opened CostBound
  import opened Results
  import opened CallGraph
  import opened CostModel
  import opened CostOrder
  import opened CostById
  import opened StrongComponents
  import opened StrongCycles
  import opened Ranking

  datatype CostRef = CostRef(
    node: StoredNode, selfCost: real, inclusiveCost: real, shareOfTotal: real, cyclic: bool, cycleSize: nat)

  datatype CostFlowRef = CostFlowRef(node: StoredNode, amount: real, share: real, callCount: real)

  datatype Attribution = Attribution(focal: Option<CostRef>, callees: seq<CostFlowRef>, callers: seq<CostFlowRef>)

  function ToCostRef(node: StoredNode, m: Model): CostRef {
    var inclusive := Get(m.inclusiveCost, node.id, 0.0);
    var size := Get(m.cycleSize, node.id, 1);
    CostRef(node, Get(m.selfCost, node.id, 0.0), inclusive,
            if m.totalSelf > 0.0 then inclusive / m.totalSelf else 0.0, size > 1, size)
  }

  // ---------- the breakdown ----------

  /** The callee flow over `edge`, or none for a call inside the focal component or to an unknown node. */
  function CalleeFlow(nodes: seq<StoredNode>, m: Model, focal: string, edge: CallEdge): seq<CostFlowRef> {
    if edge.toId in m.componentOf && focal in m.componentOf && m.componentOf[edge.toId] == m.componentOf[focal] then []
    else if Position(nodes, edge.toId) < 0 then []
    else
      var inbound := Get(m.externalInbound, edge.toId, 0.0);
      var amount := Portion(Get(m.inclusiveCost, edge.toId, 0.0), edge.count, inbound);
      var focalInclusive := Get(m.inclusiveCost, focal, 0.0);
      var share := if focalInclusive > 0.0 then amount / focalInclusive else 0.0;
      [CostFlowRef(nodes[Position(nodes, edge.toId)], amount, share, edge.count)]
  }

  /** The caller flow over `edge`, or none for a call inside the focal component or from an unknown node. */
  function CallerFlow(nodes: seq<StoredNode>, m: Model, focal: string, edge: CallEdge): seq<CostFlowRef> {
    if edge.fromId in m.componentOf && focal in m.componentOf && m.componentOf[edge.fromId] == m.componentOf[focal] then []
    else if Position(nodes, edge.fromId) < 0 then []
    else
      var inbound := Get(m.externalInbound, focal, 0.0);
      var amount := Portion(Get(m.inclusiveCost, focal, 0.0), edge.count, inbound);
      var share := if inbound > 0.0 then edge.count / inbound else 0.0;
      [CostFlowRef(nodes[Position(nodes, edge.fromId)], amount, share, edge.count)]
  }

  function CalleeFlows(nodes: seq<StoredNode>, m: Model, focal: string, edges: seq<CallEdge>): seq<CostFlowRef> {
    if edges == [] then [] else
      CalleeFlows(nodes, m, focal, edges[..|edges| - 1]) + CalleeFlow(nodes, m, focal, edges[|edges| - 1])
  }

  function CallerFlows(nodes: seq<StoredNode>, m: Model, focal: string, edges: seq<CallEdge>): seq<CostFlowRef> {
    if edges == [] then [] else
      CallerFlows(nodes, m, focal, edges[..|edges| - 1]) + CallerFlow(nodes, m, focal, edges[|edges| - 1])
  }

  /** Larger amounts first, then by location. */
  function ByAmount(location: (StoredNode, StoredNode) -> bool): (CostFlowRef, CostFlowRef) -> bool {
    (a: CostFlowRef, b: CostFlowRef) => a.amount > b.amount || (a.amount == b.amount && location(a.node, b.node))
  }

  /** Larger amounts come first, and equal amounts by location. */
  ghost predicate ListedByAmount(flows: seq<CostFlowRef>, location: (StoredNode, StoredNode) -> bool) {
    forall i, j :: 0 <= i < j < |flows| ==>
      && flows[i].amount >= flows[j].amount
      && (flows[i].amount == flows[j].amount ==> location(flows[i].node, flows[j].node))
  }

  lemma SortListsByAmount(flows: seq<CostFlowRef>, location: (StoredNode, StoredNode) -> bool)
    requires TotalPreorder(location)
    ensures ListedByAmount(Sort(flows, ByAmount(location)), location)
  {
    ByAmountIsPreorder(location);
    SortSorts(flows, ByAmount(location));
    hide Sort, TotalPreorder;
  }

  lemma ByAmountIsPreorder(location: (StoredNode, StoredNode) -> bool)
    requires TotalPreorder(location)
    ensures TotalPreorder(ByAmount(location))
  {
    var before := ByAmount(location);
    forall a, b, c | before(a, b) && before(b, c) ensures before(a, c) {
      assert location(a.node, b.node) && location(b.node, c.node) ==> location(a.node, c.node);
    }
    forall a, b ensures before(a, b) || before(b, a) {
      assert location(a.node, b.node) || location(b.node, a.node);
    }
  }

  /** costAttribution: the focal node, what its calls bring in, and who is charged for it. */
  method CostAttribution(nodes: seq<StoredNode>, m: Model, id: string, location: (StoredNode, StoredNode) -> bool)
    returns (attribution: Attribution)
    ensures Position(nodes, id) < 0 ==> attribution == Attribution(None, [], [])
    ensures Position(nodes, id) >= 0 ==>
              && attribution.focal == Some(ToCostRef(nodes[Position(nodes, id)], m))
              && attribution.callees == Sort(CalleeFlows(nodes, m, id, Get(m.outEdges, id, [])), ByAmount(location))
              && attribution.callers == Sort(CallerFlows(nodes, m, id, Get(m.inEdges, id, [])), ByAmount(location))
    ensures TotalPreorder(location) ==> ListedByAmount(attribution.callees, location) && ListedByAmount(attribution.callers, location)
  {
    var position := IndexNodes(nodes);
    if id !in position {
      return Attribution(None, [], []);
    }
    var outs, ins := Get(m.outEdges, id, []), Get(m.inEdges, id, []);
    var callees, callers := [], [];
    for i := 0 to |outs|
      invariant callees == CalleeFlows(nodes, m, id, outs[..i])
    {
      assert outs[..i + 1][..i] == outs[..i];
      callees := callees + CalleeFlow(nodes, m, id, outs[i]);
    }
    for i := 0 to |ins|
      invariant callers == CallerFlows(nodes, m, id, ins[..i])
    {
      assert ins[..i + 1][..i] == ins[..i];
      callers := callers + CallerFlow(nodes, m, id, ins[i]);
    }
    assert outs[..|outs|] == outs && ins[..|ins|] == ins;
    attribution := Attribution(Some(ToCostRef(nodes[position[id]], m)),
                               Sort(callees, ByAmount(location)), Sort(callers, ByAmount(location)));
    if TotalPreorder(location) {
      SortListsByAmount(callees, location);
      SortListsByAmount(callers, location);
    }
  }

  // ---------- the breakdown, by id ----------

  /** A call of `id` out of its cycle to a known node. */
  ghost function CallsOffCycle(nodes: seq<StoredNode>, edges: seq<CallEdge>, id: string): CallEdge -> bool {
    (e: CallEdge) => e.fromId == id && KnownId(nodes, e.toId) && !SameCycle(nodes, edges, e.toId, id)
  }

  /** A call to `id` from a known node outside its cycle. */
  ghost function CallsOntoCycle(nodes: seq<StoredNode>, edges: seq<CallEdge>, id: string): CallEdge -> bool {
    (e: CallEdge) => e.toId == id && KnownId(nodes, e.fromId) && !SameCycle(nodes, edges, e.fromId, id)
  }

  lemma {:induction false} CalleeFlowsList(nodes: seq<StoredNode>, m: Model, focal: string, es: seq<CallEdge>, keep: CallEdge -> bool)
    requires forall e :: e in es ==> |CalleeFlow(nodes, m, focal, e)| == if keep(e) then 1 else 0
    ensures |CalleeFlows(nodes, m, focal, es)| == |Filter(es, keep)|
    ensures forall k :: 0 <= k < |Filter(es, keep)| ==>
              CalleeFlow(nodes, m, focal, Filter(es, keep)[k]) == [CalleeFlows(nodes, m, focal, es)[k]]
  {
    hide CalleeFlow;
    if es != [] {
      CalleeFlowsList(nodes, m, focal, es[..|es| - 1], keep);
    }
  }

  lemma {:induction false} CallerFlowsList(nodes: seq<StoredNode>, m: Model, focal: string, es: seq<CallEdge>, keep: CallEdge -> bool)
    requires forall e :: e in es ==> |CallerFlow(nodes, m, focal, e)| == if keep(e) then 1 else 0
    ensures |CallerFlows(nodes, m, focal, es)| == |Filter(es, keep)|
    ensures forall k :: 0 <= k < |Filter(es, keep)| ==>
              CallerFlow(nodes, m, focal, Filter(es, keep)[k]) == [CallerFlows(nodes, m, focal, es)[k]]
  {
    hide CallerFlow;
    if es != [] {
      CallerFlowsList(nodes, m, focal, es[..|es| - 1], keep);
    }
  }

  /** The flow of `cost` over a call of weight `count`: its part of the weight that enters the callee. */
  ghost predicate IsPart(amount: real, cost: real, count: real, inbound: real) {
    if inbound > 0.0 then amount * inbound == cost * count else amount == 0.0
  }

  /** `f` is the flow of call `e` to `other`, of a callee with this cost and inbound weight. */
  ghost predicate IsFlow(nodes: seq<StoredNode>, m: Model, f: CostFlowRef, e: CallEdge, other: string) {
    && f.node in nodes && f.node.id == other && f.callCount == e.count
    && e.toId in m.inclusiveCost && e.toId in m.externalInbound
    && IsPart(f.amount, m.inclusiveCost[e.toId], e.count, m.externalInbound[e.toId])
  }

  lemma PartOf(cost: real, count: real, inbound: real)
    ensures IsPart(Portion(cost, count, inbound), cost, count, inbound)
  {
    if inbound > 0.0 {
      assert (cost * count / inbound) * inbound == cost * count;
    }
  }

  lemma CalleeFlowById(nodes: seq<StoredNode>, edges: seq<CallEdge>, metric: CostMetric, m: Model, id: string, e: CallEdge)
    requires DistinctIds(nodes) && Explained(nodes, edges, metric, m) && KnownId(nodes, id) && CallsOutOf(nodes, id)(e)
    ensures var flow := CalleeFlow(nodes, m, id, e);
            if CallsOffCycle(nodes, edges, id)(e) then
              && |flow| == 1 && IsFlow(nodes, m, flow[0], e, e.toId) && id in m.inclusiveCost
              && (if m.inclusiveCost[id] > 0.0 then flow[0].share * m.inclusiveCost[id] == flow[0].amount else flow[0].share == 0.0)
            else flow == []
  {
    hide Explained, SameCycle, KnownId, Portion, Sum, DistinctIds, Measured, WeightInto, MeasuredTogether, BroughtIn, OneTogether, Position, IsPart;
    KnownIsPosition(nodes, e.toId);
    var u := IndexOfKnown(nodes, id);
    var v := IndexOfKnown(nodes, e.toId);
    CyclesById(nodes, edges, metric, m, v, u);
    WeightsById(nodes, edges, metric, m, v);
    InclusiveById(nodes, edges, metric, m, id);
    InclusiveById(nodes, edges, metric, m, e.toId);
    PartOf(m.inclusiveCost[e.toId], e.count, m.externalInbound[e.toId]);
    if m.inclusiveCost[id] > 0.0 {
      QuotientBack(Portion(m.inclusiveCost[e.toId], e.count, m.externalInbound[e.toId]), m.inclusiveCost[id]);
    }
  }

  lemma CallerFlowById(nodes: seq<StoredNode>, edges: seq<CallEdge>, metric: CostMetric, m: Model, id: string, e: CallEdge)
    requires DistinctIds(nodes) && Explained(nodes, edges, metric, m) && KnownId(nodes, id) && CallsInto(nodes, id)(e)
    ensures var flow := CallerFlow(nodes, m, id, e);
            if CallsOntoCycle(nodes, edges, id)(e) then
              && |flow| == 1 && IsFlow(nodes, m, flow[0], e, e.fromId)
              && (if m.externalInbound[id] > 0.0 then flow[0].share * m.externalInbound[id] == e.count else flow[0].share == 0.0)
            else flow == []
  {
    hide Explained, SameCycle, KnownId, Portion, Sum, DistinctIds, Measured, WeightInto, MeasuredTogether, BroughtIn, OneTogether, Position, IsPart;
    KnownIsPosition(nodes, e.fromId);
    var u := IndexOfKnown(nodes, id);
    var v := IndexOfKnown(nodes, e.fromId);
    CyclesById(nodes, edges, metric, m, v, u);
    WeightsById(nodes, edges, metric, m, u);
    InclusiveById(nodes, edges, metric, m, id);
    PartOf(m.inclusiveCost[id], e.count, m.externalInbound[id]);
    if m.externalInbound[id] > 0.0 {
      QuotientBack(e.count, m.externalInbound[id]);
    }
  }

  lemma QuotientBack(x: real, y: real)
    requires y != 0.0
    ensures (x / y) * y == x
  {
  }

  /**
   The callee flows of a node are its calls out of its cycle, one flow a call, in reading order: the
   callee, the call's count, and the callee's inclusive cost in proportion to that count.
   */
  lemma CalleesById(nodes: seq<StoredNode>, edges: seq<CallEdge>, metric: CostMetric, m: Model, id: string)
    requires DistinctIds(nodes) && Explained(nodes, edges, metric, m) && KnownId(nodes, id)
    ensures var calls, flows := Filter(edges, CallsOffCycle(nodes, edges, id)), Callees(nodes, m, id);
            && |flows| == |calls| && id in m.inclusiveCost
            && forall k :: 0 <= k < |calls| ==>
                 && IsFlow(nodes, m, flows[k], calls[k], calls[k].toId)
                 && (if m.inclusiveCost[id] > 0.0 then flows[k].share * m.inclusiveCost[id] == flows[k].amount else flows[k].share == 0.0)
  {
    hide Explained, CalleeFlow, CalleeFlows, Filter, IsFlow, Sum, KnownId, DistinctIds, MeasuredTogether, BroughtIn;
    var out, off := CallsOutOf(nodes, id), CallsOffCycle(nodes, edges, id);
    CallListsById(nodes, edges, metric, m, id);
    InclusiveById(nodes, edges, metric, m, id);
    ReachesSelf(KnownCalls(nodes, edges), id);
    FilterFilter(edges, out, off, off);
    FilterMembers(edges, out);
    hide SameCycle, Mutual, Reaches;
    var es := Filter(edges, out);
    forall e | e in es ensures |CalleeFlow(nodes, m, id, e)| == if off(e) then 1 else 0 {
      CalleeFlowById(nodes, edges, metric, m, id, e);
    }
    CalleeFlowsList(nodes, m, id, es, off);
    FilterMembers(es, off);
    hide CallsOutOf, CallsOffCycle;
    forall k | 0 <= k < |Filter(es, off)|
      ensures var e, f := Filter(es, off)[k], CalleeFlows(nodes, m, id, es)[k];
              && IsFlow(nodes, m, f, e, e.toId)
              && (if m.inclusiveCost[id] > 0.0 then f.share * m.inclusiveCost[id] == f.amount else f.share == 0.0)
    {
      assert Filter(es, off)[k] in Filter(es, off);
      CalleeFlowById(nodes, edges, metric, m, id, Filter(es, off)[k]);
    }
  }

  /**
   The caller flows of a node are the calls to it from outside its cycle, one flow a call, in reading
   order: the caller, the call's count, and the node's inclusive cost in proportion to that count.
   */
  lemma CallersById(nodes: seq<StoredNode>, edges: seq<CallEdge>, metric: CostMetric, m: Model, id: string)
    requires DistinctIds(nodes) && Explained(nodes, edges, metric, m) && KnownId(nodes, id)
    ensures var calls, flows := Filter(edges, CallsOntoCycle(nodes, edges, id)), Callers(nodes, m, id);
            && |flows| == |calls| && id in m.externalInbound
            && forall k :: 0 <= k < |calls| ==>
                 && IsFlow(nodes, m, flows[k], calls[k], calls[k].fromId)
                 && (if m.externalInbound[id] > 0.0 then flows[k].share * m.externalInbound[id] == calls[k].count else flows[k].share == 0.0)
  {
    hide Explained, CallerFlow, CallerFlows, Filter, IsFlow, Sum, KnownId, DistinctIds, Measured, WeightInto;
    var into, onto := CallsInto(nodes, id), CallsOntoCycle(nodes, edges, id);
    CallListsById(nodes, edges, metric, m, id);
    var u := IndexOfKnown(nodes, id);
    WeightsById(nodes, edges, metric, m, u);
    ReachesSelf(KnownCalls(nodes, edges), id);
    FilterFilter(edges, into, onto, onto);
    FilterMembers(edges, into);
    hide SameCycle, Mutual, Reaches;
    var es := Filter(edges, into);
    forall e | e in es ensures |CallerFlow(nodes, m, id, e)| == if onto(e) then 1 else 0 {
      CallerFlowById(nodes, edges, metric, m, id, e);
    }
    CallerFlowsList(nodes, m, id, es, onto);
    FilterMembers(es, onto);
    hide CallsInto, CallsOntoCycle;
    forall k | 0 <= k < |Filter(es, onto)|
      ensures var e, f := Filter(es, onto)[k], CallerFlows(nodes, m, id, es)[k];
              && IsFlow(nodes, m, f, e, e.fromId)
              && (if m.externalInbound[id] > 0.0 then f.share * m.externalInbound[id] == e.count else f.share == 0.0)
    {
      assert Filter(es, onto)[k] in Filter(es, onto);
      CallerFlowById(nodes, edges, metric, m, id, Filter(es, onto)[k]);
    }
  }

  /** The focal node's reference: its own measurement, the recurrence's cost, its share of the total, and its cycle's size. */
  lemma CostRefById(nodes: seq<StoredNode>, edges: seq<CallEdge>, metric: CostMetric, m: Model, u: int)
    requires DistinctIds(nodes) && Explained(nodes, edges, metric, m) && 0 <= u < |nodes|
    ensures var ref, id := ToCostRef(nodes[u], m), nodes[u].id;
            && ref.node == nodes[u] && ref.selfCost == Measured(metric)(nodes[u])
            && ref.inclusiveCost == Sum(nodes, MeasuredTogether(nodes, edges, metric, id)) + Sum(edges, BroughtIn(nodes, edges, m, id))
            && (if Sum(nodes, Measured(metric)) > 0.0 then ref.shareOfTotal * Sum(nodes, Measured(metric)) == ref.inclusiveCost
                else ref.shareOfTotal == 0.0)
            && ref.cycleSize as real == Sum(nodes, OneTogether(nodes, edges, id))
  {
    hide Explained, KnownId, Sum, Measured, MeasuredTogether, BroughtIn, OneTogether, DistinctIds, SameCycle, WeightInto;
    NodeIsKnown(nodes, u);
    WeightsById(nodes, edges, metric, m, u);
    CyclesById(nodes, edges, metric, m, u, u);
    InclusiveById(nodes, edges, metric, m, nodes[u].id);
    if m.totalSelf > 0.0 {
      QuotientBack(m.inclusiveCost[nodes[u].id], m.totalSelf);
    }
  }

  // ---------- the breakdown balances ----------

  ghost function AmountOf(): CostFlowRef -> real {
    (f: CostFlowRef) => f.amount
  }

  ghost function ShareOf(): CostFlowRef -> real {
    (f: CostFlowRef) => f.share
  }

  /** A recorded callee flow is the amount the arc hands over. */
  lemma CalleeFlowIs(nodes: seq<StoredNode>, edges: seq<CallEdge>, metric: CostMetric, net: Net, inc: seq<real>, m: Model, a: CallArc)
    requires DistinctIds(nodes) && Explains(nodes, edges, metric, net, inc, m) && a.from < |nodes| && a.to < |nodes|
    ensures var cost := Net.Cost(inc, net.Comp(a.from));
            CalleeFlow(nodes, m, nodes[a.from].id, EdgeAt(nodes, a)) ==
              if net.External(a) then
                [CostFlowRef(nodes[a.to], net.Amount(inc, a), if cost > 0.0 then net.Amount(inc, a) / cost else 0.0, a.count)]
              else []
  {
    hide Explains, Portion, MembersBelow;
    PositionOfNode(nodes, a.from);
    PositionOfNode(nodes, a.to);
    hide Position;
    ModelAt(nodes, edges, metric, net, inc, m, nodes[a.from].id);
    ModelAt(nodes, edges, metric, net, inc, m, nodes[a.to].id);
  }

  lemma CallerFlowIs(nodes: seq<StoredNode>, edges: seq<CallEdge>, metric: CostMetric, net: Net, inc: seq<real>, m: Model, a: CallArc)
    requires DistinctIds(nodes) && Explains(nodes, edges, metric, net, inc, m) && a.from < |nodes| && a.to < |nodes|
    ensures var inbound := net.Inbound(a.to);
            CallerFlow(nodes, m, nodes[a.to].id, EdgeAt(nodes, a)) ==
              if net.External(a) then
                [CostFlowRef(nodes[a.from], net.Amount(inc, a), if inbound > 0.0 then a.count / inbound else 0.0, a.count)]
              else []
  {
    hide Explains, Portion, MembersBelow;
    PositionOfNode(nodes, a.from);
    PositionOfNode(nodes, a.to);
    hide Position;
    ModelAt(nodes, edges, metric, net, inc, m, nodes[a.from].id);
    ModelAt(nodes, edges, metric, net, inc, m, nodes[a.to].id);
  }

  ghost function CalleeShare(net: Net, inc: seq<real>, u: int): CallArc -> real {
    var cost := Net.Cost(inc, net.Comp(u));
    (a: CallArc) => if net.External(a) && cost > 0.0 then net.Amount(inc, a) / cost else 0.0
  }

  ghost function CallerShare(net: Net, v: int): CallArc -> real {
    var inbound := net.Inbound(v);
    (a: CallArc) => if net.External(a) && inbound > 0.0 then a.count / inbound else 0.0
  }

  /** Appending at most one flow adds its amount and share. */
  lemma AppendFlow(before: seq<CostFlowRef>, flow: seq<CostFlowRef>, amount: real, share: real)
    requires if flow == [] then amount == share == 0.0 else |flow| == 1 && flow[0].amount == amount && flow[0].share == share
    ensures Sum(before + flow, AmountOf()) == Sum(before, AmountOf()) + amount
    ensures Sum(before + flow, ShareOf()) == Sum(before, ShareOf()) + share
  {
    hide Sum;
    if flow == [] {
      assert before + flow == before;
    } else {
      assert flow == [flow[0]];
      SumAppend(before, flow[0], AmountOf());
      SumAppend(before, flow[0], ShareOf());
    }
  }

  lemma {:induction false} SumCalleeFlows(nodes: seq<StoredNode>, edges: seq<CallEdge>, metric: CostMetric, net: Net,
                                          inc: seq<real>, m: Model, u: int, arcs: seq<CallArc>)
    requires DistinctIds(nodes) && Explains(nodes, edges, metric, net, inc, m) && 0 <= u < |nodes|
    requires forall a :: a in arcs ==> a.from == u && a.to < |nodes|
    ensures var flows := CalleeFlows(nodes, m, nodes[u].id, EdgesAt(nodes, arcs));
            Sum(flows, AmountOf()) == Sum(arcs, net.Amounts(inc)) && Sum(flows, ShareOf()) == Sum(arcs, CalleeShare(net, inc, u))
  {
    hide Explains, CalleeFlow, Portion, EdgeAt, Net.External, Net.Comp, Net.Cost;
    if arcs != [] {
      var rest, a := arcs[..|arcs| - 1], arcs[|arcs| - 1];
      SumCalleeFlows(nodes, edges, metric, net, inc, m, u, rest);
      var es := EdgesAt(nodes, arcs);
      assert es[..|es| - 1] == EdgesAt(nodes, rest) && es[|es| - 1] == EdgeAt(nodes, a);
      CalleeFlowIs(nodes, edges, metric, net, inc, m, a);
      var before, flow := CalleeFlows(nodes, m, nodes[u].id, EdgesAt(nodes, rest)), CalleeFlow(nodes, m, nodes[u].id, EdgeAt(nodes, a));
      assert CalleeFlows(nodes, m, nodes[u].id, es) == before + flow;
      AppendFlow(before, flow, net.Amounts(inc)(a), CalleeShare(net, inc, u)(a));
    }
  }

  lemma {:induction false} SumCallerFlows(nodes: seq<StoredNode>, edges: seq<CallEdge>, metric: CostMetric, net: Net,
                                          inc: seq<real>, m: Model, v: int, arcs: seq<CallArc>)
    requires DistinctIds(nodes) && Explains(nodes, edges, metric, net, inc, m) && 0 <= v < |nodes|
    requires forall a :: a in arcs ==> a.to == v && a.from < |nodes|
    ensures var flows := CallerFlows(nodes, m, nodes[v].id, EdgesAt(nodes, arcs));
            Sum(flows, AmountOf()) == Sum(arcs, net.Amounts(inc)) && Sum(flows, ShareOf()) == Sum(arcs, CallerShare(net, v))
  {
    hide Explains, CallerFlow, Portion, EdgeAt, Net.External, Net.Inbound;
    if arcs != [] {
      var rest, a := arcs[..|arcs| - 1], arcs[|arcs| - 1];
      SumCallerFlows(nodes, edges, metric, net, inc, m, v, rest);
      var es := EdgesAt(nodes, arcs);
      assert es[..|es| - 1] == EdgesAt(nodes, rest) && es[|es| - 1] == EdgeAt(nodes, a);
      CallerFlowIs(nodes, edges, metric, net, inc, m, a);
      var before, flow := CallerFlows(nodes, m, nodes[v].id, EdgesAt(nodes, rest)), CallerFlow(nodes, m, nodes[v].id, EdgeAt(nodes, a));
      assert CallerFlows(nodes, m, nodes[v].id, es) == before + flow;
      AppendFlow(before, flow, net.Amounts(inc)(a), CallerShare(net, v)(a));
    }
  }

  /** The flows a breakdown lists for a known node, before sorting. */
  ghost function Callees(nodes: seq<StoredNode>, m: Model, id: string): seq<CostFlowRef> {
    CalleeFlows(nodes, m, id, Get(m.outEdges, id, []))
  }

  ghost function Callers(nodes: seq<StoredNode>, m: Model, id: string): seq<CostFlowRef> {
    CallerFlows(nodes, m, id, Get(m.inEdges, id, []))
  }

  /** Listing the flows by amount changes no total. */
  lemma ListingKeepsSums(flows: seq<CostFlowRef>, location: (StoredNode, StoredNode) -> bool)
    ensures Sum(Sort(flows, ByAmount(location)), AmountOf()) == Sum(flows, AmountOf())
    ensures Sum(Sort(flows, ByAmount(location)), ShareOf()) == Sum(flows, ShareOf())
  {
    SortPermutes(flows, ByAmount(location));
    SumPermutation(flows, Sort(flows, ByAmount(location)), AmountOf());
    SumPermutation(flows, Sort(flows, ByAmount(location)), ShareOf());
  }

  lemma Quotient(x: real, y: real)
    requires y != 0.0
    ensures x / y == (1.0 / y) * x
  {
  }

  lemma CalleeSharesScale(net: Net, inc: seq<real>, u: int, arcs: seq<CallArc>)
    ensures Sum(arcs, CalleeShare(net, inc, u)) * Net.Cost(inc, net.Comp(u)) ==
            if Net.Cost(inc, net.Comp(u)) > 0.0 then Sum(arcs, net.Amounts(inc)) else 0.0
  {
    hide Portion;
    var cost := Net.Cost(inc, net.Comp(u));
    if cost > 0.0 {
      SumScale(arcs, 1.0 / cost, net.Amounts(inc), CalleeShare(net, inc, u));
    } else {
      SumZero(arcs, CalleeShare(net, inc, u));
    }
  }

  lemma CallerShareIs(net: Net, v: int, a: CallArc, rate: real)
    requires net.Inbound(v) > 0.0 && rate == 1.0 / net.Inbound(v) && a.to == v
    ensures CallerShare(net, v)(a) == rate * net.InboundTerm(v)(a)
  {
    hide Net.Inbound;
    Quotient(a.count, net.Inbound(v));
  }

  lemma Reciprocal(x: real)
    requires x != 0.0
    ensures (1.0 / x) * x == 1.0
  {
  }

  lemma CallerSharesScale(net: Net, v: int, arcs: seq<CallArc>, rate: real)
    requires net.Inbound(v) > 0.0 && rate == 1.0 / net.Inbound(v)
    requires forall a :: a in arcs ==> a.to == v
    ensures Sum(arcs, CallerShare(net, v)) == rate * Sum(arcs, net.InboundTerm(v))
  {
    var share := CallerShare(net, v);
    var term := net.InboundTerm(v);
    forall a | a in arcs ensures share(a) == rate * term(a) {
      CallerShareIs(net, v, a, rate);
    }
    hide *;
    SumScale(arcs, rate, term, share);
  }

  lemma CallerSharesSum(net: Net, v: int)
    requires net.Inbound(v) > 0.0
    ensures Sum(ArcsTo(net.arcs, v), CallerShare(net, v)) == 1.0
  {
    hide Sum, ArcsTo, Net.External;
    ArcsToMembers(net.arcs, v);
    var arcs := ArcsTo(net.arcs, v);
    SumArcsTo(net.arcs, v, net.InboundTerm(v), net.InboundTerm(v));
    assert Sum(arcs, net.InboundTerm(v)) == net.Inbound(v);
    hide *;
    CallerSharesScale(net, v, arcs, 1.0 / net.Inbound(v));
    Reciprocal(net.Inbound(v));
  }

  /** The callee amounts of a node are what its calls out of its component bring in. */
  lemma CalleeSums(nodes: seq<StoredNode>, edges: seq<CallEdge>, metric: CostMetric, net: Net, inc: seq<real>, m: Model, u: int)
    requires DistinctIds(nodes) && Explains(nodes, edges, metric, net, inc, m) && 0 <= u < |nodes|
    ensures Sum(Callees(nodes, m, nodes[u].id), AmountOf()) == Sum(ArcsFrom(net.arcs, u), net.Amounts(inc))
    ensures Sum(Callees(nodes, m, nodes[u].id), ShareOf()) == Sum(ArcsFrom(net.arcs, u), CalleeShare(net, inc, u))
    ensures Sum(ArcsFrom(net.arcs, u), net.Amounts(inc)) == Sum(net.arcs, FromNode(net, inc, u))
  {
    hide Explains, CalleeFlows, Portion, Sum;
    ModelEdgesAt(nodes, edges, metric, net, inc, m, u);
    ArcsFromMembers(net.arcs, u);
    SumCalleeFlows(nodes, edges, metric, net, inc, m, u, ArcsFrom(net.arcs, u));
    SumArcsFrom(net.arcs, u, net.Amounts(inc), FromNode(net, inc, u));
  }

  /**
   A node called from outside with positive weight charges its whole inclusive cost to its callers, in
   shares that sum to one; any other node charges nothing. So caller shares sum to one exactly then.
   */
  lemma CallersPayInFull(nodes: seq<StoredNode>, edges: seq<CallEdge>, metric: CostMetric, net: Net, inc: seq<real>, m: Model, v: int)
    requires DistinctIds(nodes) && Explains(nodes, edges, metric, net, inc, m) && 0 <= v < |nodes|
    ensures nodes[v].id in m.externalInbound && nodes[v].id in m.inclusiveCost
    ensures m.externalInbound[nodes[v].id] > 0.0 ==>
              && Sum(Callers(nodes, m, nodes[v].id), AmountOf()) == m.inclusiveCost[nodes[v].id]
              && Sum(Callers(nodes, m, nodes[v].id), ShareOf()) == 1.0
    ensures m.externalInbound[nodes[v].id] <= 0.0 ==>
              && Sum(Callers(nodes, m, nodes[v].id), AmountOf()) == 0.0
              && Sum(Callers(nodes, m, nodes[v].id), ShareOf()) == 0.0
  {
    hide Explains, CallerFlows, Portion;
    PositionOfNode(nodes, v);
    ModelAt(nodes, edges, metric, net, inc, m, nodes[v].id);
    ModelEdgesAt(nodes, edges, metric, net, inc, m, v);
    ArcsToMembers(net.arcs, v);
    var arcs := ArcsTo(net.arcs, v);
    SumCallerFlows(nodes, edges, metric, net, inc, m, v, arcs);
    SumArcsTo(net.arcs, v, net.Amounts(inc), IntoNode(net, inc, v));
    CallersShareAll(net, inc, v);
    if net.Inbound(v) > 0.0 {
      CallerSharesSum(net, v);
    } else {
      SumZero(arcs, CallerShare(net, v));
    }
  }

  // ---------- the focal node's own balance ----------

  ghost function OwnPart(nodes: seq<StoredNode>, m: Model): int -> real {
    i => if 0 <= i < |nodes| then Get(m.selfCost, nodes[i].id, 0.0) + Sum(Callees(nodes, m, nodes[i].id), AmountOf()) else 0.0
  }

  lemma OwnPartIs(nodes: seq<StoredNode>, edges: seq<CallEdge>, metric: CostMetric, net: Net, inc: seq<real>, m: Model, i: int)
    requires DistinctIds(nodes) && Explains(nodes, edges, metric, net, inc, m) && 0 <= i < |nodes|
    ensures OwnPart(nodes, m)(i) == OwnShare(net, inc)(i)
  {
    hide Explains, Callees, Callers, Net.Condensed, Net.FlowEquations, Net.Total;
    PositionOfNode(nodes, i);
    ModelAt(nodes, edges, metric, net, inc, m, nodes[i].id);
    CalleeSums(nodes, edges, metric, net, inc, m, i);
    NetFacts(nodes, edges, metric, net, inc, m);
  }

  /**
   Over the members of a call cycle (or the one member of a trivial one), self cost plus callee
   amounts make up the inclusive cost each of them reports.
   */
  lemma CycleBreakdownBalances(nodes: seq<StoredNode>, edges: seq<CallEdge>, metric: CostMetric, net: Net, inc: seq<real>,
                               m: Model, v: int)
    requires DistinctIds(nodes) && Explains(nodes, edges, metric, net, inc, m) && 0 <= v < |nodes|
    ensures |net.comp| == |nodes| && nodes[v].id in m.inclusiveCost
    ensures Sum(MembersBelow(net.comp, |nodes|, net.Comp(v)), OwnPart(nodes, m)) == m.inclusiveCost[nodes[v].id]
  {
    hide Explains, Callees, OwnPart, OwnShare, MembersBelow, Sum;
    PositionOfNode(nodes, v);
    hide Position;
    ModelAt(nodes, edges, metric, net, inc, m, nodes[v].id);
    NetFacts(nodes, edges, metric, net, inc, m);
    var c := net.Comp(v);
    MembersMakeUpCost(net, inc, c);
    hide Net.FlowEquations, Net.Condensed;
    SumMembers(net.comp, |nodes|, c, OwnPart(nodes, m), InGroup(CompOf(net), OwnPart(nodes, m), c));
    forall i | i in Range(|nodes|) ensures OwnPart(nodes, m)(i) == OwnShare(net, inc)(i) {
      OwnPartIs(nodes, edges, metric, net, inc, m, i);
    }
    SumCongruent(Range(|nodes|), InGroup(CompOf(net), OwnPart(nodes, m), c), InGroup(CompOf(net), OwnShare(net, inc), c));
  }

  ghost function OthersPart(nodes: seq<StoredNode>, m: Model, v: int): int -> real {
    i => if i == v then 0.0 else OwnPart(nodes, m)(i)
  }

  lemma AloneHasNoOthers(net: Net, n: nat, v: int, f: int -> real)
    requires n == |net.comp| && 0 <= v < n && f(v) == 0.0
    requires |MembersBelow(net.comp, n, net.Comp(v))| == 1
    ensures Sum(MembersBelow(net.comp, n, net.Comp(v)), f) == 0.0
  {
    MembersAre(net.comp, n, net.Comp(v));
    assert MembersBelow(net.comp, n, net.Comp(v)) == [v];
    SumZero([v], f);
  }

  /** Splits a cycle's balance into the focal member's part and the rest. */
  lemma FocalBalance(nodes: seq<StoredNode>, edges: seq<CallEdge>, metric: CostMetric, net: Net, inc: seq<real>, m: Model, v: int)
    requires DistinctIds(nodes) && Explains(nodes, edges, metric, net, inc, m) && 0 <= v < |nodes| == |net.comp|
    ensures Get(m.inclusiveCost, nodes[v].id, 0.0) ==
            Get(m.selfCost, nodes[v].id, 0.0) + Sum(Callees(nodes, m, nodes[v].id), AmountOf())
            + Sum(MembersBelow(net.comp, |nodes|, net.Comp(v)), OthersPart(nodes, m, v))
  {
    hide Explains, Callees;
    CycleBreakdownBalances(nodes, edges, metric, net, inc, m, v);
    var members := MembersBelow(net.comp, |nodes|, net.Comp(v));
    MembersAre(net.comp, |nodes|, net.Comp(v));
    assert v in members;
    hide MembersBelow;
    SplitMember(members, v, OwnPart(nodes, m), OthersPart(nodes, m, v));
  }

  /** Self share plus callee shares of a node. */
  ghost function SharesOf(nodes: seq<StoredNode>, m: Model, id: string): real
    requires Get(m.inclusiveCost, id, 0.0) > 0.0
  {
    Get(m.selfCost, id, 0.0) / Get(m.inclusiveCost, id, 0.0) + Sum(Callees(nodes, m, id), ShareOf())
  }

  lemma SharesByAmounts(nodes: seq<StoredNode>, edges: seq<CallEdge>, metric: CostMetric, net: Net, inc: seq<real>, m: Model, v: int)
    requires DistinctIds(nodes) && Explains(nodes, edges, metric, net, inc, m) && 0 <= v < |nodes|
    requires Get(m.inclusiveCost, nodes[v].id, 0.0) > 0.0
    ensures SharesOf(nodes, m, nodes[v].id) == 1.0 <==>
            Get(m.selfCost, nodes[v].id, 0.0) + Sum(Callees(nodes, m, nodes[v].id), AmountOf()) == Get(m.inclusiveCost, nodes[v].id, 0.0)
  {
    hide Explains, Callees, Sum, ArcsFrom, MembersBelow, CalleeShare, Net.Amounts, Net.Inbound, FromNode;
    var id := nodes[v].id;
    PositionOfNode(nodes, v);
    hide Position;
    ModelAt(nodes, edges, metric, net, inc, m, id);
    CalleeSums(nodes, edges, metric, net, inc, m, v);
    var arcs := ArcsFrom(net.arcs, v);
    CalleeSharesScale(net, inc, v, arcs);
    var cost, self := Get(m.inclusiveCost, id, 0.0), Get(m.selfCost, id, 0.0);
    assert cost == Net.Cost(inc, net.Comp(v));
    hide Get, Sum, Net.Cost;
    SharesArithmetic(cost, self, Sum(arcs, CalleeShare(net, inc, v)), Sum(arcs, net.Amounts(inc)));
  }

  /** The shares of a costed node are complete exactly when the other members' parts cancel out. */
  lemma SharesByOthers(nodes: seq<StoredNode>, edges: seq<CallEdge>, metric: CostMetric, net: Net, inc: seq<real>,
                          m: Model, v: int)
    requires DistinctIds(nodes) && Explains(nodes, edges, metric, net, inc, m) && 0 <= v < |nodes| == |net.comp|
    requires Get(m.inclusiveCost, nodes[v].id, 0.0) > 0.0
    ensures SharesOf(nodes, m, nodes[v].id) == 1.0 <==>
            Sum(MembersBelow(net.comp, |nodes|, net.Comp(v)), OthersPart(nodes, m, v)) == 0.0
    ensures Get(m.cycleSize, nodes[v].id, 0) == 1 ==> SharesOf(nodes, m, nodes[v].id) == 1.0
  {
    SharesByAmounts(nodes, edges, metric, net, inc, m, v);
    FocalBalance(nodes, edges, metric, net, inc, m, v);
    hide SharesOf, Callees, Sum, Explains, MembersBelow;
    PositionOfNode(nodes, v);
    ModelAt(nodes, edges, metric, net, inc, m, nodes[v].id);
    if Get(m.cycleSize, nodes[v].id, 0) == 1 {
      AloneHasNoOthers(net, |nodes|, v, OthersPart(nodes, m, v));
    }
  }

  lemma OtherSign(nodes: seq<StoredNode>, edges: seq<CallEdge>, metric: CostMetric, net: Net, inc: seq<real>, m: Model, v: int, w: int)
    requires DistinctIds(nodes) && Explains(nodes, edges, metric, net, inc, m) && 0 <= w < |nodes| && net.NonNegative()
    ensures OthersPart(nodes, m, v)(w) >= 0.0
    ensures OthersPart(nodes, m, v)(w) == 0.0 <==> w == v || !Contributes(net, w)
  {
    assert w != v ==> OthersPart(nodes, m, v)(w) == OwnPart(nodes, m)(w);
    NetFacts(nodes, edges, metric, net, inc, m);
    OwnPartIs(nodes, edges, metric, net, inc, m, w);
    OwnShareSign(net, inc, w);
    hide *;
  }

  /** The other members' parts cancel out exactly when no other member contributes. */
  lemma OthersSign(nodes: seq<StoredNode>, edges: seq<CallEdge>, metric: CostMetric, net: Net, inc: seq<real>, m: Model, v: int)
    requires DistinctIds(nodes) && Explains(nodes, edges, metric, net, inc, m) && 0 <= v < |nodes| == |net.comp| && net.NonNegative()
    ensures Sum(MembersBelow(net.comp, |nodes|, net.Comp(v)), OthersPart(nodes, m, v)) == 0.0 <==>
            forall w :: 0 <= w < |nodes| && w != v && net.Comp(w) == net.Comp(v) ==> !Contributes(net, w)
  {
    hide Explains, OthersPart, Contributes, MembersBelow, Sum, Net.NonNegative, DistinctIds;
    var members, others := MembersBelow(net.comp, |nodes|, net.Comp(v)), OthersPart(nodes, m, v);
    MembersAre(net.comp, |nodes|, net.Comp(v));
    assert forall w :: w in members <==> 0 <= w < |nodes| && net.Comp(w) == net.Comp(v);
    hide *;
    forall w | w in members ensures others(w) >= 0.0 && (others(w) == 0.0 <==> w == v || !Contributes(net, w)) {
      OtherSign(nodes, edges, metric, net, inc, m, v, w);
    }
    SumZeroIff(members, others);
  }

  /**
   The self share and the callee shares of a node with cost sum to one exactly when no other member
   of its cycle has self cost or calls its way out of the cycle to some; in particular for every node
   outside cycles.
   */
  lemma SharesSumToOneIff(nodes: seq<StoredNode>, edges: seq<CallEdge>, metric: CostMetric, net: Net, inc: seq<real>,
                          m: Model, v: int)
    requires DistinctIds(nodes) && Explains(nodes, edges, metric, net, inc, m) && 0 <= v < |nodes|
    requires net.NonNegative() && Carries(net, net.Comp(v))
    ensures Get(m.inclusiveCost, nodes[v].id, 0.0) > 0.0
    ensures SharesOf(nodes, m, nodes[v].id) == 1.0 <==>
            forall w :: 0 <= w < |nodes| && w != v && net.Comp(w) == net.Comp(v) ==> !Contributes(net, w)
    ensures Get(m.cycleSize, nodes[v].id, 0) == 1 ==> SharesOf(nodes, m, nodes[v].id) == 1.0
  {
    hide Explains, SharesOf, OthersPart, MembersBelow, Contributes, Carries, Sum;
    NetFacts(nodes, edges, metric, net, inc, m);
    PositionOfNode(nodes, v);
    ModelAt(nodes, edges, metric, net, inc, m, nodes[v].id);
    CostIffCarries(net, inc, net.Comp(v));
    hide Net.Condensed, Net.FlowEquations, Position;
    SharesByOthers(nodes, edges, metric, net, inc, m, v);
    OthersSign(nodes, edges, metric, net, inc, m, v);
  }

  lemma SharesArithmetic(cost: real, self: real, shares: real, amounts: real)
    requires cost > 0.0 && shares * cost == amounts
    ensures self / cost + shares == 1.0 <==> self + amounts == cost
  {
    assert (self / cost + shares) * cost == self + amounts;
  }

  lemma {:induction false} SplitMember(xs: seq<int>, v: int, f: int -> real, others: int -> real)
    requires v in xs && forall i, j :: 0 <= i < j < |xs| ==> xs[i] < xs[j]
    requires others(v) == 0.0 && forall i :: i != v ==> others(i) == f(i)
    ensures Sum(xs, f) == f(v) + Sum(xs, others)
  {
    var rest, last := xs[..|xs| - 1], xs[|xs| - 1];
    if last == v {
      SumCongruent(rest, f, others);
    } else {
      SplitMember(rest, v, f, others);
    }
  }

  /** A call between components shows up with one amount, whether listed under its caller or under its callee. */
  lemma SameAmountFromBothEnds(nodes: seq<StoredNode>, edges: seq<CallEdge>, metric: CostMetric, net: Net, inc: seq<real>,
                               m: Model, a: CallArc)
    requires DistinctIds(nodes) && Explains(nodes, edges, metric, net, inc, m) && a in net.arcs && net.External(a)
    ensures a.from < |nodes| && a.to < |nodes|
    ensures var callee := CalleeFlow(nodes, m, nodes[a.from].id, EdgeAt(nodes, a));
            var caller := CallerFlow(nodes, m, nodes[a.to].id, EdgeAt(nodes, a));
            && |callee| == 1 && |caller| == 1 && callee[0].amount == caller[0].amount
            && callee[0].node == nodes[a.to] && caller[0].node == nodes[a.from]
  {
    NetFacts(nodes, edges, metric, net, inc, m);
    CalleeFlowIs(nodes, edges, metric, net, inc, m, a);
    CallerFlowIs(nodes, edges, metric, net, inc, m, a);
    hide Explains, CalleeFlow, CallerFlow, Portion;
  }

  // ---------- share of the total ----------

  /**
   The promised fraction: with non-negative costs and weights, the share of the total lies in [0, 1]
   for every node whose component cannot call its way into a cost-carrying cycle at two members.
   */
  lemma ShareIsFraction(nodes: seq<StoredNode>, edges: seq<CallEdge>, metric: CostMetric, net: Net, inc: seq<real>,
                        m: Model, v: int)
    requires DistinctIds(nodes) && Explains(nodes, edges, metric, net, inc, m) && 0 <= v < |nodes| && net.NonNegative()
    requires forall d :: EnteredTwice(net, net.Comp(v), d) ==> !Carries(net, d)
    ensures 0.0 <= ToCostRef(nodes[v], m).shareOfTotal <= 1.0
    ensures 0.0 <= ToCostRef(nodes[v], m).inclusiveCost <= m.totalSelf
  {
    hide Explains, EnteredTwice, Carries;
    PositionOfNode(nodes, v);
    hide Position;
    ModelAt(nodes, edges, metric, net, inc, m, nodes[v].id);
    NetFacts(nodes, edges, metric, net, inc, m);
    CostBounded(net, inc, net.Comp(v));
    var total, cost := m.totalSelf, Get(m.inclusiveCost, nodes[v].id, 0.0);
    assert 0.0 <= cost <= total;
    hide Net.Condensed, Net.FlowEquations, Net.NonNegative;
    if total > 0.0 {
      FractionBounds(cost, total);
    }
  }

  /** The `cyclic` flag marks exactly the nodes that lie on a call cycle through another node. */
  lemma CyclicIffOnCycle(nodes: seq<StoredNode>, edges: seq<CallEdge>, metric: CostMetric, net: Net, inc: seq<real>,
                         m: Model, v: int)
    requires DistinctIds(nodes) && Explains(nodes, edges, metric, net, inc, m) && 0 <= v < |nodes|
    ensures ToCostRef(nodes[v], m).cyclic <==> OnCycle(nodes, edges, nodes[v])
  {
    assert Numbering(Graph(nodes, edges), net.comp, net.count) && |net.comp| == |nodes|;
    hide Explains, Numbering, Graph, OnCycle;
    PositionOfNode(nodes, v);
    hide Position;
    ModelAt(nodes, edges, metric, net, inc, m, nodes[v].id);
    assert nodes[v] in nodes;
    OnCycleIffManyMembers(nodes, edges, net, nodes[v]);
  }

  lemma FractionBounds(x: real, y: real)
    requires 0.0 <= x <= y && y > 0.0
    ensures 0.0 <= x / y <= 1.0
  {
    assert (x / y) * y == x;
  }
}

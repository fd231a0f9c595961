/** computeCostModel of src/query/graph_query.ts, its loops proved to solve the flow equations. */
module CostModel {
  import opened Sums
  import opened CostFlow
  import opened CallGraph
  import opened StrongComponents

  datatype Model = Model(
    totalSelf: real,
    measuredNodes: nat,
    selfCost: map<string, real>,
    inclusiveCost: map<string, real>,
    componentOf: map<string, int>,
    cycleSize: map<string, nat>,
    externalInbound: map<string, real>,
    outEdges: map<string, seq<CallEdge>>,
    inEdges: map<string, seq<CallEdge>>)

  /** Map lookup with a default. */
  function Get<V>(m: map<string, V>, id: string, default: V): V {
    if id in m then m[id] else default
  }

  ghost function NetOf(nodes: seq<StoredNode>, edges: seq<CallEdge>, metric: CostMetric, comp: seq<int>, count: nat): Net {
    Net(seq(|nodes|, i requires 0 <= i < |nodes| => RuntimeValue(nodes[i], metric)), NetArcs(nodes, edges), comp, count)
  }

  lemma NumberedNetIsCondensed(nodes: seq<StoredNode>, edges: seq<CallEdge>, metric: CostMetric, comp: seq<int>, count: nat)
    requires Numbering(Graph(nodes, edges), comp, count)
    ensures NetOf(nodes, edges, metric, comp, count).Condensed()
  {
    var net := NetOf(nodes, edges, metric, comp, count);
    NetArcsFromEdges(nodes, edges);
    SuccessorArcs(net.arcs, |nodes|);
    forall a | a in net.arcs
      ensures net.Comp(a.to) <= net.Comp(a.from)
    {
      ArcsFromMembers(net.arcs, a.from);
      var k :| 0 <= k < |ArcsFrom(net.arcs, a.from)| && ArcsFrom(net.arcs, a.from)[k] == a;
      assert Graph(nodes, edges)[a.from][k] == a.to;
    }
  }

  // ---------- grouping ----------

  /** The positions below `n` numbered `c`, in order. */
  ghost function MembersBelow(comp: seq<int>, n: nat, c: int): seq<int>
    requires n <= |comp|
  {
    if n == 0 then [] else MembersBelow(comp, n - 1, c) + if comp[n - 1] == c then [n - 1] else []
  }

  lemma {:induction false} MembersAre(comp: seq<int>, n: nat, c: int)
    requires n <= |comp|
    ensures forall v :: v in MembersBelow(comp, n, c) <==> 0 <= v < n && comp[v] == c
    ensures forall i, j :: 0 <= i < j < |MembersBelow(comp, n, c)| ==> MembersBelow(comp, n, c)[i] < MembersBelow(comp, n, c)[j]
  {
    if n > 0 {
      MembersAre(comp, n - 1, c);
      var before := MembersBelow(comp, n - 1, c);
      assert forall i :: 0 <= i < |before| ==> before[i] in before;
    }
  }

  lemma {:induction false} SumMembers(comp: seq<int>, n: nat, c: int, f: int -> real, g: int -> real)
    requires n <= |comp| && forall v :: 0 <= v < n ==> g(v) == if comp[v] == c then f(v) else 0.0
    ensures Sum(MembersBelow(comp, n, c), f) == Sum(Range(n), g)
  {
    if n > 0 {
      SumMembers(comp, n - 1, c, f, g);
      SumRangeStep(n - 1, g);
      if comp[n - 1] == c {
        SumAppend(MembersBelow(comp, n - 1, c), n - 1, f);
      } else {
        assert MembersBelow(comp, n, c) == MembersBelow(comp, n - 1, c);
      }
    }
  }

  /** Size, self cost and member list of every component. */
  method GroupByComponent(ghost net: Net, self: seq<real>, componentOf: seq<int>, componentCount: nat)
    returns (componentSize: seq<nat>, selfByComponent: seq<real>, members: seq<seq<int>>)
    requires net.Condensed() && net.self == self && net.comp == componentOf && net.count == componentCount
    ensures |componentSize| == |selfByComponent| == |members| == componentCount
    ensures forall c :: 0 <= c < componentCount ==>
              && members[c] == MembersBelow(componentOf, |componentOf|, c)
              && componentSize[c] == |members[c]|
              && selfByComponent[c] == net.SelfIn(c)
  {
    var sizes := new nat[componentCount](_ => 0);
    var selfs := new real[componentCount](_ => 0.0);
    var lists := new seq<int>[componentCount](_ => []);
    for i := 0 to |self|
      invariant forall c :: 0 <= c < componentCount ==>
                  && lists[c] == MembersBelow(componentOf, i, c)
                  && sizes[c] == |lists[c]|
                  && selfs[c] == Sum(Range(i), net.SelfTerm(c))
    {
      var comp := componentOf[i];
      forall c | 0 <= c < componentCount
        ensures Sum(Range(i + 1), net.SelfTerm(c)) == Sum(Range(i), net.SelfTerm(c)) + if c == comp then self[i] else 0.0
      {
        SumRangeStep(i, net.SelfTerm(c));
      }
      sizes[comp] := sizes[comp] + 1;
      selfs[comp] := selfs[comp] + self[i];
      lists[comp] := lists[comp] + [i];
    }
    componentSize, selfByComponent, members := sizes[..], selfs[..], lists[..];
  }

  /** Weight of the calls into each node from outside its component. */
  method ExternalInbound(ghost net: Net, componentOf: seq<int>, inEdges: seq<seq<CallArc>>) returns (externalInbound: seq<real>)
    requires net.Condensed() && net.comp == componentOf && |inEdges| == |componentOf|
    requires forall v :: 0 <= v < |inEdges| ==> inEdges[v] == ArcsTo(net.arcs, v)
    ensures |externalInbound| == |componentOf|
    ensures forall v :: 0 <= v < |componentOf| ==> externalInbound[v] == net.Inbound(v)
  {
    hide Sum;
    var inbound := new real[|componentOf|](_ => 0.0);
    for to := 0 to |componentOf|
      invariant forall v :: 0 <= v < to ==> inbound[v] == net.Inbound(v)
      invariant forall v :: to <= v < |componentOf| ==> inbound[v] == 0.0
    {
      var weight := InboundOf(net, componentOf, inEdges[to], to);
      inbound[to] := weight;
    }
    externalInbound := inbound[..];
  }

  /** Weight of the calls into one node from outside its component. */
  method InboundOf(ghost net: Net, componentOf: seq<int>, inEdges: seq<CallArc>, to: nat) returns (inbound: real)
    requires net.Condensed() && net.comp == componentOf && to < |componentOf| && inEdges == ArcsTo(net.arcs, to)
    ensures inbound == net.Inbound(to)
  {
    ArcsToMembers(net.arcs, to);
    ghost var term := net.InboundTerm(to);
    inbound := 0.0;
    assert Sum(inEdges[..0], term) == 0.0;
    for j := 0 to |inEdges|
      invariant inbound == Sum(inEdges[..j], term)
    {
      hide Sum, ArcsTo;
      var edge := inEdges[j];
      assert edge in inEdges;
      SumPrefix(inEdges, j, term);
      if componentOf[edge.from] != componentOf[to] {
        inbound := inbound + edge.count;
      }
    }
    assert inEdges[..|inEdges|] == inEdges;
    SumArcsTo(net.arcs, to, term, term);
  }

  // ---------- propagation ----------

  /** Flow out of one node's calls. */
  ghost function NodeFlow(net: Net, inc: seq<real>): int -> real {
    v => Sum(ArcsFrom(net.arcs, v), net.Amounts(inc))
  }

  lemma MembersFlow(net: Net, inc: seq<real>, c: int)
    requires net.Condensed()
    ensures Sum(MembersBelow(net.comp, |net.comp|, c), NodeFlow(net, inc)) == net.FlowInto(inc, c)
  {
    var n := |net.self|;
    var flow := InGroup(net.CallerComp(), net.Amounts(inc), c);
    var caller: CallArc -> int := (a: CallArc) => a.from;
    var byNode: int -> real := v => if net.Comp(v) == c then NodeFlow(net, inc)(v) else 0.0;
    forall v | 0 <= v < n
      ensures byNode(v) == Sum(net.arcs, InGroup(caller, flow, v))
    {
      if net.Comp(v) == c {
        assert net.Comp(v) == c;
        SumArcsFrom(net.arcs, v, net.Amounts(inc), InGroup(caller, flow, v));
        assert byNode(v) == NodeFlow(net, inc)(v);
      } else {
        SumZero(net.arcs, InGroup(caller, flow, v));
      }
    }
    SumByGroup(net.arcs, n, caller, flow, byNode);
    SumMembers(net.comp, n, c, NodeFlow(net, inc), byNode);
  }

  /** What the propagation loops read: condensed arcs, their lists, members and inbound weights. */
  ghost predicate Prepared(net: Net, members: seq<seq<int>>, selfByComponent: seq<real>,
                           outEdges: seq<seq<CallArc>>, externalInbound: seq<real>)
  {
    && net.Condensed()
    && |members| == |selfByComponent| == net.count && |outEdges| == |externalInbound| == |net.comp|
    && (forall c :: 0 <= c < net.count ==>
          members[c] == MembersBelow(net.comp, |net.comp|, c) && selfByComponent[c] == net.SelfIn(c))
    && (forall u :: 0 <= u < |net.comp| ==>
          outEdges[u] == ArcsFrom(net.arcs, u) && externalInbound[u] == net.Inbound(u))
  }

  /** What one member's calls out of component `comp` hand it. */
  method FlowOfMember(ghost net: Net, componentOf: seq<int>, comp: int, inc: array<real>,
                      outEdges: seq<CallArc>, externalInbound: seq<real>, ghost member: int)
    returns (flow: real)
    requires net.Condensed() && net.comp == componentOf && inc.Length == net.count
    requires 0 <= member < |componentOf| && componentOf[member] == comp && outEdges == ArcsFrom(net.arcs, member)
    requires |externalInbound| == |componentOf|
    requires forall u :: 0 <= u < |componentOf| ==> externalInbound[u] == net.Inbound(u)
    ensures flow == NodeFlow(net, inc[..])(member)
  {
    ArcsFromMembers(net.arcs, member);
    flow := 0.0;
    ghost var costs := inc[..];
    ghost var amounts := net.Amounts(costs);
    hide Portion, ArcsFrom;
    for j := 0 to |outEdges|
      invariant flow == Sum(outEdges[..j], amounts)
    {
      var edge := outEdges[j];
      assert edge in outEdges && edge in net.arcs && edge.from == member;
      SumPrefix(outEdges, j, amounts);
      var target := componentOf[edge.to];
      if target == comp {
        continue;
      }
      assert Net.Cost(costs, target) == inc[target];
      flow := flow + Portion(inc[target], edge.count, externalInbound[edge.to]);
    }
    assert outEdges[..|outEdges|] == outEdges;
  }

  /** Inclusive cost of component `comp`, read off the costs of the components it calls. */
  method InclusiveOf(ghost net: Net, componentOf: seq<int>, comp: nat, members: seq<seq<int>>,
                     selfByComponent: seq<real>, outEdges: seq<seq<CallArc>>, externalInbound: seq<real>, inc: array<real>)
    returns (inclusive: real)
    requires Prepared(net, members, selfByComponent, outEdges, externalInbound)
    requires net.comp == componentOf && comp < net.count == inc.Length
    ensures inclusive == net.SelfIn(comp) + net.FlowInto(inc[..], comp)
  {
    inclusive := selfByComponent[comp];
    MembersAre(componentOf, |componentOf|, comp);
    ghost var flows := NodeFlow(net, inc[..]);
    for m := 0 to |members[comp]|
      invariant inclusive == net.SelfIn(comp) + Sum(members[comp][..m], flows)
    {
      var member := members[comp][m];
      assert member in members[comp];
      SumPrefix(members[comp], m, flows);
      var flow := FlowOfMember(net, componentOf, comp, inc, outEdges[member], externalInbound, member);
      inclusive := inclusive + flow;
    }
    assert members[comp][..|members[comp]|] == members[comp];
    MembersFlow(net, inc[..], comp);
  }

  /** Components in number order, each reading the final costs of the components it calls. */
  method Propagate(ghost net: Net, componentOf: seq<int>, componentCount: nat, members: seq<seq<int>>,
                   selfByComponent: seq<real>, outEdges: seq<seq<CallArc>>, externalInbound: seq<real>)
    returns (inclusiveByComponent: seq<real>)
    requires Prepared(net, members, selfByComponent, outEdges, externalInbound)
    requires net.comp == componentOf && net.count == componentCount
    ensures net.FlowEquations(inclusiveByComponent)
  {
    var inc := new real[componentCount](_ => 0.0);
    for comp := 0 to componentCount
      invariant forall c :: 0 <= c < comp ==> inc[c] == net.SelfIn(c) + net.FlowInto(inc[..], c)
    {
      ghost var costs := inc[..];
      var inclusive := InclusiveOf(net, componentOf, comp, members, selfByComponent, outEdges, externalInbound, inc);
      inc[comp] := inclusive;
      forall c | 0 <= c <= comp
        ensures net.FlowInto(inc[..], c) == net.FlowInto(costs, c)
      {
        FlowReadsBelow(net, costs, inc[..], c);
      }
    }
    inclusiveByComponent := inc[..];
  }

  // ---------- the model by node id ----------

  /** `m` records `f` of every node below `n`, under its id. */
  ghost predicate Keyed<V>(nodes: seq<StoredNode>, n: nat, m: map<string, V>, f: int -> V)
    requires n <= |nodes|
  {
    && (forall id :: id in m <==> exists i :: 0 <= i < n && nodes[i].id == id)
    && (forall i {:trigger m[nodes[i].id]} :: 0 <= i < n ==> nodes[i].id in m && m[nodes[i].id] == f(i))
  }

  lemma KeyedStep<V>(nodes: seq<StoredNode>, n: nat, m: map<string, V>, f: int -> V)
    requires DistinctIds(nodes) && n < |nodes| && Keyed(nodes, n, m, f)
    ensures Keyed(nodes, n + 1, m[nodes[n].id := f(n)], f)
  {
    var m' := m[nodes[n].id := f(n)];
    forall id | id in m' ensures exists i :: 0 <= i < n + 1 && nodes[i].id == id {
      if id in m {
        var i :| 0 <= i < n && nodes[i].id == id;
      } else {
        assert nodes[n].id == id;
      }
    }
  }

  function EdgeAt(nodes: seq<StoredNode>, a: CallArc): CallEdge {
    CallEdge(if a.from < |nodes| then nodes[a.from].id else "", if a.to < |nodes| then nodes[a.to].id else "", a.count)
  }

  function EdgesAt(nodes: seq<StoredNode>, arcs: seq<CallArc>): seq<CallEdge> {
    seq(|arcs|, k requires 0 <= k < |arcs| => EdgeAt(nodes, arcs[k]))
  }

  ghost function SizeAt(net: Net): int -> nat {
    i => |MembersBelow(net.comp, |net.comp|, net.Comp(i))|
  }

  ghost function InclusiveAt(net: Net, inc: seq<real>): int -> real {
    i => Net.Cost(inc, net.Comp(i))
  }

  ghost function InboundAt(net: Net): int -> real {
    i => net.Inbound(i)
  }

  ghost function OutEdgesAt(nodes: seq<StoredNode>, net: Net): int -> seq<CallEdge> {
    i => EdgesAt(nodes, ArcsFrom(net.arcs, i))
  }

  ghost function InEdgesAt(nodes: seq<StoredNode>, net: Net): int -> seq<CallEdge> {
    i => EdgesAt(nodes, ArcsTo(net.arcs, i))
  }

  ghost function MeasuredBelow(nodes: seq<StoredNode>, n: nat): set<int> {
    set i | 0 <= i < n && i < |nodes| && HasRuntime(nodes[i])
  }

  /** `m` holds the results for the nodes below `n`. */
  ghost predicate Recorded(nodes: seq<StoredNode>, n: nat, net: Net, inc: seq<real>, m: Model)
    requires n <= |nodes|
  {
    && m.totalSelf == Sum(Range(n), net.Selfs())
    && m.measuredNodes == |MeasuredBelow(nodes, n)|
    && Keyed(nodes, n, m.selfCost, net.Selfs())
    && Keyed(nodes, n, m.inclusiveCost, InclusiveAt(net, inc))
    && Keyed(nodes, n, m.componentOf, CompOf(net))
    && Keyed(nodes, n, m.cycleSize, SizeAt(net))
    && Keyed(nodes, n, m.externalInbound, InboundAt(net))
    && Keyed(nodes, n, m.outEdges, OutEdgesAt(nodes, net))
    && Keyed(nodes, n, m.inEdges, InEdgesAt(nodes, net))
  }

  lemma MeasuredStep(nodes: seq<StoredNode>, n: nat)
    requires n < |nodes|
    ensures |MeasuredBelow(nodes, n + 1)| == |MeasuredBelow(nodes, n)| + if HasRuntime(nodes[n]) then 1 else 0
  {
    assert MeasuredBelow(nodes, n + 1) == MeasuredBelow(nodes, n) + if HasRuntime(nodes[n]) then {n as int} else {};
  }

  lemma RecordStep(nodes: seq<StoredNode>, n: nat, net: Net, inc: seq<real>, m: Model)
    requires DistinctIds(nodes) && n < |nodes| && Recorded(nodes, n, net, inc, m)
    ensures Recorded(nodes, n + 1, net, inc, RecordNode(
      nodes, m, nodes[n], net.Self(n), InclusiveAt(net, inc)(n), net.Comp(n), SizeAt(net)(n), net.Inbound(n),
      OutEdgesAt(nodes, net)(n), InEdgesAt(nodes, net)(n)))
  {
    SumRangeStep(n, net.Selfs());
    hide Keyed, MembersBelow, ArcsFrom, ArcsTo, EdgesAt;
    MeasuredStep(nodes, n);
    hide MeasuredBelow;
    KeyedStep(nodes, n, m.selfCost, net.Selfs());
    KeyedStep(nodes, n, m.inclusiveCost, InclusiveAt(net, inc));
    KeyedStep(nodes, n, m.componentOf, CompOf(net));
    KeyedStep(nodes, n, m.cycleSize, SizeAt(net));
    KeyedStep(nodes, n, m.externalInbound, InboundAt(net));
    KeyedStep(nodes, n, m.outEdges, OutEdgesAt(nodes, net));
    KeyedStep(nodes, n, m.inEdges, InEdgesAt(nodes, net));
  }

  lemma RecordNone(nodes: seq<StoredNode>, net: Net, inc: seq<real>)
    ensures Recorded(nodes, 0, net, inc, Model(0.0, 0, map[], map[], map[], map[], map[], map[], map[]))
  {
    assert MeasuredBelow(nodes, 0) == {};
  }

  /** The net and the costs that a model was computed from. */
  ghost predicate Explains(nodes: seq<StoredNode>, edges: seq<CallEdge>, metric: CostMetric, net: Net, inc: seq<real>, m: Model) {
    && net == NetOf(nodes, edges, metric, net.comp, net.count)
    && Numbering(Graph(nodes, edges), net.comp, net.count)
    && net.FlowEquations(inc)
    && Recorded(nodes, |nodes|, net, inc, m)
  }

  /** The model is that of some callees-first numbering and the costs that solve its flow equations. */
  ghost predicate Explained(nodes: seq<StoredNode>, edges: seq<CallEdge>, metric: CostMetric, m: Model) {
    exists net, inc :: Explains(nodes, edges, metric, net, inc, m)
  }

  lemma ExplainedByNet(nodes: seq<StoredNode>, edges: seq<CallEdge>, metric: CostMetric, net: Net, inc: seq<real>, m: Model)
    requires Explains(nodes, edges, metric, net, inc, m)
    ensures Explained(nodes, edges, metric, m)
  {
    hide Explains;
  }

  /** Enters one node's results under its id. */
  function RecordNode(nodes: seq<StoredNode>, model: Model, node: StoredNode, self: real, inclusive: real, comp: int,
                      size: nat, inbound: real, outs: seq<CallEdge>, ins: seq<CallEdge>): Model
  {
    Model(
      model.totalSelf + self, model.measuredNodes + if HasRuntime(node) then 1 else 0,
      model.selfCost[node.id := self], model.inclusiveCost[node.id := inclusive],
      model.componentOf[node.id := comp], model.cycleSize[node.id := size],
      model.externalInbound[node.id := inbound],
      model.outEdges[node.id := outs], model.inEdges[node.id := ins])
  }

  /** The closing loop: everything by node id. */
  method RecordModel(nodes: seq<StoredNode>, ghost net: Net, self: seq<real>, componentOf: seq<int>,
                     componentSize: seq<nat>, inclusiveByComponent: seq<real>, externalInbound: seq<real>,
                     outEdges: seq<seq<CallArc>>, inEdges: seq<seq<CallArc>>)
    returns (model: Model)
    requires DistinctIds(nodes) && net.self == self && net.comp == componentOf && |self| == |nodes| == |componentOf|
    requires |componentSize| == |inclusiveByComponent| == net.count
    requires forall i :: 0 <= i < |componentOf| ==> 0 <= componentOf[i] < net.count
    requires |externalInbound| == |outEdges| == |inEdges| == |nodes|
    requires forall c :: 0 <= c < net.count ==> componentSize[c] == |MembersBelow(net.comp, |net.comp|, c)|
    requires forall i :: 0 <= i < |nodes| ==>
               && externalInbound[i] == net.Inbound(i)
               && outEdges[i] == ArcsFrom(net.arcs, i) && inEdges[i] == ArcsTo(net.arcs, i)
    ensures Recorded(nodes, |nodes|, net, inclusiveByComponent, model)
  {
    model := Model(0.0, 0, map[], map[], map[], map[], map[], map[], map[]);
    RecordNone(nodes, net, inclusiveByComponent);
    for i := 0 to |nodes|
      invariant Recorded(nodes, i, net, inclusiveByComponent, model)
    {
      hide Recorded, RecordNode, MembersBelow, ArcsFrom, ArcsTo, EdgesAt;
      var comp := componentOf[i];
      RecordStep(nodes, i, net, inclusiveByComponent, model);
      model := RecordNode(nodes, model, nodes[i], self[i], inclusiveByComponent[comp], comp, componentSize[comp],
                          externalInbound[i], EdgesAt(nodes, outEdges[i]), EdgesAt(nodes, inEdges[i]));
    }
  }

  /** The propagated cost model of a graph, in one pass over components numbered callees first. */
  method ComputeCostModel(nodes: seq<StoredNode>, edges: seq<CallEdge>, metric: CostMetric)
    returns (model: Model, ghost net: Net, ghost inc: seq<real>)
    requires DistinctIds(nodes)
    ensures Explained(nodes, edges, metric, model)
    ensures Explains(nodes, edges, metric, net, inc, model)
  {
    var self := seq(|nodes|, i requires 0 <= i < |nodes| => RuntimeValue(nodes[i], metric));
    var successors, outEdges, inEdges := BuildAdjacency(nodes, edges);
    NetArcsFromEdges(nodes, edges);
    SuccessorArcs(NetArcs(nodes, edges), |nodes|);
    var componentOf, componentCount := StronglyConnectedComponents(successors);
    net := NetOf(nodes, edges, metric, componentOf, componentCount);
    NumberedNetIsCondensed(nodes, edges, metric, componentOf, componentCount);
    var componentSize, selfByComponent, members := GroupByComponent(net, self, componentOf, componentCount);
    var externalInbound := ExternalInbound(net, componentOf, inEdges);
    var inclusiveByComponent := Propagate(net, componentOf, componentCount, members, selfByComponent, outEdges, externalInbound);
    inc := inclusiveByComponent;
    model := RecordModel(nodes, net, self, componentOf, componentSize, inclusiveByComponent,
                         externalInbound, outEdges, inEdges);
    assert Explains(nodes, edges, metric, net, inc, model);
    hide *;
    ExplainedByNet(nodes, edges, metric, net, inc, model);
  }
}

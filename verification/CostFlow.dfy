/**
 The arithmetic of cost propagation over a condensed call graph (src/query/graph_query.ts,
 computeCostModel), apart from how the numbers are computed: the flow equations, what they
 conserve, when shares stay within [0, 1], and that they have one solution.
 */
module CostFlow {
  import opened Paths
  import opened Sums

  /** The part of `cost` that a call of weight `count` takes out of a total inbound weight. */
  function Portion(cost: real, count: real, inbound: real): real {
    if inbound > 0.0 then cost * count / inbound else 0.0
  }

  /** A decoded call edge between node positions, self-edges and unknown endpoints already dropped. */
  datatype CallArc = CallArc(from: nat, to: nat, count: real)

  /** Self costs, call arcs, and a component number for every node. */
  datatype Net = Net(self: seq<real>, arcs: seq<CallArc>, comp: seq<int>, count: nat)
  {
    ghost function Comp(v: int): int {
      if 0 <= v < |comp| then comp[v] else -1
    }

    ghost function Self(v: int): real {
      if 0 <= v < |self| then self[v] else 0.0
    }

    /** The arc joins two components. */
    ghost predicate External(a: CallArc) {
      Comp(a.from) != Comp(a.to)
    }

    /** Component numbers are in range and never go up along an arc. */
    ghost predicate Condensed() {
      && |comp| == |self|
      && (forall v :: 0 <= v < |comp| ==> 0 <= comp[v] < count)
      && (forall a :: a in arcs ==> a.from < |self| && a.to < |self| && Comp(a.to) <= Comp(a.from))
    }

    ghost predicate NonNegative() {
      && (forall v :: 0 <= v < |self| ==> self[v] >= 0.0)
      && (forall a :: a in arcs ==> a.count >= 0.0)
    }

    ghost function Selfs(): int -> real {
      v => Self(v)
    }

    /** Total self cost. */
    ghost function Total(): real {
      Sum(Range(|self|), Selfs())
    }

    ghost function SelfTerm(c: int): int -> real {
      v => if Comp(v) == c then Self(v) else 0.0
    }

    /** Self cost of a component. */
    ghost function SelfIn(c: int): real {
      Sum(Range(|self|), SelfTerm(c))
    }

    ghost function InboundTerm(v: int): CallArc -> real {
      (a: CallArc) => if a.to == v && External(a) then a.count else 0.0
    }

    /** Weight of the calls into `v` from outside its component. */
    ghost function Inbound(v: int): real {
      Sum(arcs, InboundTerm(v))
    }

    /** A component's cost, 0 for numbers out of range. */
    static ghost function Cost(inc: seq<real>, c: int): real {
      if 0 <= c < |inc| then inc[c] else 0.0
    }

    /** What the arc hands from its callee's component to its caller's. */
    ghost function Amount(inc: seq<real>, a: CallArc): real {
      if External(a) then Portion(Cost(inc, Comp(a.to)), a.count, Inbound(a.to)) else 0.0
    }

    ghost function Amounts(inc: seq<real>): CallArc -> real {
      (a: CallArc) => Amount(inc, a)
    }

    ghost function CallerComp(): CallArc -> int {
      (a: CallArc) => Comp(a.from)
    }

    /** Everything a component receives from the components it calls. */
    ghost function FlowInto(inc: seq<real>, c: int): real {
      Sum(arcs, InGroup(CallerComp(), Amounts(inc), c))
    }

    /** Inclusive cost is self cost plus what the callees' components hand over. */
    ghost predicate FlowEquations(inc: seq<real>) {
      && |inc| == count
      && forall c :: 0 <= c < count ==> inc[c] == SelfIn(c) + FlowInto(inc, c)
    }

    ghost function HeadTerm(c: int): int -> real {
      v => if Comp(v) == c && Inbound(v) > 0.0 then 1.0 else 0.0
    }

    /** Number of members of `c` that are called from outside with positive weight. */
    ghost function Heads(c: int): real {
      Sum(Range(|self|), HeadTerm(c))
    }
  }

  // ---------- what leaves a node ----------

  ghost function IntoNode(net: Net, inc: seq<real>, v: int): CallArc -> real {
    (a: CallArc) => if a.to == v then net.Amount(inc, a) else 0.0
  }

  lemma ShareOfRate(cost: real, count: real, inbound: real)
    requires inbound > 0.0
    ensures cost * count / inbound == (cost / inbound) * count
  {
  }

  lemma RateOfAll(cost: real, inbound: real)
    requires inbound > 0.0
    ensures (cost / inbound) * inbound == cost
  {
  }

  /** An arc into `v` hands over its weight's share of `v`'s cost. */
  lemma IntoNodeIsShare(net: Net, inc: seq<real>, v: int, a: CallArc)
    requires net.Inbound(v) > 0.0
    ensures IntoNode(net, inc, v)(a) == (Net.Cost(inc, net.Comp(v)) / net.Inbound(v)) * net.InboundTerm(v)(a)
  {
    hide Net.Inbound, Net.Comp, Net.Cost;
    if a.to == v && net.External(a) {
      ShareOfRate(Net.Cost(inc, net.Comp(v)), a.count, net.Inbound(v));
    }
  }

  /** The callers of a node with positive inbound weight share out exactly its component's cost. */
  lemma CallersShareAll(net: Net, inc: seq<real>, v: int)
    ensures Sum(net.arcs, IntoNode(net, inc, v)) == if net.Inbound(v) > 0.0 then Net.Cost(inc, net.Comp(v)) else 0.0
  {
    var inbound := net.Inbound(v);
    assert inbound == Sum(net.arcs, net.InboundTerm(v));
    hide Net.Inbound, Net.Cost, Sum;
    if inbound > 0.0 {
      var rate := Net.Cost(inc, net.Comp(v)) / inbound;
      var into, term := IntoNode(net, inc, v), net.InboundTerm(v);
      forall a | a in net.arcs ensures into(a) == rate * term(a) {
        IntoNodeIsShare(net, inc, v, a);
      }
      hide *;
      SumScale(net.arcs, rate, term, into);
      RateOfAll(Net.Cost(inc, net.Comp(v)), inbound);
    } else {
      SumZero(net.arcs, IntoNode(net, inc, v));
    }
  }

  ghost function CalleeNode(): CallArc -> int {
    (a: CallArc) => a.to
  }

  ghost function CompOf(net: Net): int -> int {
    v => net.Comp(v)
  }

  ghost function HeadCostOf(net: Net, inc: seq<real>): int -> real {
    c => Net.Cost(inc, c) * net.Heads(c)
  }

  /** The member is called from outside with positive weight. */
  ghost predicate Head(net: Net, c: int, v: int) {
    net.Comp(v) == c && net.Inbound(v) > 0.0
  }

  ghost function CalleeComp(net: Net): CallArc -> int {
    (a: CallArc) => net.Comp(a.to)
  }

  ghost function ByCalleeNode(net: Net, inc: seq<real>, d: int): int -> real {
    v => if Head(net, d, v) then Net.Cost(inc, d) else 0.0
  }

  /** What one node's callers take out of component `d`. */
  lemma HandedByNode(net: Net, inc: seq<real>, d: int, v: int)
    ensures ByCalleeNode(net, inc, d)(v) == Sum(net.arcs, InGroup(CalleeNode(), InGroup(CalleeComp(net), net.Amounts(inc), d), v))
  {
    hide Net.Amount, Net.Inbound, Sum;
    var ofD := InGroup(CalleeComp(net), net.Amounts(inc), d);
    if net.Comp(v) == d {
      CallersShareAll(net, inc, v);
      SumCongruent(net.arcs, IntoNode(net, inc, v), InGroup(CalleeNode(), ofD, v));
    } else {
      SumZero(net.arcs, InGroup(CalleeNode(), ofD, v));
    }
  }

  lemma ByNodeIsScaled(net: Net, inc: seq<real>, d: int, v: int)
    ensures ByCalleeNode(net, inc, d)(v) == Net.Cost(inc, d) * net.HeadTerm(d)(v)
  {
    hide Net.Inbound, Net.Cost;
  }

  lemma ByNodeSums(net: Net, inc: seq<real>, d: int)
    ensures Sum(Range(|net.self|), ByCalleeNode(net, inc, d)) == Net.Cost(inc, d) * net.Heads(d)
  {
    assert net.Heads(d) == Sum(Range(|net.self|), net.HeadTerm(d));
    hide *;
    var cost, heads, byNode := Net.Cost(inc, d), net.HeadTerm(d), ByCalleeNode(net, inc, d);
    forall v | v in Range(|net.self|) ensures byNode(v) == cost * heads(v) {
      ByNodeIsScaled(net, inc, d, v);
    }
    SumScale(Range(|net.self|), cost, heads, byNode);
  }

  /** All that component `d` hands out is its cost times the number of its members called from outside. */
  lemma HandedFrom(net: Net, inc: seq<real>, d: int)
    requires net.Condensed()
    ensures Sum(net.arcs, InGroup(CalleeComp(net), net.Amounts(inc), d)) == Net.Cost(inc, d) * net.Heads(d)
  {
    forall v | 0 <= v < |net.self|
      ensures ByCalleeNode(net, inc, d)(v) == Sum(net.arcs, InGroup(CalleeNode(), InGroup(CalleeComp(net), net.Amounts(inc), d), v))
    {
      HandedByNode(net, inc, d, v);
    }
    hide Net.Amount, Net.Inbound, Net.Cost, Net.Heads, ByCalleeNode, Sum;
    SumByGroup(net.arcs, |net.self|, CalleeNode(), InGroup(CalleeComp(net), net.Amounts(inc), d), ByCalleeNode(net, inc, d));
    ByNodeSums(net, inc, d);
  }

  /** All the cost handed along arcs: each component's cost, once per member called from outside. */
  lemma HandedOutByComponent(net: Net, inc: seq<real>)
    requires net.Condensed()
    ensures Sum(net.arcs, net.Amounts(inc)) == Sum(Range(net.count), HeadCostOf(net, inc))
  {
    forall d | 0 <= d < net.count
      ensures HeadCostOf(net, inc)(d) == Sum(net.arcs, InGroup(CalleeComp(net), net.Amounts(inc), d))
    {
      HandedFrom(net, inc, d);
    }
    hide Net.Amount, Net.Inbound, Net.Heads, Net.Cost, Sum;
    SumByGroup(net.arcs, net.count, CalleeComp(net), net.Amounts(inc), HeadCostOf(net, inc));
  }

  // ---------- conservation ----------

  ghost function CostOf(inc: seq<real>): int -> real {
    c => Net.Cost(inc, c)
  }

  ghost function NetCostOf(net: Net, inc: seq<real>): int -> real {
    c => Net.Cost(inc, c) * (1.0 - net.Heads(c))
  }

  ghost function SelfInOf(net: Net): int -> real {
    c => net.SelfIn(c)
  }

  lemma SelfByComponent(net: Net)
    requires net.Condensed()
    ensures Sum(Range(net.count), SelfInOf(net)) == net.Total()
  {
    forall c | 0 <= c < net.count
      ensures SelfInOf(net)(c) == Sum(Range(|net.self|), InGroup(CompOf(net), net.Selfs(), c))
    {
      SumCongruent(Range(|net.self|), net.SelfTerm(c), InGroup(CompOf(net), net.Selfs(), c));
    }
    SumByGroup(Range(|net.self|), net.count, CompOf(net), net.Selfs(), SelfInOf(net));
  }

  ghost function FlowIntoOf(net: Net, inc: seq<real>): int -> real {
    c => net.FlowInto(inc, c)
  }

  /**
   Conservation, for every graph and any costs and weights: counting each component's inclusive
   cost once, less once for every member called from outside, gives the total self cost.
   */
  lemma Conservation(net: Net, inc: seq<real>)
    requires net.Condensed() && net.FlowEquations(inc)
    ensures Sum(Range(net.count), NetCostOf(net, inc)) == net.Total()
  {
    SumByGroup(net.arcs, net.count, net.CallerComp(), net.Amounts(inc), FlowIntoOf(net, inc));
    HandedOutByComponent(net, inc);
    SumAdd(Range(net.count), SelfInOf(net), FlowIntoOf(net, inc), CostOf(inc));
    SelfByComponent(net);
    SumAdd(Range(net.count), NetCostOf(net, inc), HeadCostOf(net, inc), CostOf(inc));
  }

  // ---------- signs ----------

  lemma PortionSign(cost: real, count: real, inbound: real)
    requires cost >= 0.0 && count >= 0.0
    ensures Portion(cost, count, inbound) >= 0.0
  {
    if inbound > 0.0 {
      ShareOfRate(cost, count, inbound);
    }
  }

  /** With non-negative self costs and weights every inclusive cost and every amount is non-negative. */
  lemma {:induction false} CostsNonNegative(net: Net, inc: seq<real>, c: nat)
    requires net.Condensed() && net.NonNegative() && net.FlowEquations(inc) && c <= net.count
    ensures forall d :: 0 <= d < c ==> inc[d] >= 0.0
    ensures forall a :: a in net.arcs && net.Comp(a.from) <= c ==> net.Amount(inc, a) >= 0.0
  {
    hide Portion, Net.Inbound, Sum;
    if c > 0 {
      CostsNonNegative(net, inc, c - 1);
      SumNonNegative(Range(|net.self|), net.SelfTerm(c - 1));
      SumNonNegative(net.arcs, InGroup(net.CallerComp(), net.Amounts(inc), c - 1));
    }
    forall a | a in net.arcs && net.Comp(a.from) <= c
      ensures net.Amount(inc, a) >= 0.0
    {
      if net.External(a) {
        assert net.Comp(a.to) < c;
        PortionSign(Net.Cost(inc, net.Comp(a.to)), a.count, net.Inbound(a.to));
      }
    }
  }

  /** Two members of `c` are both called from outside with positive weight. */
  ghost predicate SharedEntry(net: Net, c: int) {
    exists v, w :: 0 <= v < w < |net.self| && Head(net, c, v) && Head(net, c, w)
  }

  /** A component has no head, one, or more; the count tells which. */
  lemma HeadCount(net: Net, c: int)
    ensures net.Heads(c) == 0.0 || net.Heads(c) >= 1.0
    ensures net.Heads(c) > 1.0 <==> SharedEntry(net, c)
    ensures net.Heads(c) == 0.0 <==> forall v :: 0 <= v < |net.self| ==> !Head(net, c, v)
  {
    var n := |net.self|;
    SumNonNegative(Range(n), net.HeadTerm(c));
    if v :| 0 <= v < n && Head(net, c, v) {
      assert v == Range(n)[v];
      assert net.HeadTerm(c)(v) == 1.0;
      if SharedEntry(net, c) {
        var x, y :| 0 <= x < y < n && Head(net, c, x) && Head(net, c, y);
        SumTwoTerms(n, x, y, net.HeadTerm(c));
      } else {
        forall i | 0 <= i < n && i != v ensures net.HeadTerm(c)(i) == 0.0 {
          assert !Head(net, c, i);
        }
        SumSingle(n, v, net.HeadTerm(c));
      }
    } else {
      forall i | i in Range(n) ensures net.HeadTerm(c)(i) == 0.0 {
        assert !Head(net, c, i);
      }
      SumZero(Range(n), net.HeadTerm(c));
    }
  }

  // ---------- which components carry cost ----------

  /** Positively weighted calls between components. */
  ghost function ComponentArcs(net: Net): set<(int, int)> {
    set a | a in net.arcs && net.External(a) && a.count > 0.0 :: (net.Comp(a.from), net.Comp(a.to))
  }

  /** The component calls its way, over positive weights, to a node with self cost. */
  ghost predicate Carries(net: Net, c: int) {
    exists v :: 0 <= v < |net.self| && net.self[v] > 0.0 && Reaches(ComponentArcs(net), c, net.Comp(v))
  }

  /** Cost flows over a positively weighted call into the caller's component. */
  lemma CallHandsCost(net: Net, inc: seq<real>, a: CallArc)
    requires net.Condensed() && net.NonNegative() && net.FlowEquations(inc)
    requires a in net.arcs && net.External(a) && a.count > 0.0 && Net.Cost(inc, net.Comp(a.to)) > 0.0
    ensures Net.Cost(inc, net.Comp(a.from)) > 0.0
  {
    var c := net.Comp(a.from);
    CostsNonNegative(net, inc, net.count);
    SumNonNegative(net.arcs, net.InboundTerm(a.to));
    assert net.InboundTerm(a.to)(a) == a.count <= net.Inbound(a.to);
    ShareOfRate(Net.Cost(inc, net.Comp(a.to)), a.count, net.Inbound(a.to));
    var term := InGroup(net.CallerComp(), net.Amounts(inc), c);
    SumNonNegative(net.arcs, term);
    assert term(a) > 0.0;
    SumNonNegative(Range(|net.self|), net.SelfTerm(c));
  }

  lemma OwnCost(net: Net, inc: seq<real>, v: int)
    requires net.Condensed() && net.NonNegative() && net.FlowEquations(inc)
    requires 0 <= v < |net.self| && net.self[v] > 0.0
    ensures Net.Cost(inc, net.Comp(v)) > 0.0
  {
    var c := net.Comp(v);
    CostsNonNegative(net, inc, net.count);
    SumNonNegative(Range(|net.self|), net.SelfTerm(c));
    assert v == Range(|net.self|)[v] && net.SelfTerm(c)(v) > 0.0;
    SumNonNegative(net.arcs, InGroup(net.CallerComp(), net.Amounts(inc), c));
  }

  lemma {:induction false} CarriersCostAlongPath(net: Net, inc: seq<real>, p: seq<int>, v: int)
    requires net.Condensed() && net.NonNegative() && net.FlowEquations(inc)
    requires 0 <= v < |net.self| && net.self[v] > 0.0
    requires IsPath(ComponentArcs(net), p) && p[|p| - 1] == net.Comp(v)
    ensures Net.Cost(inc, p[0]) > 0.0
  {
    if |p| == 1 {
      OwnCost(net, inc, v);
    } else {
      PathTail(ComponentArcs(net), p);
      CarriersCostAlongPath(net, inc, p[1..], v);
      assert (p[0], p[1]) in ComponentArcs(net);
      var a :| a in net.arcs && net.External(a) && a.count > 0.0 && net.Comp(a.from) == p[0] && net.Comp(a.to) == p[1];
      CallHandsCost(net, inc, a);
    }
  }

  /** A component with cost has measured self cost or receives cost over some call. */
  lemma CostSource(net: Net, inc: seq<real>, c: nat)
    requires net.Condensed() && net.NonNegative() && net.FlowEquations(inc)
    requires c < net.count && inc[c] > 0.0
    ensures || (exists v :: 0 <= v < |net.self| && net.self[v] > 0.0 && net.Comp(v) == c)
            || (exists a :: a in net.arcs && net.Comp(a.from) == c && net.Amount(inc, a) != 0.0)
  {
    if forall v :: 0 <= v < |net.self| ==> net.SelfTerm(c)(v) == 0.0 {
      SumZero(Range(|net.self|), net.SelfTerm(c));
      var term := InGroup(net.CallerComp(), net.Amounts(inc), c);
      if forall a :: a in net.arcs ==> term(a) == 0.0 {
        SumZero(net.arcs, term);
      } else {
        var a :| a in net.arcs && term(a) != 0.0;
        assert net.Comp(a.from) == c && net.Amount(inc, a) != 0.0;
      }
    }
  }

  lemma AmountFollowsArc(net: Net, inc: seq<real>, a: CallArc)
    requires net.Condensed() && net.NonNegative() && net.FlowEquations(inc)
    requires a in net.arcs && net.Amount(inc, a) != 0.0
    ensures (net.Comp(a.from), net.Comp(a.to)) in ComponentArcs(net)
    ensures 0 <= net.Comp(a.to) < net.Comp(a.from) && Net.Cost(inc, net.Comp(a.to)) > 0.0
  {
    CostsNonNegative(net, inc, net.count);
    assert a.count > 0.0;
  }

  lemma {:induction false} CostMeansCarrier(net: Net, inc: seq<real>, c: nat)
    requires net.Condensed() && net.NonNegative() && net.FlowEquations(inc)
    requires c < net.count && inc[c] > 0.0
    ensures Carries(net, c)
    decreases c
  {
    CostSource(net, inc, c);
    if v :| 0 <= v < |net.self| && net.self[v] > 0.0 && net.Comp(v) == c {
      ReachesSelf(ComponentArcs(net), c);
    } else {
      var a :| a in net.arcs && net.Comp(a.from) == c && net.Amount(inc, a) != 0.0;
      var d := net.Comp(a.to);
      AmountFollowsArc(net, inc, a);
      CostMeansCarrier(net, inc, d);
      var v :| 0 <= v < |net.self| && net.self[v] > 0.0 && Reaches(ComponentArcs(net), d, net.Comp(v));
      ReachesArc(ComponentArcs(net), c, d);
      ReachesTransitive(ComponentArcs(net), c, d, net.Comp(v));
    }
  }

  /** A component's inclusive cost is positive exactly when it calls its way to measured self cost. */
  lemma CostIffCarries(net: Net, inc: seq<real>, c: nat)
    requires net.Condensed() && net.NonNegative() && net.FlowEquations(inc) && c < net.count
    ensures inc[c] >= 0.0
    ensures inc[c] > 0.0 <==> Carries(net, c)
  {
    CostsNonNegative(net, inc, net.count);
    if inc[c] > 0.0 {
      CostMeansCarrier(net, inc, c);
    } else if Carries(net, c) {
      var v :| 0 <= v < |net.self| && net.self[v] > 0.0 && Reaches(ComponentArcs(net), c, net.Comp(v));
      var p :| PathFromTo(ComponentArcs(net), p, c, net.Comp(v));
      CarriersCostAlongPath(net, inc, p, v);
    }
  }

  // ---------- conserving graphs ----------

  /** No component that carries cost is entered from outside at two members. */
  ghost predicate Conserving(net: Net) {
    forall c :: 0 <= c < net.count && SharedEntry(net, c) ==> !Carries(net, c)
  }

  /** Cost of a component nobody calls from outside with positive weight. */
  ghost function RootCostOf(net: Net, inc: seq<real>): int -> real {
    c => if net.Heads(c) == 0.0 then Net.Cost(inc, c) else 0.0
  }

  /** What a component hands out beyond its own cost. */
  ghost function SurplusOf(net: Net, inc: seq<real>): int -> real {
    c => if net.Heads(c) == 0.0 then 0.0 else Net.Cost(inc, c) * (net.Heads(c) - 1.0)
  }

  lemma SurplusSign(net: Net, inc: seq<real>, c: nat)
    requires net.Condensed() && net.NonNegative() && net.FlowEquations(inc) && c < net.count
    ensures SurplusOf(net, inc)(c) >= 0.0
    ensures SurplusOf(net, inc)(c) > 0.0 <==> SharedEntry(net, c) && Carries(net, c)
  {
    HeadCount(net, c);
    CostIffCarries(net, inc, c);
    hide Net.Condensed, Net.NonNegative, Net.FlowEquations, Net.Heads, SharedEntry, Carries;
    if net.Heads(c) >= 1.0 {
      ProductSign(inc[c], net.Heads(c) - 1.0);
    }
  }

  lemma ProductSign(x: real, y: real)
    requires x >= 0.0 && y >= 0.0
    ensures x * y >= 0.0
    ensures x * y > 0.0 <==> x > 0.0 && y > 0.0
  {
  }

  /**
   The roots carry the total self cost, no more and no less, exactly when no cost-carrying
   component is entered at two members.
   */
  lemma RootsCarryTotalIff(net: Net, inc: seq<real>)
    requires net.Condensed() && net.NonNegative() && net.FlowEquations(inc)
    ensures Sum(Range(net.count), RootCostOf(net, inc)) >= net.Total()
    ensures Sum(Range(net.count), RootCostOf(net, inc)) == net.Total() <==> Conserving(net)
  {
    Conservation(net, inc);
    SumAdd(Range(net.count), NetCostOf(net, inc), SurplusOf(net, inc), RootCostOf(net, inc));
    forall c | 0 <= c < net.count
      ensures SurplusOf(net, inc)(c) >= 0.0
      ensures SurplusOf(net, inc)(c) > 0.0 <==> SharedEntry(net, c) && Carries(net, c)
    {
      SurplusSign(net, inc, c);
    }
    SumNonNegative(Range(net.count), SurplusOf(net, inc));
    if Conserving(net) {
      SumZero(Range(net.count), SurplusOf(net, inc));
    } else {
      var c :| 0 <= c < net.count && SharedEntry(net, c) && Carries(net, c);
      assert c == Range(net.count)[c];
    }
  }

  /** Every component has one member at most: there are no call cycles. */
  ghost predicate NoCycles(net: Net) {
    forall v, w :: 0 <= v < |net.self| && 0 <= w < |net.self| && v != w ==> net.Comp(v) != net.Comp(w)
  }

  /** Inclusive cost of a node that nobody calls from outside with positive weight. */
  ghost function UncalledCost(net: Net, inc: seq<real>): int -> real {
    v => if net.Inbound(v) > 0.0 then 0.0 else Net.Cost(inc, net.Comp(v))
  }

  lemma RootCostByNode(net: Net, inc: seq<real>, c: int)
    requires net.Condensed() && net.FlowEquations(inc) && NoCycles(net) && 0 <= c < net.count
    ensures RootCostOf(net, inc)(c) == Sum(Range(|net.self|), InGroup(CompOf(net), UncalledCost(net, inc), c))
  {
    var term := InGroup(CompOf(net), UncalledCost(net, inc), c);
    HeadCount(net, c);
    if v :| 0 <= v < |net.self| && net.Comp(v) == c {
      forall w | 0 <= w < |net.self| && w != v ensures term(w) == 0.0 && !Head(net, c, w) {
        assert net.Comp(w) != net.Comp(v);
      }
      hide Net.Heads, Net.Inbound, Net.FlowEquations, Net.Condensed;
      SumSingle(|net.self|, v, term);
      assert Head(net, c, v) <==> net.Inbound(v) > 0.0;
    } else {
      SumZero(Range(|net.self|), term);
      SumZero(Range(|net.self|), net.SelfTerm(c));
      SumZero(net.arcs, InGroup(net.CallerComp(), net.Amounts(inc), c));
    }
  }

  /** Without cycles a component is a root or hands out its cost once. */
  lemma RootCostIsNetCost(net: Net, inc: seq<real>, c: int)
    requires NoCycles(net)
    ensures RootCostOf(net, inc)(c) == NetCostOf(net, inc)(c)
  {
    HeadCount(net, c);
    assert !SharedEntry(net, c);
    assert net.Heads(c) == 0.0 || net.Heads(c) == 1.0;
    NoneOrAll(Net.Cost(inc, c), net.Heads(c));
  }

  lemma NoneOrAll(cost: real, heads: real)
    requires heads == 0.0 || heads == 1.0
    ensures cost * (1.0 - heads) == if heads == 0.0 then cost else 0.0
  {
  }

  /** Without call cycles the uncalled nodes together carry exactly the total self cost. */
  lemma UncalledCarryTotal(net: Net, inc: seq<real>)
    requires net.Condensed() && net.FlowEquations(inc) && NoCycles(net)
    ensures Sum(Range(|net.self|), UncalledCost(net, inc)) == net.Total()
  {
    Conservation(net, inc);
    hide Net.Heads, Net.Inbound, Sum;
    forall c | 0 <= c < net.count
      ensures RootCostOf(net, inc)(c) == Sum(Range(|net.self|), InGroup(CompOf(net), UncalledCost(net, inc), c))
      ensures RootCostOf(net, inc)(c) == NetCostOf(net, inc)(c)
    {
      RootCostByNode(net, inc, c);
      RootCostIsNetCost(net, inc, c);
    }
    SumCongruent(Range(net.count), RootCostOf(net, inc), NetCostOf(net, inc));
    SumByGroup(Range(|net.self|), net.count, CompOf(net), UncalledCost(net, inc), RootCostOf(net, inc));
  }

  // ---------- what the propagation loop holds ----------

  ghost function HandedBelow(net: Net, inc: seq<real>, k: int): CallArc -> real {
    (a: CallArc) => if net.Comp(a.from) < k then net.Amount(inc, a) else 0.0
  }

  /** Cost of component `d` not yet handed to callers numbered below `k`. */
  ghost function Residual(net: Net, inc: seq<real>, k: int): int -> real {
    d => Net.Cost(inc, d) - Sum(net.arcs, InGroup(CalleeComp(net), HandedBelow(net, inc, k), d))
  }

  /** Once components below `k` are processed, the cost they still hold is the self cost seen so far. */
  lemma ResidualInvariant(net: Net, inc: seq<real>, k: nat)
    requires net.Condensed() && net.FlowEquations(inc) && k <= net.count
    ensures Sum(Range(k), Residual(net, inc, k)) == Sum(Range(k), SelfInOf(net))
  {
    var handed: int -> real := d => Sum(net.arcs, InGroup(CalleeComp(net), HandedBelow(net, inc, k), d));
    SumByGroup(net.arcs, k, CalleeComp(net), HandedBelow(net, inc, k), handed);
    SumByGroup(net.arcs, k, net.CallerComp(), net.Amounts(inc), FlowIntoOf(net, inc));
    SumCongruent(net.arcs, InGroupsBelow(CalleeComp(net), HandedBelow(net, inc, k), k),
                 InGroupsBelow(net.CallerComp(), net.Amounts(inc), k));
    SumAdd(Range(k), Residual(net, inc, k), handed, CostOf(inc));
    SumAdd(Range(k), SelfInOf(net), FlowIntoOf(net, inc), CostOf(inc));
  }

  /** In a conserving graph no component hands out more than it has. */
  lemma ResidualNonNegative(net: Net, inc: seq<real>, k: nat, d: nat)
    requires net.Condensed() && net.NonNegative() && net.FlowEquations(inc) && Conserving(net)
    requires k <= net.count && d < net.count
    ensures Residual(net, inc, k)(d) >= 0.0
  {
    CostsNonNegative(net, inc, net.count);
    SumMonotone(net.arcs, InGroup(CalleeComp(net), HandedBelow(net, inc, k), d), InGroup(CalleeComp(net), net.Amounts(inc), d));
    HandedFrom(net, inc, d);
    HeadCount(net, d);
    CostIffCarries(net, inc, d);
    if inc[d] > 0.0 {
      assert net.Heads(d) <= 1.0;
      assert inc[d] * net.Heads(d) <= inc[d];
    }
  }

  // ---------- one solution ----------

  /** Amounts handed to components up to `c` depend only on costs below `c`. */
  lemma FlowReadsBelow(net: Net, inc1: seq<real>, inc2: seq<real>, c: int)
    requires net.Condensed() && |inc1| == |inc2| == net.count && 0 <= c < net.count
    requires forall d :: 0 <= d < c ==> inc1[d] == inc2[d]
    ensures net.FlowInto(inc1, c) == net.FlowInto(inc2, c)
  {
    SumCongruent(net.arcs, InGroup(net.CallerComp(), net.Amounts(inc1), c), InGroup(net.CallerComp(), net.Amounts(inc2), c));
  }

  lemma {:induction false} SameBelow(net: Net, inc1: seq<real>, inc2: seq<real>, c: nat)
    requires net.Condensed() && net.FlowEquations(inc1) && net.FlowEquations(inc2) && c <= net.count
    ensures forall d :: 0 <= d < c ==> inc1[d] == inc2[d]
  {
    if c > 0 {
      SameBelow(net, inc1, inc2, c - 1);
      SumCongruent(net.arcs, InGroup(net.CallerComp(), net.Amounts(inc1), c - 1),
                   InGroup(net.CallerComp(), net.Amounts(inc2), c - 1));
    }
  }

  /** The flow equations determine every inclusive cost. */
  lemma FlowSolutionUnique(net: Net, inc1: seq<real>, inc2: seq<real>)
    requires net.Condensed() && net.FlowEquations(inc1) && net.FlowEquations(inc2)
    ensures inc1 == inc2
  {
    SameBelow(net, inc1, inc2, net.count);
  }

  lemma {:induction false} SolvedBelow(net: Net, k: nat) returns (inc: seq<real>)
    requires net.Condensed() && k <= net.count
    ensures |inc| == net.count && forall c :: 0 <= c < k ==> inc[c] == net.SelfIn(c) + net.FlowInto(inc, c)
  {
    if k == 0 {
      inc := seq(net.count, _ => 0.0);
    } else {
      var before := SolvedBelow(net, k - 1);
      inc := before[k - 1 := net.SelfIn(k - 1) + net.FlowInto(before, k - 1)];
      forall c | 0 <= c < k ensures net.FlowInto(inc, c) == net.FlowInto(before, c) {
        FlowReadsBelow(net, inc, before, c);
      }
    }
  }

  /** The flow equations have a solution. */
  lemma FlowSolutionExists(net: Net) returns (inc: seq<real>)
    requires net.Condensed()
    ensures net.FlowEquations(inc)
  {
    inc := SolvedBelow(net, net.count);
  }

  // ---------- the breakdown of one node ----------

  ghost function FromNode(net: Net, inc: seq<real>, v: int): CallArc -> real {
    (a: CallArc) => if a.from == v then net.Amount(inc, a) else 0.0
  }

  /** Self cost of a node plus the amounts of the calls it makes out of its component. */
  ghost function OwnShare(net: Net, inc: seq<real>): int -> real {
    v => net.Self(v) + Sum(net.arcs, FromNode(net, inc, v))
  }

  /** Over a component's members, self cost plus callee amounts is the component's inclusive cost. */
  lemma MembersMakeUpCost(net: Net, inc: seq<real>, c: nat)
    requires net.Condensed() && net.FlowEquations(inc) && c < net.count
    ensures Sum(Range(|net.self|), InGroup(CompOf(net), OwnShare(net, inc), c)) == inc[c]
  {
    var n := |net.self|;
    var flow := InGroup(net.CallerComp(), net.Amounts(inc), c);
    var callees: int -> real := v => if net.Comp(v) == c then Sum(net.arcs, FromNode(net, inc, v)) else 0.0;
    var caller: CallArc -> int := (a: CallArc) => a.from;
    forall v | 0 <= v < n
      ensures callees(v) == Sum(net.arcs, InGroup(caller, flow, v))
    {
      if net.Comp(v) == c {
        SumCongruent(net.arcs, FromNode(net, inc, v), InGroup(caller, flow, v));
      } else {
        SumZero(net.arcs, InGroup(caller, flow, v));
      }
    }
    SumByGroup(net.arcs, n, caller, flow, callees);
    SumAdd(Range(n), net.SelfTerm(c), callees, InGroup(CompOf(net), OwnShare(net, inc), c));
  }

  /** The node has self cost, or calls its way out of its component to measured self cost. */
  ghost predicate Contributes(net: Net, v: int) {
    net.Self(v) > 0.0 || exists a :: a in net.arcs && BringsCost(net, v, a)
  }

  ghost predicate BringsCost(net: Net, v: int, a: CallArc) {
    a.from == v && net.External(a) && a.count > 0.0 && Carries(net, net.Comp(a.to))
  }

  lemma PortionPositive(cost: real, count: real, inbound: real)
    requires cost > 0.0 && 0.0 < count <= inbound
    ensures Portion(cost, count, inbound) > 0.0
  {
    ShareOfRate(cost, count, inbound);
  }

  lemma AmountSign(net: Net, inc: seq<real>, v: int, a: CallArc)
    requires net.Condensed() && net.NonNegative() && net.FlowEquations(inc) && a in net.arcs
    ensures FromNode(net, inc, v)(a) >= 0.0
    ensures FromNode(net, inc, v)(a) > 0.0 <==> BringsCost(net, v, a)
  {
    CostsNonNegative(net, inc, net.count);
    CostIffCarries(net, inc, net.Comp(a.to));
    if net.Amount(inc, a) != 0.0 {
      AmountFollowsArc(net, inc, a);
      assert a.count != 0.0;
    }
    if BringsCost(net, v, a) {
      SumNonNegative(net.arcs, net.InboundTerm(a.to));
      assert net.InboundTerm(a.to)(a) == a.count <= net.Inbound(a.to);
      PortionPositive(Net.Cost(inc, net.Comp(a.to)), a.count, net.Inbound(a.to));
    }
    hide Portion, Net.Inbound, Carries;
  }

  /** A node's own share of its component's cost is positive exactly when the node contributes. */
  lemma OwnShareSign(net: Net, inc: seq<real>, v: int)
    requires net.Condensed() && net.NonNegative() && net.FlowEquations(inc)
    ensures OwnShare(net, inc)(v) >= 0.0
    ensures OwnShare(net, inc)(v) > 0.0 <==> Contributes(net, v)
  {
    var from := FromNode(net, inc, v);
    forall a | a in net.arcs ensures from(a) >= 0.0 && (from(a) > 0.0 <==> BringsCost(net, v, a)) {
      AmountSign(net, inc, v, a);
    }
    hide BringsCost, Net.Amount, Net.FlowEquations;
    SumNonNegative(net.arcs, from);
    if forall a :: a in net.arcs ==> !BringsCost(net, v, a) {
      SumZero(net.arcs, from);
    }
  }
}

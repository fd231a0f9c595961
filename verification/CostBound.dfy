/**
 When a share of the total is a fraction: the bound on inclusive cost, and the call structures on
 which it holds whatever is measured (src/query/graph_query.ts, computeCostModel).
 */
module CostBound {
  import opened Paths
  import opened Sums
  import opened CostFlow

  /** A positively weighted call out of something `c` calls its way to, into another component. */
  ghost predicate Enters(net: Net, c: int, a: CallArc) {
    && a in net.arcs && net.External(a) && a.count > 0.0
    && Reaches(ComponentArcs(net), c, net.Comp(a.from))
  }

  ghost predicate DoubleEntry(net: Net, c: int, d: int, a: CallArc, b: CallArc) {
    Enters(net, c, a) && Enters(net, c, b) && net.Comp(a.to) == d && net.Comp(b.to) == d && a.to != b.to
  }

  /** `c` calls its way into component `d` at two different members. */
  ghost predicate EnteredTwice(net: Net, c: int, d: int) {
    exists a, b :: DoubleEntry(net, c, d, a, b)
  }

  lemma ComponentArcFalls(net: Net, c: int, d: int)
    requires net.Condensed() && (c, d) in ComponentArcs(net)
    ensures 0 <= d < c < net.count
  {
    var a :| a in net.arcs && net.External(a) && a.count > 0.0 && (net.Comp(a.from), net.Comp(a.to)) == (c, d);
  }

  ghost predicate AtMost(x: int, c: int) {
    x <= c
  }

  lemma ReachFalls(net: Net, c: int, d: int)
    requires net.Condensed() && Reaches(ComponentArcs(net), c, d)
    ensures d <= c
  {
    var low := iset x: int | AtMost(x, c);
    forall x, y | (x, y) in ComponentArcs(net) && x in low ensures y in low {
      ComponentArcFalls(net, x, y);
    }
    ClosedSetKeepsReach(ComponentArcs(net), low, c, d);
  }

  // ---------- the bound ----------

  /** Amounts of the calls made by what `c` reaches. */
  ghost function FromReach(net: Net, inc: seq<real>, c: int): CallArc -> real {
    (a: CallArc) => if Reaches(ComponentArcs(net), c, net.Comp(a.from)) then net.Amount(inc, a) else 0.0
  }

  ghost function Within(net: Net, c: int, f: int -> real): int -> real {
    d => if Reaches(ComponentArcs(net), c, d) then f(d) else 0.0
  }

  /** What component `d` hands to the components `c` reaches. */
  ghost function HandedWithin(net: Net, inc: seq<real>, c: int): int -> real {
    d => Sum(net.arcs, InGroup(CalleeComp(net), FromReach(net, inc, c), d))
  }

  /** The costs within reach of `c`, its own left out. */
  ghost function OtherCosts(net: Net, inc: seq<real>, c: int): int -> real {
    d => if d == c then 0.0 else Within(net, c, CostOf(inc))(d)
  }

  /** Cost only flows to `c`'s reach out of `c`'s reach below `c`. */
  lemma HandedFromBelow(net: Net, inc: seq<real>, c: nat, a: CallArc)
    requires net.Condensed() && net.NonNegative() && net.FlowEquations(inc) && c < net.count
    requires a in net.arcs && FromReach(net, inc, c)(a) != 0.0
    ensures Enters(net, c, a) && FromReach(net, inc, c)(a) == net.Amount(inc, a) > 0.0
    ensures 0 <= net.Comp(a.to) < c && Reaches(ComponentArcs(net), c, net.Comp(a.to)) && inc[net.Comp(a.to)] > 0.0
  {
    AmountFollowsArc(net, inc, a);
    CostsNonNegative(net, inc, net.count);
    ReachFalls(net, c, net.Comp(a.from));
    ReachesArc(ComponentArcs(net), net.Comp(a.from), net.Comp(a.to));
    ReachesTransitive(ComponentArcs(net), c, net.Comp(a.from), net.Comp(a.to));
    hide Portion, Net.Inbound, Reaches;
  }

  lemma HandedAtMostCost(net: Net, inc: seq<real>, c: nat, d: nat)
    requires net.Condensed() && net.NonNegative() && net.FlowEquations(inc) && c < net.count && d < net.count
    requires EnteredTwice(net, c, d) ==> !Carries(net, d)
    ensures HandedWithin(net, inc, c)(d) <= OtherCosts(net, inc, c)(d)
  {
    CostIffCarries(net, inc, d);
    TermsAtMostCost(net, inc, c, d, InGroup(CalleeComp(net), FromReach(net, inc, c), d));
  }

  lemma TermsAtMostCost(net: Net, inc: seq<real>, c: nat, d: nat, term: CallArc -> real)
    requires net.Condensed() && net.NonNegative() && net.FlowEquations(inc) && c < net.count && d < net.count
    requires inc[d] >= 0.0 && (inc[d] > 0.0 ==> !EnteredTwice(net, c, d))
    requires term == InGroup(CalleeComp(net), FromReach(net, inc, c), d)
    ensures Sum(net.arcs, term) <= OtherCosts(net, inc, c)(d)
  {
    if forall a :: a in net.arcs ==> term(a) == 0.0 {
      SumZero(net.arcs, term);
      assert Within(net, c, CostOf(inc))(d) >= 0.0;
    } else {
      var a0 :| a0 in net.arcs && term(a0) != 0.0;
      assert CalleeComp(net)(a0) == d == net.Comp(a0.to);
      HandedFromBelow(net, inc, c, a0);
      var into := IntoNode(net, inc, a0.to);
      forall a | a in net.arcs ensures term(a) <= into(a) {
        EntryTerm(net, inc, c, d, a0, a);
      }
      SumMonotone(net.arcs, term, into);
      CallersShareAll(net, inc, a0.to);
      assert Within(net, c, CostOf(inc))(d) == Net.Cost(inc, d);
    }
  }

  /** A call into `d` counts only if it enters at the member where `a0` does. */
  lemma EntryTerm(net: Net, inc: seq<real>, c: nat, d: nat, a0: CallArc, a: CallArc)
    requires net.Condensed() && net.NonNegative() && net.FlowEquations(inc) && c < net.count && d < net.count
    requires !EnteredTwice(net, c, d) && a in net.arcs && a0 in net.arcs
    requires InGroup(CalleeComp(net), FromReach(net, inc, c), d)(a0) != 0.0
    ensures InGroup(CalleeComp(net), FromReach(net, inc, c), d)(a) <= IntoNode(net, inc, a0.to)(a)
  {
    var term := InGroup(CalleeComp(net), FromReach(net, inc, c), d);
    assert term(a0) == FromReach(net, inc, c)(a0) && net.Comp(a0.to) == d;
    HandedFromBelow(net, inc, c, a0);
    CostsNonNegative(net, inc, net.count);
    assert net.Amount(inc, a) >= 0.0;
    hide Portion, Net.Inbound, Reaches, Carries, Net.FlowEquations, Net.NonNegative;
    if term(a) != 0.0 {
      assert term(a) == FromReach(net, inc, c)(a) && net.Comp(a.to) == d;
      HandedFromBelow(net, inc, c, a);
      assert !DoubleEntry(net, c, d, a0, a);
    }
  }

  /** What `c` costs is at most the self cost within its reach. */
  lemma CostWithinReach(net: Net, inc: seq<real>, c: nat)
    requires net.Condensed() && net.NonNegative() && net.FlowEquations(inc) && c < net.count
    requires forall d :: EnteredTwice(net, c, d) ==> !Carries(net, d)
    ensures inc[c] <= Sum(Range(net.count), Within(net, c, SelfInOf(net)))
  {
    var n := Range(net.count);
    var costs, flows := Within(net, c, CostOf(inc)), Within(net, c, FlowIntoOf(net, inc));
    SumAdd(n, Within(net, c, SelfInOf(net)), flows, costs);
    FlowsWithin(net, inc, c);
    forall d | d in n ensures HandedWithin(net, inc, c)(d) <= OtherCosts(net, inc, c)(d) {
      HandedAtMostCost(net, inc, c, d);
    }
    SumMonotone(n, HandedWithin(net, inc, c), OtherCosts(net, inc, c));
    var own: int -> real := d => if d == c then inc[c] else 0.0;
    ReachesSelf(ComponentArcs(net), c);
    SumAdd(n, own, OtherCosts(net, inc, c), costs);
    SumSingle(net.count, c, own);
  }

  /** All that flows within `c`'s reach, by caller and by callee. */
  lemma FlowsWithin(net: Net, inc: seq<real>, c: nat)
    requires net.Condensed()
    ensures Sum(Range(net.count), Within(net, c, FlowIntoOf(net, inc))) == Sum(Range(net.count), HandedWithin(net, inc, c))
  {
    var from := FromReach(net, inc, c);
    forall d | 0 <= d < net.count
      ensures Within(net, c, FlowIntoOf(net, inc))(d) == Sum(net.arcs, InGroup(net.CallerComp(), from, d))
    {
      if Reaches(ComponentArcs(net), c, d) {
        SumCongruent(net.arcs, InGroup(net.CallerComp(), net.Amounts(inc), d), InGroup(net.CallerComp(), from, d));
      } else {
        SumZero(net.arcs, InGroup(net.CallerComp(), from, d));
      }
    }
    SumByGroup(net.arcs, net.count, net.CallerComp(), from, Within(net, c, FlowIntoOf(net, inc)));
    SumByGroup(net.arcs, net.count, CalleeComp(net), from, HandedWithin(net, inc, c));
  }

  /**
   No inclusive cost exceeds the total, and none even the self cost within reach, unless a component
   can call its way into one cost-carrying component at two members.
   */
  lemma CostBounded(net: Net, inc: seq<real>, c: nat)
    requires net.Condensed() && net.NonNegative() && net.FlowEquations(inc) && c < net.count
    requires forall d :: EnteredTwice(net, c, d) ==> !Carries(net, d)
    ensures 0.0 <= inc[c] <= net.Total()
  {
    CostsNonNegative(net, inc, net.count);
    CostWithinReach(net, inc, c);
    forall d | d in Range(net.count) ensures Within(net, c, SelfInOf(net))(d) <= SelfInOf(net)(d) {
      SumNonNegative(Range(|net.self|), net.SelfTerm(d));
    }
    SumMonotone(Range(net.count), Within(net, c, SelfInOf(net)), SelfInOf(net));
    SelfByComponent(net);
  }

  /** A component entered twice is called from outside at two members. */
  lemma TwiceMeansShared(net: Net, c: int, d: int)
    requires net.Condensed() && net.NonNegative() && EnteredTwice(net, c, d)
    ensures SharedEntry(net, d)
  {
    var a, b :| DoubleEntry(net, c, d, a, b);
    forall e | e == a || e == b ensures Head(net, d, e.to) {
      SumNonNegative(net.arcs, net.InboundTerm(e.to));
      assert net.InboundTerm(e.to)(e) == e.count;
    }
  }

  /** In particular where the roots carry the total, no inclusive cost exceeds it. */
  lemma ConservingIsBounded(net: Net, inc: seq<real>, c: nat)
    requires net.Condensed() && net.NonNegative() && net.FlowEquations(inc) && Conserving(net) && c < net.count
    ensures 0.0 <= inc[c] <= net.Total()
  {
    forall d | EnteredTwice(net, c, d) ensures !Carries(net, d) {
      TwiceMeansShared(net, c, d);
      assert 0 <= d < net.count by {
        TwiceIsNumbered(net, c, d);
      }
    }
    CostBounded(net, inc, c);
  }

  lemma TwiceIsNumbered(net: Net, c: int, d: int)
    requires net.Condensed() && EnteredTwice(net, c, d)
    ensures 0 <= d < c && d < net.count
  {
    var a, b :| DoubleEntry(net, c, d, a, b);
    ReachFalls(net, c, net.Comp(a.from));
  }

  // ---------- which call structures keep shares fractions ----------

  /** The same calls between the same components, whatever their weights and the self costs. */
  ghost predicate SameCalls(a: Net, b: Net) {
    && a.comp == b.comp && a.count == b.count && |a.self| == |b.self| && |a.arcs| == |b.arcs|
    && forall i :: 0 <= i < |a.arcs| ==> a.arcs[i].from == b.arcs[i].from && a.arcs[i].to == b.arcs[i].to
  }

  /** Whatever is measured, no component of this call structure costs more than the total. */
  ghost predicate AlwaysWithinTotal(net: Net) {
    forall n: Net, inc: seq<real> :: SameCalls(net, n) && n.NonNegative() && n.FlowEquations(inc) ==> WithinTotal(n, inc)
  }

  ghost predicate WithinTotal(net: Net, inc: seq<real>) {
    forall c :: 0 <= c < |inc| ==> inc[c] <= net.Total()
  }

  /** The call structure with every call counted once. */
  ghost function Counted(net: Net): Net {
    net.(arcs := seq(|net.arcs|, i requires 0 <= i < |net.arcs| => CallArc(net.arcs[i].from, net.arcs[i].to, 1.0)))
  }

  /** No component can call its way into another at two members. */
  ghost predicate NeverTwice(net: Net) {
    forall c, d :: !EnteredTwice(Counted(net), c, d)
  }

  lemma EntersInStructure(net: Net, n: Net, c: int, a: CallArc) returns (b: CallArc)
    requires SameCalls(net, n) && Enters(n, c, a)
    ensures Enters(Counted(net), c, b) && b.from == a.from && b.to == a.to
  {
    var s := Counted(net);
    var i :| 0 <= i < |n.arcs| && n.arcs[i] == a;
    b := s.arcs[i];
    forall x, y | (x, y) in ComponentArcs(n) ensures (x, y) in ComponentArcs(s) {
      var e :| e in n.arcs && n.External(e) && e.count > 0.0 && (n.Comp(e.from), n.Comp(e.to)) == (x, y);
      var k :| 0 <= k < |n.arcs| && n.arcs[k] == e;
      assert s.arcs[k] in s.arcs && (s.Comp(s.arcs[k].from), s.Comp(s.arcs[k].to)) == (x, y);
    }
    var p :| PathFromTo(ComponentArcs(n), p, c, n.Comp(a.from));
    assert PathFromTo(ComponentArcs(s), p, c, s.Comp(b.from));
  }

  lemma TwiceInStructure(net: Net, n: Net, c: int, d: int)
    requires SameCalls(net, n) && EnteredTwice(n, c, d)
    ensures EnteredTwice(Counted(net), c, d)
  {
    var a, b :| DoubleEntry(n, c, d, a, b);
    hide Enters, SameCalls;
    assert forall v :: Counted(net).Comp(v) == n.Comp(v) by { SameComponents(net, n); }
    var a' := EntersInStructure(net, n, c, a);
    var b' := EntersInStructure(net, n, c, b);
    assert DoubleEntry(Counted(net), c, d, a', b');
  }

  lemma SameComponents(net: Net, n: Net)
    requires SameCalls(net, n)
    ensures forall v :: Counted(net).Comp(v) == n.Comp(v)
  {
  }

  lemma SameCallsCondensed(net: Net, n: Net)
    requires net.Condensed() && SameCalls(net, n)
    ensures n.Condensed()
  {
    forall a | a in n.arcs ensures a.from < |n.self| && a.to < |n.self| && n.Comp(a.to) <= n.Comp(a.from) {
      var i :| 0 <= i < |n.arcs| && n.arcs[i] == a;
      assert net.arcs[i] in net.arcs;
    }
  }

  lemma NeverTwiceBounds(net: Net, n: Net, inc: seq<real>)
    requires net.Condensed() && NeverTwice(net) && SameCalls(net, n) && n.NonNegative() && n.FlowEquations(inc)
    ensures WithinTotal(n, inc)
  {
    SameCallsCondensed(net, n);
    assert |inc| == n.count;
    hide Net.Condensed, Net.FlowEquations, Net.NonNegative, SameCalls, Net.Total, EnteredTwice;
    forall c | 0 <= c < |inc| ensures inc[c] <= n.Total() {
      forall d ensures !EnteredTwice(n, c, d) {
        if EnteredTwice(n, c, d) {
          TwiceInStructure(net, n, c, d);
        }
      }
      CostBounded(n, inc, c);
    }
  }

  // ---------- chains of calls ----------

  /** Indices of arcs between components that lead on from component `c`, one after another. */
  ghost predicate IsChain(net: Net, c: int, e: seq<nat>) {
    && e != [] && (forall k :: 0 <= k < |e| ==> e[k] < |net.arcs| && net.External(net.arcs[e[k]]))
    && CallerAt(net, e[0]) == c
    && (forall k :: 0 <= k < |e| - 1 ==> Leads(net, e, k))
  }

  ghost predicate Leads(net: Net, e: seq<nat>, k: int)
    requires 0 <= k < |e| - 1
  {
    CalleeAt(net, e[k]) == CallerAt(net, e[k + 1])
  }

  ghost function CallerAt(net: Net, i: int): int {
    if 0 <= i < |net.arcs| then net.Comp(net.arcs[i].from) else -1
  }

  ghost function CalleeAt(net: Net, i: int): int {
    if 0 <= i < |net.arcs| then net.Comp(net.arcs[i].to) else -1
  }

  ghost function Last(e: seq<nat>): nat
    requires e != []
  {
    e[|e| - 1]
  }

  lemma ChainTail(net: Net, c: int, e: seq<nat>)
    requires IsChain(net, c, e) && |e| > 1
    ensures IsChain(net, CalleeAt(net, e[0]), e[1..]) && Last(e[1..]) == Last(e)
  {
    assert Leads(net, e, 0);
    forall k | 0 <= k < |e[1..]| - 1 ensures Leads(net, e[1..], k) {
      assert Leads(net, e, k + 1);
    }
  }

  lemma {:induction false} PathToChain(net: Net, p: seq<int>, last: nat) returns (e: seq<nat>)
    requires IsPath(ComponentArcs(net), p) && last < |net.arcs| && net.External(net.arcs[last])
    requires CallerAt(net, last) == p[|p| - 1]
    ensures IsChain(net, p[0], e) && Last(e) == last
  {
    if |p| == 1 {
      e := [last];
    } else {
      PathTail(ComponentArcs(net), p);
      var rest := PathToChain(net, p[1..], last);
      var a :| a in net.arcs && net.External(a) && a.count > 0.0 && (net.Comp(a.from), net.Comp(a.to)) == (p[0], p[1]);
      var i: nat :| i < |net.arcs| && net.arcs[i] == a;
      e := [i] + rest;
      forall k | 0 <= k < |e| - 1 ensures Leads(net, e, k) {
        if k > 0 {
          assert Leads(net, rest, k - 1);
        }
      }
    }
  }

  /** Along a chain the callees fall, and every callee but the last reaches the last caller. */
  lemma {:induction false} ChainFalls(net: Net, c: int, e: seq<nat>, k: nat)
    requires net.Condensed() && IsChain(net, c, e) && k < |e|
    requires forall a :: a in net.arcs ==> a.count > 0.0
    ensures CalleeAt(net, e[k]) < c
    ensures k < |e| - 1 ==> CalleeAt(net, e[k]) > CalleeAt(net, Last(e))
    ensures k < |e| - 1 ==> Reaches(ComponentArcs(net), CalleeAt(net, e[k]), CallerAt(net, Last(e)))
    decreases |e|
  {
    var a := net.arcs[e[0]];
    assert a in net.arcs;
    if |e| > 1 {
      ChainTail(net, c, e);
      if k > 0 {
        ChainFalls(net, CalleeAt(net, e[0]), e[1..], k - 1);
      } else {
        var next := CalleeAt(net, e[0]);
        ChainFalls(net, next, e[1..], |e| - 2);
        if |e| == 2 {
          ReachesSelf(ComponentArcs(net), next);
        } else {
          ChainFalls(net, next, e[1..], 0);
          var b := net.arcs[e[1]];
          assert b in net.arcs && (net.Comp(b.from), net.Comp(b.to)) in ComponentArcs(net);
          assert Leads(net, e, 0);
          ReachesArc(ComponentArcs(net), next, CalleeAt(net, e[1]));
          ReachesTransitive(ComponentArcs(net), next, CalleeAt(net, e[1]), CallerAt(net, Last(e)));
        }
      }
    }
  }

  // ---------- two chains into one component ----------

  /** Two chains from `c` into component `d`, entering it at two members. */
  ghost predicate Fork(net: Net, c: int, d: int, e: seq<nat>, f: seq<nat>) {
    && IsChain(net, c, e) && IsChain(net, c, f)
    && CalleeAt(net, Last(e)) == d && CalleeAt(net, Last(f)) == d
    && net.arcs[Last(e)].to != net.arcs[Last(f)].to
  }

  ghost predicate AllCounted(net: Net) {
    forall a :: a in net.arcs ==> a.count > 0.0
  }

  lemma TwiceGivesFork(net: Net, c: int, d: int) returns (e: seq<nat>, f: seq<nat>)
    requires EnteredTwice(net, c, d)
    ensures Fork(net, c, d, e, f)
  {
    var a, b :| DoubleEntry(net, c, d, a, b);
    var i: nat :| i < |net.arcs| && net.arcs[i] == a;
    var j: nat :| j < |net.arcs| && net.arcs[j] == b;
    var p :| PathFromTo(ComponentArcs(net), p, c, net.Comp(a.from));
    var q :| PathFromTo(ComponentArcs(net), q, c, net.Comp(b.from));
    e := PathToChain(net, p, i);
    f := PathToChain(net, q, j);
  }

  /** The lowest component from which `d` is entered twice. */
  lemma {:induction false} LowestFork(net: Net, c: int, d: int) returns (low: int)
    requires net.Condensed() && EnteredTwice(net, c, d)
    ensures EnteredTwice(net, low, d) && forall x :: x < low ==> !EnteredTwice(net, x, d)
    decreases c
  {
    if x :| x < c && EnteredTwice(net, x, d) {
      TwiceIsNumbered(net, x, d);
      low := LowestFork(net, x, d);
    } else {
      low := c;
    }
  }

  /** Where two chains of a fork meet before its end, a fork starts. */
  lemma ForkMeets(net: Net, c: int, d: int, e: seq<nat>, f: seq<nat>, k: nat, l: nat)
    requires net.Condensed() && AllCounted(net) && Fork(net, c, d, e, f)
    requires k < |e| - 1 && l < |f| - 1 && CalleeAt(net, e[k]) == CalleeAt(net, f[l])
    ensures CalleeAt(net, e[k]) < c && EnteredTwice(net, CalleeAt(net, e[k]), d)
  {
    ChainFalls(net, c, e, k);
    ChainFalls(net, c, f, l);
    var a, b := net.arcs[Last(e)], net.arcs[Last(f)];
    assert a in net.arcs && b in net.arcs;
    assert DoubleEntry(net, CalleeAt(net, e[k]), d, a, b);
  }

  /** Above the lowest fork the chains stay apart: no two of their arcs enter the same node. */
  lemma ForkApart(net: Net, c: int, d: int, e: seq<nat>, f: seq<nat>, k: nat, l: nat)
    requires net.Condensed() && AllCounted(net) && Fork(net, c, d, e, f)
    requires forall x :: x < c ==> !EnteredTwice(net, x, d)
    requires k < |e| && l < |f|
    ensures net.arcs[e[k]].to != net.arcs[f[l]].to
  {
    hide Net.Condensed, EnteredTwice, Reaches;
    if net.arcs[e[k]].to == net.arcs[f[l]].to {
      ChainFalls(net, c, e, k);
      ChainFalls(net, c, f, l);
      if k < |e| - 1 && l < |f| - 1 {
        ForkMeets(net, c, d, e, f, k, l);
      }
    }
  }

  /** Within a chain no two arcs enter the same node. */
  lemma {:induction false} ChainApart(net: Net, c: int, e: seq<nat>, k: nat, l: nat)
    requires net.Condensed() && AllCounted(net) && IsChain(net, c, e) && k < l < |e|
    ensures net.arcs[e[k]].to != net.arcs[e[l]].to
    decreases |e|
  {
    ChainTail(net, c, e);
    if k > 0 {
      ChainApart(net, CalleeAt(net, e[0]), e[1..], k - 1, l - 1);
    } else {
      ChainFalls(net, CalleeAt(net, e[0]), e[1..], l - 1);
    }
  }

  // ---------- weighing only the two chains ----------

  /** All cost at node `m`, and weight only on the chosen arcs. */
  ghost function Weighed(net: Net, chosen: set<nat>, m: int): Net {
    Net(seq(|net.self|, v requires 0 <= v < |net.self| => if v == m then 1.0 else 0.0),
        seq(|net.arcs|, i requires 0 <= i < |net.arcs| =>
          CallArc(net.arcs[i].from, net.arcs[i].to, if i in chosen then 1.0 else 0.0)),
        net.comp, net.count)
  }

  /** Chosen arcs join components, each entering its own node. */
  ghost predicate Apart(net: Net, chosen: set<nat>) {
    && (forall x :: x in chosen ==> x < |net.arcs| && net.External(net.arcs[x]))
    && (forall x, y :: x in chosen && y in chosen && x != y ==> net.arcs[x].to != net.arcs[y].to)
  }

  lemma WeighedFits(net: Net, chosen: set<nat>, m: int)
    requires net.Condensed()
    ensures var w := Weighed(net, chosen, m); SameCalls(net, w) && w.Condensed() && w.NonNegative()
  {
    var w := Weighed(net, chosen, m);
    assert SameCalls(net, w);
    SameCallsCondensed(net, w);
  }

  /** A chosen arc hands over all its callee's cost. */
  lemma ChosenHandsAll(net: Net, chosen: set<nat>, m: int, inc: seq<real>, x: nat)
    requires Apart(net, chosen) && x in chosen
    ensures var w := Weighed(net, chosen, m); w.Amount(inc, w.arcs[x]) == Net.Cost(inc, CalleeAt(net, x))
  {
    var w := Weighed(net, chosen, m);
    var v := net.arcs[x].to;
    assert forall u :: w.Comp(u) == net.Comp(u);
    forall i | 0 <= i < |w.arcs| ensures w.InboundTerm(v)(w.arcs[i]) == if i == x then 1.0 else 0.0 {
      assert w.External(w.arcs[i]) == net.External(net.arcs[i]);
    }
    SumAtMostOne(w.arcs, w.InboundTerm(v), 1.0, x);
    assert w.Inbound(v) == 1.0;
  }

  /** What a component receives on the weighed net, arc by arc. */
  ghost function Received(net: Net, chosen: set<nat>, m: int, inc: seq<real>, c: int): CallArc -> real {
    InGroup(Weighed(net, chosen, m).CallerComp(), Weighed(net, chosen, m).Amounts(inc), c)
  }

  lemma ReceivedInCost(net: Net, chosen: set<nat>, m: int, inc: seq<real>, c: int)
    requires net.Condensed() && Weighed(net, chosen, m).FlowEquations(inc) && 0 <= c < net.count
    ensures Net.Cost(inc, c) >= Sum(Weighed(net, chosen, m).arcs, Received(net, chosen, m, inc, c))
    ensures forall a :: a in Weighed(net, chosen, m).arcs ==> Received(net, chosen, m, inc, c)(a) >= 0.0
  {
    var w := Weighed(net, chosen, m);
    WeighedFits(net, chosen, m);
    CostsNonNegative(w, inc, w.count);
    SumNonNegative(Range(|w.self|), w.SelfTerm(c));
  }

  /** A chosen arc brings its caller's component all of its callee's cost. */
  lemma ReceivedAt(net: Net, chosen: set<nat>, m: int, inc: seq<real>, x: nat)
    requires net.Condensed() && Apart(net, chosen) && x in chosen
    ensures x < |Weighed(net, chosen, m).arcs| && 0 <= CallerAt(net, x) < net.count
    ensures Received(net, chosen, m, inc, CallerAt(net, x))(Weighed(net, chosen, m).arcs[x]) == Net.Cost(inc, CalleeAt(net, x))
  {
    ChosenHandsAll(net, chosen, m, inc, x);
    assert net.arcs[x] in net.arcs;
    var w := Weighed(net, chosen, m);
    assert w.Comp(w.arcs[x].from) == CallerAt(net, x);
    hide Net.Amount, Net.Cost;
  }

  /** A component costs at least what a chosen arc brings it. */
  lemma ChosenBrings(net: Net, chosen: set<nat>, m: int, inc: seq<real>, x: nat)
    requires net.Condensed() && Apart(net, chosen) && x in chosen && Weighed(net, chosen, m).FlowEquations(inc)
    ensures Net.Cost(inc, CallerAt(net, x)) >= Net.Cost(inc, CalleeAt(net, x))
  {
    hide Net.Condensed, Net.FlowEquations, Net.Cost, Received, Weighed, Sum;
    ReceivedAt(net, chosen, m, inc, x);
    ReceivedInCost(net, chosen, m, inc, CallerAt(net, x));
    var arcs := Weighed(net, chosen, m).arcs;
    assert arcs[x] in arcs;
    SumNonNegative(arcs, Received(net, chosen, m, inc, CallerAt(net, x)));
  }

  /** ... and at least what two of them bring together. */
  lemma TwoChosenBring(net: Net, chosen: set<nat>, m: int, inc: seq<real>, x: nat, y: nat)
    requires net.Condensed() && Apart(net, chosen) && x in chosen && y in chosen && x != y
    requires Weighed(net, chosen, m).FlowEquations(inc) && CallerAt(net, x) == CallerAt(net, y)
    ensures Net.Cost(inc, CallerAt(net, x)) >= Net.Cost(inc, CalleeAt(net, x)) + Net.Cost(inc, CalleeAt(net, y))
  {
    hide Net.Condensed, Net.FlowEquations, Net.Cost, Received, Weighed, Sum;
    ReceivedAt(net, chosen, m, inc, x);
    ReceivedAt(net, chosen, m, inc, y);
    ReceivedInCost(net, chosen, m, inc, CallerAt(net, x));
    SumTwoPositions(Weighed(net, chosen, m).arcs, x, y, Received(net, chosen, m, inc, CallerAt(net, x)));
  }

  /** Cost travels up a chosen chain undiminished. */
  lemma {:induction false} ChainBrings(net: Net, chosen: set<nat>, m: int, inc: seq<real>, c: int, e: seq<nat>)
    requires net.Condensed() && Apart(net, chosen) && Weighed(net, chosen, m).FlowEquations(inc)
    requires IsChain(net, c, e) && forall k :: 0 <= k < |e| ==> e[k] in chosen
    ensures Net.Cost(inc, CalleeAt(net, e[0])) >= Net.Cost(inc, CalleeAt(net, Last(e)))
    decreases |e|
  {
    if |e| > 1 {
      ChainTail(net, c, e);
      assert Leads(net, e, 0);
      ChosenBrings(net, chosen, m, inc, e[1]);
      ChainBrings(net, chosen, m, inc, CalleeAt(net, e[0]), e[1..]);
    }
  }

  ghost function Arcset(e: seq<nat>): set<nat> {
    set i | i in e
  }

  lemma ForkIsApart(net: Net, c: int, d: int, e: seq<nat>, f: seq<nat>)
    requires net.Condensed() && AllCounted(net) && Fork(net, c, d, e, f)
    requires forall x :: x < c ==> !EnteredTwice(net, x, d)
    ensures Apart(net, Arcset(e) + Arcset(f))
  {
    var chosen := Arcset(e) + Arcset(f);
    forall k, l | 0 <= k < l < |e| ensures net.arcs[e[k]].to != net.arcs[e[l]].to {
      ChainApart(net, c, e, k, l);
    }
    forall k, l | 0 <= k < l < |f| ensures net.arcs[f[k]].to != net.arcs[f[l]].to {
      ChainApart(net, c, f, k, l);
    }
    forall k, l | 0 <= k < |e| && 0 <= l < |f| ensures net.arcs[e[k]].to != net.arcs[f[l]].to {
      ForkApart(net, c, d, e, f, k, l);
    }
  }

  /** Weighing only a lowest fork, with all cost at its far end, charges its origin twice the total. */
  lemma ForkChargesTwice(net: Net, c: int, d: int, e: seq<nat>, f: seq<nat>, inc: seq<real>)
    requires net.Condensed() && AllCounted(net) && Fork(net, c, d, e, f)
    requires forall x :: x < c ==> !EnteredTwice(net, x, d)
    requires Weighed(net, Arcset(e) + Arcset(f), net.arcs[Last(e)].to).FlowEquations(inc)
    ensures Net.Cost(inc, c) >= 2.0
    ensures Weighed(net, Arcset(e) + Arcset(f), net.arcs[Last(e)].to).Total() == 1.0
  {
    var chosen, m := Arcset(e) + Arcset(f), net.arcs[Last(e)].to;
    ForkIsApart(net, c, d, e, f);
    assert net.arcs[Last(e)] in net.arcs;
    WeighedUnit(net, chosen, m, inc);
    ForkApart(net, c, d, e, f, 0, 0);
    assert Last(e) in chosen && forall k :: 0 <= k < |e| ==> e[k] in chosen;
    assert forall k :: 0 <= k < |f| ==> f[k] in chosen;
    hide Net.Condensed, Net.FlowEquations, Net.Total, Net.Cost, Apart, AllCounted, EnteredTwice, Weighed;
    ChainBrings(net, chosen, m, inc, c, e);
    ChainBrings(net, chosen, m, inc, c, f);
    TwoChosenBring(net, chosen, m, inc, e[0], f[0]);
  }

  lemma WeighedUnit(net: Net, chosen: set<nat>, m: nat, inc: seq<real>)
    requires net.Condensed() && m < |net.self| && Weighed(net, chosen, m).FlowEquations(inc)
    ensures Net.Cost(inc, net.Comp(m)) >= 1.0 && Weighed(net, chosen, m).Total() == 1.0
  {
    WeighedFits(net, chosen, m);
    OwnUnit(Weighed(net, chosen, m), inc, m);
  }

  lemma OwnUnit(w: Net, inc: seq<real>, m: nat)
    requires w.Condensed() && w.NonNegative() && w.FlowEquations(inc) && m < |w.self|
    requires forall v :: 0 <= v < |w.self| ==> w.self[v] == if v == m then 1.0 else 0.0
    ensures Net.Cost(inc, w.Comp(m)) >= 1.0 && w.Total() == 1.0
  {
    var c := w.Comp(m);
    SumSingle(|w.self|, m, w.Selfs());
    SumSingle(|w.self|, m, w.SelfTerm(c));
    CostsNonNegative(w, inc, w.count);
    SumNonNegative(w.arcs, InGroup(w.CallerComp(), w.Amounts(inc), c));
  }

  /**
   A call structure keeps every inclusive cost within the total, whatever self costs and weights are
   measured on it, exactly when no component can call its way into another at two members.
   */
  lemma AlwaysWithinTotalIff(net: Net)
    requires net.Condensed()
    ensures AlwaysWithinTotal(net) <==> NeverTwice(net)
  {
    if NeverTwice(net) {
      forall n: Net, inc: seq<real> | SameCalls(net, n) && n.NonNegative() && n.FlowEquations(inc) ensures WithinTotal(n, inc) {
        NeverTwiceBounds(net, n, inc);
      }
    } else {
      var c0, d :| EnteredTwice(Counted(net), c0, d);
      OvercostExists(net, c0, d);
    }
  }

  /** A fork can be weighed so that its origin costs twice the total. */
  lemma OvercostExists(net: Net, c0: int, d: int)
    requires net.Condensed() && EnteredTwice(Counted(net), c0, d)
    ensures !AlwaysWithinTotal(net)
  {
    hide Net.NonNegative, Net.FlowEquations, WithinTotal, IsChain, EnteredTwice;
    var s := Counted(net);
    assert SameCalls(net, s);
    SameCallsCondensed(net, s);
    hide Net.Condensed;
    var c := LowestFork(s, c0, d);
    var e, f := TwiceGivesFork(s, c, d);
    assert AllCounted(s);
    OverchargedFork(s, c, d, e, f);
    var w: Net, inc :| SameCalls(s, w) && w.NonNegative() && w.FlowEquations(inc) && !WithinTotal(w, inc);
    assert SameCalls(net, w);
  }

  lemma OverchargedFork(net: Net, c: int, d: int, e: seq<nat>, f: seq<nat>)
    requires net.Condensed() && AllCounted(net) && Fork(net, c, d, e, f)
    requires forall x :: x < c ==> !EnteredTwice(net, x, d)
    ensures exists w: Net, inc :: SameCalls(net, w) && w.NonNegative() && w.FlowEquations(inc) && !WithinTotal(w, inc)
  {
    hide Net.NonNegative, SameCalls, EnteredTwice, Weighed, Net.Condensed, Net.FlowEquations;
    var chosen, m := Arcset(e) + Arcset(f), net.arcs[Last(e)].to;
    var w := Weighed(net, chosen, m);
    WeighedFits(net, chosen, m);
    var inc := FlowSolutionExists(w);
    ForkChargesTwice(net, c, d, e, f, inc);
    assert 0 <= c < |inc| && inc[c] > w.Total();
  }
}

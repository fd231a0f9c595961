/** Sample aggregation and subtree totals of a V8 CPU profile (src/enrich/cpu_profile.ts). */
module CpuProfile {
  import opened Paths
  import opened Sums
  import opened Results

  datatype CallFrame = CallFrame(functionName: string, url: string, lineNumber: int, columnNumber: int)

  datatype ProfileNode = ProfileNode(id: int, callFrame: CallFrame, hitCount: Option<real>, children: Option<seq<int>>)

  datatype Profile = Profile(nodes: seq<ProfileNode>, samples: Option<seq<int>>, timeDeltas: Option<seq<real>>)

  datatype FrameSample = FrameSample(functionName: string, url: string, line: int, column: int, samples: real, selfMicros: real)

  datatype FrameRef = FrameRef(functionName: string, url: string, line: int)

  datatype RuntimeCallEdge = RuntimeCallEdge(caller: FrameRef, callee: FrameRef, samples: real)

  ghost predicate DistinctNodeIds(nodes: seq<ProfileNode>) {
    forall i, j :: 0 <= i < j < |nodes| ==> nodes[i].id != nodes[j].id
  }

  function Hits(node: ProfileNode): real {
    if node.hitCount.Some? then node.hitCount.value else 0.0
  }

  /** The profile lists its sampling ticks. */
  predicate HasTicks(profile: Profile) {
    profile.samples.Some? && |profile.samples.value| > 0
  }

  function GetOr0(m: map<int, real>, id: int): real {
    if id in m then m[id] else 0.0
  }

  function Bump(m: map<int, real>, id: int, amount: real): map<int, real> {
    m[id := GetOr0(m, id) + amount]
  }

  // ---------- samples by node ----------

  ghost function TickCounts(samples: seq<int>): map<int, real> {
    if samples == [] then map[] else Bump(TickCounts(samples[..|samples| - 1]), samples[|samples| - 1], 1.0)
  }

  ghost function HitCounts(nodes: seq<ProfileNode>): map<int, real> {
    if nodes == [] then map[] else
      var counts, node := HitCounts(nodes[..|nodes| - 1]), nodes[|nodes| - 1];
      if Hits(node) > 0.0 then counts[node.id := Hits(node)] else counts
  }

  ghost function SampleCounts(profile: Profile): map<int, real> {
    if HasTicks(profile) then TickCounts(profile.samples.value) else HitCounts(profile.nodes)
  }

  /** Sample count per node id: ticks when listed, hit counts otherwise. */
  method SamplesByNode(profile: Profile) returns (counts: map<int, real>)
    ensures counts == SampleCounts(profile)
  {
    counts := map[];
    if HasTicks(profile) {
      var samples := profile.samples.value;
      for i := 0 to |samples|
        invariant counts == TickCounts(samples[..i])
      {
        assert samples[..i + 1][..i] == samples[..i];
        counts := Bump(counts, samples[i], 1.0);
      }
      assert samples[..|samples|] == samples;
      return;
    }
    for i := 0 to |profile.nodes|
      invariant counts == HitCounts(profile.nodes[..i])
    {
      assert profile.nodes[..i + 1][..i] == profile.nodes[..i];
      var hits := Hits(profile.nodes[i]);
      if hits > 0.0 {
        counts := counts[profile.nodes[i].id := hits];
      }
    }
    assert profile.nodes[..|profile.nodes|] == profile.nodes;
  }

  // ---------- the call tree ----------

  /** Where a node id was last listed, or -1. */
  function NodeIndex(nodes: seq<ProfileNode>, id: int): (i: int)
    ensures -1 <= i < |nodes|
    ensures i >= 0 ==> nodes[i].id == id
    ensures i < 0 <==> forall j :: 0 <= j < |nodes| ==> nodes[j].id != id
  {
    if nodes == [] then -1
    else if nodes[|nodes| - 1].id == id then |nodes| - 1
    else NodeIndex(nodes[..|nodes| - 1], id)
  }

  lemma IndexOfNode(nodes: seq<ProfileNode>, i: int)
    requires DistinctNodeIds(nodes) && 0 <= i < |nodes|
    ensures NodeIndex(nodes, nodes[i].id) == i
  {
    assert nodes[i].id == nodes[i].id;
  }

  /** The node listed last under `id` stands at `j`. */
  ghost predicate LastListed(nodes: seq<ProfileNode>, id: int, j: int) {
    0 <= j < |nodes| && nodes[j].id == id && forall l :: j < l < |nodes| ==> nodes[l].id != id
  }

  lemma {:induction false} NodeIndexIsLast(nodes: seq<ProfileNode>, id: int)
    ensures NodeIndex(nodes, id) >= 0 ==> LastListed(nodes, id, NodeIndex(nodes, id))
  {
    if nodes != [] && nodes[|nodes| - 1].id != id {
      NodeIndexIsLast(nodes[..|nodes| - 1], id);
    }
  }

  predicate Known(nodes: seq<ProfileNode>, id: int) {
    NodeIndex(nodes, id) >= 0
  }

  function KnownOnly(nodes: seq<ProfileNode>, ids: seq<int>): seq<int> {
    if ids == [] then [] else
      KnownOnly(nodes, ids[..|ids| - 1]) + if Known(nodes, ids[|ids| - 1]) then [ids[|ids| - 1]] else []
  }

  /** The listed children of a node that are themselves nodes. */
  function Kids(nodes: seq<ProfileNode>, id: int): (kids: seq<int>)
    ensures forall c :: c in kids ==> Known(nodes, c)
  {
    var i := NodeIndex(nodes, id);
    if i < 0 || nodes[i].children.None? then [] else
      KnownOnlyKnown(nodes, nodes[i].children.value);
      KnownOnly(nodes, nodes[i].children.value)
  }

  lemma {:induction false} KnownOnlyKnown(nodes: seq<ProfileNode>, ids: seq<int>)
    ensures forall c :: c in KnownOnly(nodes, ids) <==> c in ids && Known(nodes, c)
  {
    if ids != [] {
      KnownOnlyKnown(nodes, ids[..|ids| - 1]);
      assert ids == ids[..|ids| - 1] + [ids[|ids| - 1]];
    }
  }

  ghost function Ids(nodes: seq<ProfileNode>): set<int> {
    set i | 0 <= i < |nodes| :: nodes[i].id
  }

  lemma KnownIsId(nodes: seq<ProfileNode>, id: int)
    ensures Known(nodes, id) <==> id in Ids(nodes)
  {
    if Known(nodes, id) {
      assert nodes[NodeIndex(nodes, id)].id == id;
    }
  }

  ghost function TreeArcs(nodes: seq<ProfileNode>): set<(int, int)> {
    set i, k | 0 <= i < |nodes| && 0 <= k < |Kids(nodes, nodes[i].id)| :: (nodes[i].id, Kids(nodes, nodes[i].id)[k])
  }

  /** Distinct ids, every node listed as a child at most once, and no cycle of children. */
  ghost predicate Forest(nodes: seq<ProfileNode>) {
    && DistinctNodeIds(nodes)
    && (forall p, q, i, j :: 0 <= i < |Kids(nodes, p)| && 0 <= j < |Kids(nodes, q)| && Kids(nodes, p)[i] == Kids(nodes, q)[j]
          ==> p == q && i == j)
    && (forall p :: !ReachesByCall(TreeArcs(nodes), p, p))
  }

  lemma ArcIsKid(nodes: seq<ProfileNode>, p: int, c: int)
    ensures (p, c) in TreeArcs(nodes) <==> c in Kids(nodes, p)
  {
    if c in Kids(nodes, p) {
      assert nodes[NodeIndex(nodes, p)].id == p;
      var k :| 0 <= k < |Kids(nodes, p)| && Kids(nodes, p)[k] == c;
      var i := NodeIndex(nodes, p);
      assert (nodes[i].id, Kids(nodes, nodes[i].id)[k]) == (p, c);
    }
  }

  ghost function OwnSamples(self: map<int, real>): ProfileNode -> real {
    (n: ProfileNode) => GetOr0(self, n.id)
  }

  ghost function BelowTerm(nodes: seq<ProfileNode>, self: map<int, real>, x: int): ProfileNode -> real {
    (n: ProfileNode) => if Reaches(TreeArcs(nodes), x, n.id) then GetOr0(self, n.id) else 0.0
  }

  /** Own samples of `x` and of everything below it in the tree. */
  ghost function DescendantSamples(nodes: seq<ProfileNode>, self: map<int, real>, x: int): real {
    Sum(nodes, BelowTerm(nodes, self, x))
  }

  // ---------- a forest's totals add up ----------

  /** The descendant totals of all nodes, by id. */
  ghost function TotalsOf(nodes: seq<ProfileNode>, self: map<int, real>): map<int, real> {
    map id | id in Ids(nodes) :: DescendantSamples(nodes, self, id)
  }

  /** Two nodes above the same node are above one another. */
  lemma {:induction false} AncestorsCompare(nodes: seq<ProfileNode>, a: int, b: int, p: seq<int>)
    requires Forest(nodes) && |p| > 0
    requires PathFromTo(TreeArcs(nodes), p, a, p[|p| - 1]) && Reaches(TreeArcs(nodes), b, p[|p| - 1])
    ensures Reaches(TreeArcs(nodes), a, b) || Reaches(TreeArcs(nodes), b, a)
  {
    var arcs := TreeArcs(nodes);
    var y := p[|p| - 1];
    if |p| == 1 {
    } else if b == y {
      assert PathFromTo(arcs, p, a, b);
    } else {
      var q :| PathFromTo(arcs, q, b, y);
      var pre, pre' := p[|p| - 2], q[|q| - 2];
      PathInit(arcs, p);
      PathInit(arcs, q);
      ArcIsKid(nodes, pre, y);
      ArcIsKid(nodes, pre', y);
      assert pre == pre';
      assert PathFromTo(arcs, q[..|q| - 1], b, pre);
      AncestorsCompare(nodes, a, b, p[..|p| - 1]);
    }
  }

  /** Different children of one node have nothing in common below them. */
  lemma ChildrenDisjoint(nodes: seq<ProfileNode>, x: int, i: int, j: int, y: int)
    requires Forest(nodes) && 0 <= i < |Kids(nodes, x)| && 0 <= j < |Kids(nodes, x)| && i != j
    requires Reaches(TreeArcs(nodes), Kids(nodes, x)[i], y)
    ensures !Reaches(TreeArcs(nodes), Kids(nodes, x)[j], y)
  {
    var arcs := TreeArcs(nodes);
    var c, d := Kids(nodes, x)[i], Kids(nodes, x)[j];
    if Reaches(arcs, d, y) {
      var p :| PathFromTo(arcs, p, c, y);
      AncestorsCompare(nodes, c, d, p);
      SiblingsApart(nodes, x, c, d);
      SiblingsApart(nodes, x, d, c);
    }
  }

  lemma NoWayBack(nodes: seq<ProfileNode>, x: int, c: int)
    requires Forest(nodes) && c in Kids(nodes, x)
    ensures !Reaches(TreeArcs(nodes), c, x)
  {
    ArcIsKid(nodes, x, c);
    assert !ReachesByCall(TreeArcs(nodes), x, x);
  }

  /** A child that reached a sibling would have to pass through their parent. */
  lemma SiblingsApart(nodes: seq<ProfileNode>, x: int, c: int, d: int)
    requires Forest(nodes) && c in Kids(nodes, x) && d in Kids(nodes, x) && c != d
    ensures !Reaches(TreeArcs(nodes), c, d)
  {
    var arcs := TreeArcs(nodes);
    if Reaches(arcs, c, d) {
      var p :| PathFromTo(arcs, p, c, d);
      PathInit(arcs, p);
      ArcIsKid(nodes, p[|p| - 2], d);
      assert PathFromTo(arcs, p[..|p| - 1], c, x);
      NoWayBack(nodes, x, c);
    }
  }

  lemma BelowIsSelfOrChild(nodes: seq<ProfileNode>, x: int, y: int)
    requires Forest(nodes)
    ensures Reaches(TreeArcs(nodes), x, y) <==>
            x == y || exists k :: 0 <= k < |Kids(nodes, x)| && Reaches(TreeArcs(nodes), Kids(nodes, x)[k], y)
    ensures forall k :: 0 <= k < |Kids(nodes, x)| ==> !Reaches(TreeArcs(nodes), Kids(nodes, x)[k], x)
  {
    var arcs := TreeArcs(nodes);
    ReachesSelf(arcs, x);
    if Reaches(arcs, x, y) && x != y {
      var p :| PathFromTo(arcs, p, x, y);
      PathTail(arcs, p);
      ArcIsKid(nodes, x, p[1]);
      assert PathFromTo(arcs, p[1..], p[1], y);
    }
    forall k | 0 <= k < |Kids(nodes, x)|
      ensures Reaches(arcs, Kids(nodes, x)[k], y) ==> Reaches(arcs, x, y)
      ensures !Reaches(arcs, Kids(nodes, x)[k], x)
    {
      var c := Kids(nodes, x)[k];
      ArcIsKid(nodes, x, c);
      assert c in Kids(nodes, x);
      ReachesArc(arcs, x, c);
      if Reaches(arcs, c, y) {
        ReachesTransitive(arcs, x, c, y);
      }
      if Reaches(arcs, c, x) {
        assert ReachesByCall(arcs, x, x);
      }
    }
  }

  ghost function DescendantsOf(nodes: seq<ProfileNode>, self: map<int, real>): int -> real {
    x => DescendantSamples(nodes, self, x)
  }

  /** In a forest a node's total is its own samples plus its children's totals. */
  lemma TotalFromChildren(nodes: seq<ProfileNode>, self: map<int, real>, x: int)
    requires Forest(nodes) && Known(nodes, x)
    ensures DescendantSamples(nodes, self, x) == GetOr0(self, x) + Sum(Kids(nodes, x), DescendantsOf(nodes, self))
  {
    var arcs, kids := TreeArcs(nodes), Kids(nodes, x);
    var m: (int, ProfileNode) -> real := (c, n) => BelowTerm(nodes, self, c)(n);
    var columns: ProfileNode -> real := (n: ProfileNode) => if n.id != x && Reaches(arcs, x, n.id) then GetOr0(self, n.id) else 0.0;
    var own: ProfileNode -> real := (n: ProfileNode) => if n.id == x then GetOr0(self, x) else 0.0;
    forall c | c in kids ensures DescendantsOf(nodes, self)(c) == Sum(nodes, Row(m, c)) {
      SumCongruent(nodes, BelowTerm(nodes, self, c), Row(m, c));
    }
    forall n | n in nodes ensures columns(n) == Sum(kids, Column(m, n)) {
      BelowIsSelfOrChild(nodes, x, n.id);
      if n.id != x && Reaches(arcs, x, n.id) {
        var k :| 0 <= k < |kids| && Reaches(arcs, kids[k], n.id);
        forall i | 0 <= i < |kids| ensures Column(m, n)(kids[i]) == if i == k then GetOr0(self, n.id) else 0.0 {
          if i != k {
            ChildrenDisjoint(nodes, x, k, i, n.id);
          }
          assert Column(m, n)(kids[i]) == m(kids[i], n) == BelowTerm(nodes, self, kids[i])(n);
        }
        SumAtMostOne(kids, Column(m, n), GetOr0(self, n.id), k);
      } else {
        SumZero(kids, Column(m, n));
      }
    }
    SumSwap(kids, nodes, m, DescendantsOf(nodes, self), columns);
    var at := NodeIndex(nodes, x);
    forall i | 0 <= i < |nodes| ensures own(nodes[i]) == if i == at then GetOr0(self, x) else 0.0 {
      IndexOfNode(nodes, i);
    }
    SumAtMostOne(nodes, own, GetOr0(self, x), at);
    ReachesSelf(arcs, x);
    SumAdd(nodes, own, columns, BelowTerm(nodes, self, x));
  }

  // ---------- the iterative post-order ----------

  /** Children neither finished nor already waiting on the stack. */
  function Pending(kids: seq<int>, subtree: map<int, real>, onStack: set<int>): seq<int> {
    if kids == [] then [] else
      var c := kids[|kids| - 1];
      Pending(kids[..|kids| - 1], subtree, onStack) + if c !in subtree && c !in onStack then [c] else []
  }

  lemma {:induction false} PendingMembers(kids: seq<int>, subtree: map<int, real>, onStack: set<int>)
    ensures forall c :: c in Pending(kids, subtree, onStack) <==> c in kids && c !in subtree && c !in onStack
    ensures (forall i, j :: 0 <= i < j < |kids| ==> kids[i] != kids[j]) ==>
              forall i, j :: 0 <= i < j < |Pending(kids, subtree, onStack)| ==>
                Pending(kids, subtree, onStack)[i] != Pending(kids, subtree, onStack)[j]
  {
    if kids != [] {
      var rest := kids[..|kids| - 1];
      PendingMembers(rest, subtree, onStack);
      assert kids == rest + [kids[|kids| - 1]];
      assert forall i :: 0 <= i < |Pending(rest, subtree, onStack)| ==> Pending(rest, subtree, onStack)[i] in Pending(rest, subtree, onStack);
    }
  }

  /** What holds for any children lists. */
  ghost predicate Walking(nodes: seq<ProfileNode>, root: int, stack: seq<int>, onStack: set<int>, subtree: map<int, real>) {
    && (forall x :: x in stack ==> x in Ids(nodes))
    && (forall x :: x in onStack ==> x in stack)
    && subtree.Keys <= Ids(nodes)
    && (root in subtree || root in onStack)
  }

  /** The stack entry at `i` was pushed as a child of an earlier one. */
  ghost predicate PushedByEarlier(nodes: seq<ProfileNode>, stack: seq<int>, i: int)
    requires 0 <= i < |stack|
  {
    exists j :: 0 <= j < i && stack[i] in Kids(nodes, stack[j])
  }

  /** Finished nodes hold their totals. */
  ghost predicate Totalled(nodes: seq<ProfileNode>, self: map<int, real>, subtree: map<int, real>) {
    forall x :: x in subtree ==> subtree[x] == DescendantSamples(nodes, self, x)
  }

  /** What holds besides when the nodes form a forest. */
  ghost predicate WalkingTree(nodes: seq<ProfileNode>, root: int, stack: seq<int>, onStack: set<int>, subtree: map<int, real>) {
    && (forall i, j :: 0 <= i < j < |stack| ==> stack[i] != stack[j])
    && (forall x :: x in stack ==> x in onStack && x !in subtree)
    && (stack != [] ==> stack[0] == root)
    && (forall i :: 0 < i < |stack| ==> PushedByEarlier(nodes, stack, i))
    && (forall x :: x in stack ==> Reaches(TreeArcs(nodes), root, x))
  }

  lemma KidsDistinct(nodes: seq<ProfileNode>, x: int)
    requires Forest(nodes)
    ensures forall i, j :: 0 <= i < j < |Kids(nodes, x)| ==> Kids(nodes, x)[i] != Kids(nodes, x)[j]
  {
  }

  ghost function Elements(xs: seq<int>): set<int> {
    set x | x in xs
  }

  lemma PushesAreEarlier(nodes: seq<ProfileNode>, stack: seq<int>, pending: seq<int>)
    requires stack != [] && forall c :: c in pending ==> c in Kids(nodes, stack[|stack| - 1])
    requires forall i :: 0 < i < |stack| ==> PushedByEarlier(nodes, stack, i)
    ensures forall i :: 0 < i < |stack + pending| ==> PushedByEarlier(nodes, stack + pending, i)
  {
    hide Kids;
    var stack' := stack + pending;
    forall i | 0 < i < |stack'| ensures PushedByEarlier(nodes, stack', i) {
      if i < |stack| {
        assert PushedByEarlier(nodes, stack, i);
        var j :| 0 <= j < i && stack[i] in Kids(nodes, stack[j]);
        assert stack'[j] == stack[j];
      } else {
        assert stack'[i] == pending[i - |stack|] && pending[i - |stack|] in pending;
        assert stack'[|stack| - 1] == stack[|stack| - 1];
      }
    }
  }

  lemma PushesAreReached(nodes: seq<ProfileNode>, root: int, stack: seq<int>, pending: seq<int>)
    requires stack != [] && forall c :: c in pending ==> c in Kids(nodes, stack[|stack| - 1])
    requires forall x :: x in stack ==> Reaches(TreeArcs(nodes), root, x)
    ensures forall x :: x in stack + pending ==> Reaches(TreeArcs(nodes), root, x)
  {
    hide Kids, TreeArcs, Reaches;
    var top := stack[|stack| - 1];
    assert top in stack;
    forall x | x in pending ensures Reaches(TreeArcs(nodes), root, x) {
      ArcIsKid(nodes, top, x);
      ReachesArc(TreeArcs(nodes), top, x);
      ReachesTransitive(TreeArcs(nodes), root, top, x);
    }
  }

  lemma DistinctJoin(xs: seq<int>, ys: seq<int>)
    requires forall i, j :: 0 <= i < j < |xs| ==> xs[i] != xs[j]
    requires forall i, j :: 0 <= i < j < |ys| ==> ys[i] != ys[j]
    requires forall y :: y in ys ==> y !in xs
    ensures forall i, j :: 0 <= i < j < |xs + ys| ==> (xs + ys)[i] != (xs + ys)[j]
  {
    forall i, j | 0 <= i < j < |xs + ys| ensures (xs + ys)[i] != (xs + ys)[j] {
      if |xs| <= j {
        assert ys[j - |xs|] in ys;
      }
    }
  }

  lemma PushKeepsTree(nodes: seq<ProfileNode>, root: int, stack: seq<int>, onStack: set<int>, subtree: map<int, real>, pending: seq<int>)
    requires Forest(nodes) && Walking(nodes, root, stack, onStack, subtree)
    requires WalkingTree(nodes, root, stack, onStack, subtree) && stack != []
    requires pending == Pending(Kids(nodes, stack[|stack| - 1]), subtree, onStack)
    ensures WalkingTree(nodes, root, stack + pending, onStack + Elements(pending), subtree)
  {
    var top := stack[|stack| - 1];
    KidsDistinct(nodes, top);
    hide Forest, Kids, Pending, TreeArcs, Reaches, PushedByEarlier, Walking;
    PendingMembers(Kids(nodes, top), subtree, onStack);
    DistinctJoin(stack, pending);
    PushesAreEarlier(nodes, stack, pending);
    PushesAreReached(nodes, root, stack, pending);
  }

  /** A child of the top node is not waiting below it. */
  lemma ChildNotWaiting(nodes: seq<ProfileNode>, root: int, stack: seq<int>, onStack: set<int>, subtree: map<int, real>, c: int)
    requires Forest(nodes) && WalkingTree(nodes, root, stack, onStack, subtree) && stack != []
    requires c in Kids(nodes, stack[|stack| - 1])
    ensures c !in stack
  {
    var top := stack[|stack| - 1];
    NoWayBack(nodes, top, c);
    ReachesSelf(TreeArcs(nodes), top);
    assert top in stack;
    forall i | 0 <= i < |stack| ensures stack[i] != c {
      if 0 < i < |stack| - 1 {
        assert PushedByEarlier(nodes, stack, i);
        var j :| 0 <= j < i && stack[i] in Kids(nodes, stack[j]);
        OneParent(nodes, stack[j], stack[i]);
      }
    }
  }

  lemma OneParent(nodes: seq<ProfileNode>, p: int, c: int)
    requires Forest(nodes) && c in Kids(nodes, p)
    ensures forall q :: c in Kids(nodes, q) ==> q == p
  {
    var i :| 0 <= i < |Kids(nodes, p)| && Kids(nodes, p)[i] == c;
    forall q | c in Kids(nodes, q) ensures q == p {
      var j :| 0 <= j < |Kids(nodes, q)| && Kids(nodes, q)[j] == c;
    }
  }

  ghost function FinishedTotals(subtree: map<int, real>): int -> real {
    x => GetOr0(subtree, x)
  }

  lemma KidFinished(nodes: seq<ProfileNode>, self: map<int, real>, root: int, stack: seq<int>, onStack: set<int>, subtree: map<int, real>, c: int)
    requires Forest(nodes) && Walking(nodes, root, stack, onStack, subtree) && Totalled(nodes, self, subtree)
    requires WalkingTree(nodes, root, stack, onStack, subtree) && stack != []
    requires Pending(Kids(nodes, stack[|stack| - 1]), subtree, onStack) == [] && c in Kids(nodes, stack[|stack| - 1])
    ensures GetOr0(subtree, c) == DescendantSamples(nodes, self, c)
  {
    var kids := Kids(nodes, stack[|stack| - 1]);
    PendingMembers(kids, subtree, onStack);
    ChildNotWaiting(nodes, root, stack, onStack, subtree, c);
    hide Forest, Kids, WalkingTree, Pending, DescendantSamples;
    assert c !in Pending(kids, subtree, onStack);
  }

  lemma FinishIsTotal(nodes: seq<ProfileNode>, self: map<int, real>, root: int, stack: seq<int>, onStack: set<int>, subtree: map<int, real>)
    requires Forest(nodes) && Walking(nodes, root, stack, onStack, subtree) && Totalled(nodes, self, subtree)
    requires WalkingTree(nodes, root, stack, onStack, subtree) && stack != []
    requires Pending(Kids(nodes, stack[|stack| - 1]), subtree, onStack) == []
    ensures var id := stack[|stack| - 1];
            GetOr0(self, id) + Sum(Kids(nodes, id), FinishedTotals(subtree)) == DescendantSamples(nodes, self, id)
  {
    hide Forest, Kids, WalkingTree, Pending, DescendantSamples, Totalled, Sum;
    var id := stack[|stack| - 1];
    assert id in stack;
    KnownIsId(nodes, id);
    TotalFromChildren(nodes, self, id);
    forall c | c in Kids(nodes, id)
      ensures FinishedTotals(subtree)(c) == DescendantsOf(nodes, self)(c)
    {
      KidFinished(nodes, self, root, stack, onStack, subtree, c);
    }
    SumCongruent(Kids(nodes, id), FinishedTotals(subtree), DescendantsOf(nodes, self));
  }

  /** Everything in reach of `root` gets a total, whatever the children lists look like. */
  method WalkFrom(nodes: seq<ProfileNode>, self: map<int, real>, root: int, done: map<int, real>) returns (subtree: map<int, real>)
    requires Known(nodes, root) && root !in done && done.Keys <= Ids(nodes)
    ensures root in subtree && done.Keys <= subtree.Keys <= Ids(nodes)
    ensures Forest(nodes) && Totalled(nodes, self, done) ==> Totalled(nodes, self, subtree)
  {
    subtree := done;
    var stack := [root];
    var onStack := {root};
    KnownIsId(nodes, root);
    ReachesSelf(TreeArcs(nodes), root);
    ghost var tree := Forest(nodes) && Totalled(nodes, self, done);
    hide Forest, Totalled;
    while |stack| > 0
      invariant Walking(nodes, root, stack, onStack, subtree) && done.Keys <= subtree.Keys
      invariant tree ==> Totalled(nodes, self, subtree) && WalkingTree(nodes, root, stack, onStack, subtree)
      decreases Ids(nodes) - (subtree.Keys + onStack), |stack|
    {
      subtree, stack, onStack := WalkStep(nodes, self, root, subtree, stack, onStack, tree);
    }
  }

  lemma PushKeepsWalking(nodes: seq<ProfileNode>, root: int, stack: seq<int>, onStack: set<int>, subtree: map<int, real>, pending: seq<int>)
    requires Walking(nodes, root, stack, onStack, subtree) && stack != [] && pending != []
    requires pending == Pending(Kids(nodes, stack[|stack| - 1]), subtree, onStack)
    ensures Walking(nodes, root, stack + pending, onStack + Elements(pending), subtree)
    ensures exists x :: x in Ids(nodes) && x !in subtree.Keys + onStack && x in onStack + Elements(pending)
  {
    PendingMembers(Kids(nodes, stack[|stack| - 1]), subtree, onStack);
    forall x | x in pending ensures x in Ids(nodes) {
      KnownIsId(nodes, x);
    }
    assert pending[0] in pending;
  }

  /** The sum loop over the finished children. */
  method SumOfKids(own: real, kids: seq<int>, subtree: map<int, real>) returns (sum: real)
    ensures sum == own + Sum(kids, FinishedTotals(subtree))
  {
    sum := own;
    for i := 0 to |kids|
      invariant sum == own + Sum(kids[..i], FinishedTotals(subtree))
    {
      SumPrefix(kids, i, FinishedTotals(subtree));
      sum := sum + GetOr0(subtree, kids[i]);
    }
    assert kids[..|kids|] == kids;
  }

  /** One turn of the walk: push the pending children of the top node, or finish it. */
  method WalkStep(nodes: seq<ProfileNode>, self: map<int, real>, ghost root: int,
                  subtree: map<int, real>, stack: seq<int>, onStack: set<int>, ghost tree: bool)
    returns (subtree': map<int, real>, stack': seq<int>, onStack': set<int>)
    requires Walking(nodes, root, stack, onStack, subtree) && stack != []
    requires tree ==> Forest(nodes) && Totalled(nodes, self, subtree) && WalkingTree(nodes, root, stack, onStack, subtree)
    ensures Walking(nodes, root, stack', onStack', subtree') && subtree.Keys <= subtree'.Keys
    ensures tree ==> Totalled(nodes, self, subtree') && WalkingTree(nodes, root, stack', onStack', subtree')
    ensures subtree.Keys + onStack <= subtree'.Keys + onStack'
    ensures |stack'| < |stack| || exists x :: x in Ids(nodes) && x !in subtree.Keys + onStack && x in onStack'
  {
    hide Forest, WalkingTree, Kids;
    subtree', stack', onStack' := subtree, stack, onStack;
    var id := stack[|stack| - 1];
    assert id in stack;
    var kids := Kids(nodes, id);
    var pending := Pending(kids, subtree, onStack);
    if |pending| > 0 {
      PushKeepsWalking(nodes, root, stack, onStack, subtree, pending);
      if tree {
        PushKeepsTree(nodes, root, stack, onStack, subtree, pending);
      }
      hide *;
      for i := 0 to |pending|
        invariant subtree' == subtree && stack' == stack + pending[..i] && onStack' == onStack + Elements(pending[..i])
      {
        ElementsAppend(pending, i);
        onStack' := onStack' + {pending[i]};
        stack' := stack' + [pending[i]];
      }
      assert pending[..|pending|] == pending;
    } else {
      var sum := SumOfKids(GetOr0(self, id), kids, subtree);
      subtree' := subtree[id := sum];
      onStack' := onStack - {id};
      stack' := stack[..|stack| - 1];
      assert stack == stack' + [id];
      if tree {
        FinishIsTotal(nodes, self, root, stack, onStack, subtree);
        FinishKeepsTree(nodes, root, stack, onStack, subtree, sum);
      }
    }
  }

  lemma ElementsAppend(xs: seq<int>, i: nat)
    requires i < |xs|
    ensures Elements(xs[..i + 1]) == Elements(xs[..i]) + {xs[i]} && xs[..i + 1] == xs[..i] + [xs[i]]
  {
    assert xs[..i + 1] == xs[..i] + [xs[i]];
  }

  lemma FinishKeepsTree(nodes: seq<ProfileNode>, root: int, stack: seq<int>, onStack: set<int>, subtree: map<int, real>, sum: real)
    requires WalkingTree(nodes, root, stack, onStack, subtree) && stack != []
    ensures var id := stack[|stack| - 1];
            WalkingTree(nodes, root, stack[..|stack| - 1], onStack - {id}, subtree[id := sum])
  {
    var stack' := stack[..|stack| - 1];
    forall i | 0 < i < |stack'| ensures PushedByEarlier(nodes, stack', i) {
      assert PushedByEarlier(nodes, stack, i);
      var j :| 0 <= j < i && stack[i] in Kids(nodes, stack[j]);
      assert stack'[j] == stack[j];
    }
  }

  /**
   Subtree totals by node id. For any children lists at all - cycles, shared or repeated children,
   dangling ids - the walk ends and every node gets a value; when the nodes form a forest, listed in
   any order, the value is the sum of the node's own samples and those of all its descendants.
   */
  method SubtreeSamples(profile: Profile) returns (subtree: map<int, real>)
    ensures subtree.Keys == Ids(profile.nodes)
    ensures Forest(profile.nodes) ==> subtree == TotalsOf(profile.nodes, SampleCounts(profile))
  {
    var self := SamplesByNode(profile);
    var nodes := profile.nodes;
    subtree := map[];
    for i := 0 to |nodes|
      invariant subtree.Keys <= Ids(nodes) && forall j :: 0 <= j < i ==> nodes[j].id in subtree
      invariant Forest(nodes) ==> Totalled(nodes, self, subtree)
    {
      if nodes[i].id !in subtree {
        subtree := WalkFrom(nodes, self, nodes[i].id, subtree);
      }
    }
  }

  // ---------- call edges ----------

  function RefOf(frame: CallFrame): FrameRef {
    FrameRef(frame.functionName, frame.url, frame.lineNumber + 1)
  }

  /** The edges from one node to its known children, with what flowed through each. */
  function EdgesFrom(nodes: seq<ProfileNode>, subtree: map<int, real>, caller: ProfileNode, children: seq<int>): seq<RuntimeCallEdge> {
    if children == [] then [] else
      var c := children[|children| - 1];
      EdgesFrom(nodes, subtree, caller, children[..|children| - 1]) +
      if Known(nodes, c) then
        [RuntimeCallEdge(RefOf(caller.callFrame), RefOf(nodes[NodeIndex(nodes, c)].callFrame), GetOr0(subtree, c))]
      else []
  }

  function ChildrenOf(node: ProfileNode): seq<int> {
    if node.children.Some? then node.children.value else []
  }

  function EdgesOf(nodes: seq<ProfileNode>, subtree: map<int, real>, callers: seq<ProfileNode>): seq<RuntimeCallEdge> {
    if callers == [] then [] else
      var caller := callers[|callers| - 1];
      EdgesOf(nodes, subtree, callers[..|callers| - 1]) + EdgesFrom(nodes, subtree, caller, ChildrenOf(caller))
  }

  /** The edges are those of the call tree, in order, for some value of every node. */
  ghost predicate WeightedEdges(nodes: seq<ProfileNode>, edges: seq<RuntimeCallEdge>) {
    exists subtree: map<int, real> :: subtree.Keys == Ids(nodes) && edges == EdgesOf(nodes, subtree, nodes)
  }

  method EdgesFromNode(nodes: seq<ProfileNode>, subtree: map<int, real>, caller: ProfileNode) returns (edges: seq<RuntimeCallEdge>)
    ensures edges == EdgesFrom(nodes, subtree, caller, ChildrenOf(caller))
  {
    var children := ChildrenOf(caller);
    edges := [];
    for k := 0 to |children|
      invariant edges == EdgesFrom(nodes, subtree, caller, children[..k])
    {
      assert children[..k + 1][..k] == children[..k];
      var at := NodeIndex(nodes, children[k]);
      if at >= 0 {
        edges := edges + [RuntimeCallEdge(RefOf(caller.callFrame), RefOf(nodes[at].callFrame), GetOr0(subtree, children[k]))];
      }
    }
    assert children[..|children|] == children;
  }

  /** The child at place `k` of the children listed by the node at `i`. */
  ghost predicate ChildAt(nodes: seq<ProfileNode>, i: int, k: int, c: int) {
    0 <= i < |nodes| && nodes[i].children.Some? && 0 <= k < |nodes[i].children.value| && nodes[i].children.value[k] == c
  }

  ghost predicate RefersTo(ref: FrameRef, frame: CallFrame) {
    ref.functionName == frame.functionName && ref.url == frame.url && ref.line == frame.lineNumber + 1
  }

  /**
   `e` is the call of child `k` by the node at `i`: the caller is that node's frame, the callee the
   child's, lines one-based; in a forest the samples are all those under the child.
   */
  ghost predicate IsCall(profile: Profile, i: int, k: int, e: RuntimeCallEdge) {
    exists c, j ::
      && ChildAt(profile.nodes, i, k, c) && LastListed(profile.nodes, c, j)
      && RefersTo(e.caller, profile.nodes[i].callFrame) && RefersTo(e.callee, profile.nodes[j].callFrame)
      && (Forest(profile.nodes) ==> e.samples == DescendantSamples(profile.nodes, SampleCounts(profile), c))
  }

  ghost predicate Earlier(a: (int, int), b: (int, int)) {
    a.0 < b.0 || (a.0 == b.0 && a.1 < b.1)
  }

  /** The edges are the calls of listed children that are nodes, each once, by caller and then by child. */
  ghost predicate CallPlaces(profile: Profile, edges: seq<RuntimeCallEdge>, at: seq<(int, int)>) {
    && |at| == |edges|
    && (forall p :: 0 <= p < |edges| ==> IsCall(profile, at[p].0, at[p].1, edges[p]))
    && (forall p, q :: 0 <= p < q < |at| ==> Earlier(at[p], at[q]))
    && (forall i, k, c, j :: ChildAt(profile.nodes, i, k, c) && LastListed(profile.nodes, c, j) ==> (i, k) in at)
  }

  ghost predicate ListsCalls(profile: Profile, edges: seq<RuntimeCallEdge>) {
    exists at :: CallPlaces(profile, edges, at)
  }

  /** The edge of one caller and a child that is a node. */
  function EdgeTo(nodes: seq<ProfileNode>, subtree: map<int, real>, caller: ProfileNode, c: int): RuntimeCallEdge
    requires Known(nodes, c)
  {
    RuntimeCallEdge(RefOf(caller.callFrame), RefOf(nodes[NodeIndex(nodes, c)].callFrame), GetOr0(subtree, c))
  }

  lemma EdgesFromLast(nodes: seq<ProfileNode>, subtree: map<int, real>, caller: ProfileNode, children: seq<int>)
    requires children != []
    ensures var last := |children| - 1;
            EdgesFrom(nodes, subtree, caller, children) ==
            EdgesFrom(nodes, subtree, caller, children[..last]) +
            if Known(nodes, children[last]) then [EdgeTo(nodes, subtree, caller, children[last])] else []
  {
    hide RefOf;
  }

  lemma {:induction false} PlacesFrom(nodes: seq<ProfileNode>, subtree: map<int, real>, caller: ProfileNode, children: seq<int>)
    returns (ks: seq<int>)
    ensures |ks| == |EdgesFrom(nodes, subtree, caller, children)|
    ensures forall p :: 0 <= p < |ks| ==>
              && 0 <= ks[p] < |children| && Known(nodes, children[ks[p]])
              && EdgesFrom(nodes, subtree, caller, children)[p] == EdgeTo(nodes, subtree, caller, children[ks[p]])
    ensures forall p, q :: 0 <= p < q < |ks| ==> ks[p] < ks[q]
    ensures forall k :: 0 <= k < |children| && Known(nodes, children[k]) ==> k in ks
  {
    ks := [];
    if children != [] {
      EdgesFromLast(nodes, subtree, caller, children);
      hide EdgesFrom, EdgeTo, Known;
      var last := |children| - 1;
      var before := PlacesFrom(nodes, subtree, caller, children[..last]);
      ks := before + if Known(nodes, children[last]) then [last] else [];
      forall k | 0 <= k < |children| && Known(nodes, children[k]) ensures k in ks {
        if k < last {
          assert children[..last][k] == children[k];
        }
      }
    }
  }

  /** A listed child that is a node, by place. */
  ghost predicate KnownPlace(nodes: seq<ProfileNode>, callers: seq<ProfileNode>, place: (int, int)) {
    && 0 <= place.0 < |callers| && 0 <= place.1 < |ChildrenOf(callers[place.0])|
    && Known(nodes, ChildrenOf(callers[place.0])[place.1])
  }

  ghost predicate EdgeOfPlace(nodes: seq<ProfileNode>, subtree: map<int, real>, callers: seq<ProfileNode>, place: (int, int), e: RuntimeCallEdge) {
    KnownPlace(nodes, callers, place) && e == EdgeTo(nodes, subtree, callers[place.0], ChildrenOf(callers[place.0])[place.1])
  }

  lemma PlaceOfPrefix(nodes: seq<ProfileNode>, subtree: map<int, real>, callers: seq<ProfileNode>, place: (int, int), e: RuntimeCallEdge)
    requires callers != [] && place.0 < |callers| - 1
    ensures KnownPlace(nodes, callers[..|callers| - 1], place) == KnownPlace(nodes, callers, place)
    ensures EdgeOfPlace(nodes, subtree, callers[..|callers| - 1], place, e) == EdgeOfPlace(nodes, subtree, callers, place, e)
  {
    hide EdgeTo, Known, ChildrenOf;
  }

  /** The edges of the last caller, by place. */
  lemma PlacesHere(nodes: seq<ProfileNode>, subtree: map<int, real>, callers: seq<ProfileNode>) returns (here: seq<(int, int)>)
    requires callers != []
    ensures var edges := EdgesFrom(nodes, subtree, callers[|callers| - 1], ChildrenOf(callers[|callers| - 1]));
            |here| == |edges| && forall p :: 0 <= p < |here| ==> EdgeOfPlace(nodes, subtree, callers, here[p], edges[p])
    ensures forall p :: 0 <= p < |here| ==> here[p].0 == |callers| - 1
    ensures forall p, q :: 0 <= p < q < |here| ==> Earlier(here[p], here[q])
    ensures forall place: (int, int) :: place.0 == |callers| - 1 && KnownPlace(nodes, callers, place) ==> place in here
  {
    hide EdgeTo, EdgesFrom, Known;
    var last := |callers| - 1;
    var ks := PlacesFrom(nodes, subtree, callers[last], ChildrenOf(callers[last]));
    here := seq(|ks|, p requires 0 <= p < |ks| => (last, ks[p]));
    forall place: (int, int) | place.0 == last && KnownPlace(nodes, callers, place) ensures place in here {
      var p :| 0 <= p < |ks| && ks[p] == place.1;
      assert here[p] == place;
    }
  }

  lemma {:induction false} PlacesOf(nodes: seq<ProfileNode>, subtree: map<int, real>, callers: seq<ProfileNode>)
    returns (at: seq<(int, int)>)
    ensures |at| == |EdgesOf(nodes, subtree, callers)|
    ensures forall p :: 0 <= p < |at| ==> EdgeOfPlace(nodes, subtree, callers, at[p], EdgesOf(nodes, subtree, callers)[p])
    ensures forall p :: 0 <= p < |at| ==> at[p].0 < |callers|
    ensures forall p, q :: 0 <= p < q < |at| ==> Earlier(at[p], at[q])
    ensures forall place :: KnownPlace(nodes, callers, place) ==> place in at
  {
    at := [];
    if callers != [] {
      var last := |callers| - 1;
      var before := PlacesOf(nodes, subtree, callers[..last]);
      var here := PlacesHere(nodes, subtree, callers);
      var first, more := EdgesOf(nodes, subtree, callers[..last]), EdgesFrom(nodes, subtree, callers[last], ChildrenOf(callers[last]));
      at := before + here;
      assert EdgesOf(nodes, subtree, callers) == first + more;
      forall place | KnownPlace(nodes, callers, place) ensures place in at {
        if place.0 < last {
          assert KnownPlace(nodes, callers[..last], place);
        }
      }
      hide EdgesOf, EdgesFrom, KnownPlace, EdgeOfPlace;
      forall p | 0 <= p < |before| ensures EdgeOfPlace(nodes, subtree, callers, before[p], first[p]) {
        PlaceOfPrefix(nodes, subtree, callers, before[p], first[p]);
      }
    }
  }

  lemma EdgeIsCall(profile: Profile, subtree: map<int, real>, i: int, k: int, c: int)
    requires ChildAt(profile.nodes, i, k, c) && Known(profile.nodes, c)
    requires Forest(profile.nodes) ==> subtree == TotalsOf(profile.nodes, SampleCounts(profile))
    ensures IsCall(profile, i, k, EdgeTo(profile.nodes, subtree, profile.nodes[i], c))
  {
    NodeIndexIsLast(profile.nodes, c);
    KnownIsId(profile.nodes, c);
    hide Forest, DescendantSamples, SampleCounts;
    assert LastListed(profile.nodes, c, NodeIndex(profile.nodes, c));
  }

  lemma PlacesOfCalls(profile: Profile, subtree: map<int, real>) returns (at: seq<(int, int)>)
    requires Forest(profile.nodes) ==> subtree == TotalsOf(profile.nodes, SampleCounts(profile))
    ensures CallPlaces(profile, EdgesOf(profile.nodes, subtree, profile.nodes), at)
  {
    hide Forest, TotalsOf, SampleCounts, IsCall, EdgeTo, EdgesOf;
    var nodes := profile.nodes;
    at := PlacesOf(nodes, subtree, nodes);
    forall p | 0 <= p < |at| ensures IsCall(profile, at[p].0, at[p].1, EdgesOf(nodes, subtree, nodes)[p]) {
      assert EdgeOfPlace(nodes, subtree, nodes, at[p], EdgesOf(nodes, subtree, nodes)[p]);
      EdgeIsCall(profile, subtree, at[p].0, at[p].1, ChildrenOf(nodes[at[p].0])[at[p].1]);
    }
    forall i, k, c, j | ChildAt(nodes, i, k, c) && LastListed(nodes, c, j) ensures (i, k) in at {
      assert nodes[j].id == c;
      assert KnownPlace(nodes, nodes, (i, k));
    }
  }

  /** The runtime call edges: one per parent-child relation, weighted by the child's subtree total. */
  method CallEdges(profile: Profile) returns (edges: seq<RuntimeCallEdge>)
    ensures ListsCalls(profile, edges)
    ensures WeightedEdges(profile.nodes, edges)
    ensures Forest(profile.nodes) ==>
              edges == EdgesOf(profile.nodes, TotalsOf(profile.nodes, SampleCounts(profile)), profile.nodes)
  {
    hide Forest, TotalsOf, Ids, EdgesFrom, SampleCounts;
    var subtree := SubtreeSamples(profile);
    var nodes := profile.nodes;
    edges := [];
    for i := 0 to |nodes|
      invariant edges == EdgesOf(nodes, subtree, nodes[..i])
    {
      assert nodes[..i + 1][..i] == nodes[..i];
      var more := EdgesFromNode(nodes, subtree, nodes[i]);
      edges := edges + more;
    }
    assert nodes[..|nodes|] == nodes;
    ghost var at := PlacesOfCalls(profile, subtree);
  }

  ghost function Flow(): RuntimeCallEdge -> real {
    (e: RuntimeCallEdge) => e.samples
  }

  lemma {:induction false} SumEdgesFrom(nodes: seq<ProfileNode>, subtree: map<int, real>, caller: ProfileNode, children: seq<int>)
    ensures Sum(EdgesFrom(nodes, subtree, caller, children), Flow()) == Sum(KnownOnly(nodes, children), FinishedTotals(subtree))
  {
    hide RefOf;
    if children != [] {
      var rest, c := children[..|children| - 1], children[|children| - 1];
      SumEdgesFrom(nodes, subtree, caller, rest);
      var before, known := EdgesFrom(nodes, subtree, caller, rest), KnownOnly(nodes, rest);
      if Known(nodes, c) {
        var edges := EdgesFrom(nodes, subtree, caller, children);
        SumAppend(before, edges[|edges| - 1], Flow());
        SumAppend(known, c, FinishedTotals(subtree));
      } else {
        assert EdgesFrom(nodes, subtree, caller, children) == before && KnownOnly(nodes, children) == known;
      }
    }
  }

  /** In a forest the samples under a node are its own plus what flows over the calls it makes. */
  lemma CallsCarryTotals(profile: Profile, i: nat)
    requires Forest(profile.nodes) && i < |profile.nodes|
    ensures var nodes, self := profile.nodes, SampleCounts(profile);
            DescendantSamples(nodes, self, nodes[i].id) ==
              GetOr0(self, nodes[i].id) + Sum(EdgesFrom(nodes, TotalsOf(nodes, self), nodes[i], ChildrenOf(nodes[i])), Flow())
  {
    var nodes, self := profile.nodes, SampleCounts(profile);
    var x := nodes[i].id;
    IndexOfNode(nodes, i);
    TotalFromChildren(nodes, self, x);
    SumEdgesFrom(nodes, TotalsOf(nodes, self), nodes[i], ChildrenOf(nodes[i]));
    assert Kids(nodes, x) == KnownOnly(nodes, ChildrenOf(nodes[i]));
    forall c | c in Kids(nodes, x) ensures FinishedTotals(TotalsOf(nodes, self))(c) == DescendantsOf(nodes, self)(c) {
      KnownIsId(nodes, c);
    }
    SumCongruent(Kids(nodes, x), FinishedTotals(TotalsOf(nodes, self)), DescendantsOf(nodes, self));
  }

  // ---------- frames ----------

  /** Elapsed time before tick `i`, with negative and missing deltas read as 0. */
  function SafeDelta(deltas: seq<real>, i: int): real {
    if 0 <= i < |deltas| && deltas[i] > 0.0 then deltas[i] else 0.0
  }

  function Deltas(profile: Profile): seq<real> {
    if profile.timeDeltas.Some? then profile.timeDeltas.value else []
  }

  ghost function TickMicros(samples: seq<int>, deltas: seq<real>): map<int, real> {
    if samples == [] then map[] else
      Bump(TickMicros(samples[..|samples| - 1], deltas), samples[|samples| - 1], SafeDelta(deltas, |samples| - 1))
  }

  ghost function Micros(profile: Profile): map<int, real> {
    if HasTicks(profile) then TickMicros(profile.samples.value, Deltas(profile)) else map[]
  }

  /** The frames of the nodes that received samples. */
  function FramesOf(nodes: seq<ProfileNode>, counts: map<int, real>, micros: map<int, real>): seq<FrameSample> {
    if nodes == [] then [] else
      var node := nodes[|nodes| - 1];
      var frame := node.callFrame;
      FramesOf(nodes[..|nodes| - 1], counts, micros) +
      if GetOr0(counts, node.id) == 0.0 then []
      else [FrameSample(frame.functionName, frame.url, frame.lineNumber + 1, frame.columnNumber,
                        GetOr0(counts, node.id), GetOr0(micros, node.id))]
  }

  /** The frame of the node at `i`, line one-based, with the node's samples and time. */
  ghost predicate IsFrame(profile: Profile, i: int, f: FrameSample) {
    && 0 <= i < |profile.nodes|
    && f.functionName == profile.nodes[i].callFrame.functionName && f.url == profile.nodes[i].callFrame.url
    && f.line == profile.nodes[i].callFrame.lineNumber + 1 && f.column == profile.nodes[i].callFrame.columnNumber
    && f.samples == GetOr0(SampleCounts(profile), profile.nodes[i].id) != 0.0
    && f.selfMicros == GetOr0(Micros(profile), profile.nodes[i].id)
  }

  /** The frames are those of the sampled nodes, each once, in order. */
  ghost predicate FramePlaces(profile: Profile, frames: seq<FrameSample>, at: seq<int>) {
    && |at| == |frames|
    && (forall p :: 0 <= p < |frames| ==> IsFrame(profile, at[p], frames[p]))
    && (forall p, q :: 0 <= p < q < |at| ==> at[p] < at[q])
    && (forall i :: 0 <= i < |profile.nodes| && GetOr0(SampleCounts(profile), profile.nodes[i].id) != 0.0 ==> i in at)
  }

  ghost predicate ListsFrames(profile: Profile, frames: seq<FrameSample>) {
    exists at :: FramePlaces(profile, frames, at)
  }

  lemma {:induction false} PlacesOfFrames(profile: Profile, n: nat) returns (at: seq<int>)
    requires n <= |profile.nodes|
    ensures var frames := FramesOf(profile.nodes[..n], SampleCounts(profile), Micros(profile));
            && |at| == |frames|
            && (forall p :: 0 <= p < |frames| ==> at[p] < n && IsFrame(profile, at[p], frames[p]))
            && (forall p, q :: 0 <= p < q < |at| ==> at[p] < at[q])
            && (forall i :: 0 <= i < n && GetOr0(SampleCounts(profile), profile.nodes[i].id) != 0.0 ==> i in at)
  {
    hide SampleCounts, Micros;
    at := [];
    if n > 0 {
      var before := PlacesOfFrames(profile, n - 1);
      assert profile.nodes[..n][..n - 1] == profile.nodes[..n - 1];
      at := before + if GetOr0(SampleCounts(profile), profile.nodes[n - 1].id) != 0.0 then [n - 1] else [];
    }
  }

  /** One frame per sampled profile node, with its sample count and self time. */
  method Aggregate(profile: Profile) returns (frames: seq<FrameSample>)
    ensures ListsFrames(profile, frames)
    ensures frames == FramesOf(profile.nodes, SampleCounts(profile), Micros(profile))
  {
    var counts: map<int, real> := map[];
    var micros: map<int, real> := map[];
    var nodes := profile.nodes;
    if HasTicks(profile) {
      var samples, deltas := profile.samples.value, Deltas(profile);
      for i := 0 to |samples|
        invariant counts == TickCounts(samples[..i]) && micros == TickMicros(samples[..i], deltas)
      {
        assert samples[..i + 1][..i] == samples[..i];
        counts := Bump(counts, samples[i], 1.0);
        micros := Bump(micros, samples[i], SafeDelta(deltas, i));
      }
      assert samples[..|samples|] == samples;
    } else {
      counts := SamplesByNode(profile);
    }
    frames := [];
    for i := 0 to |nodes|
      invariant frames == FramesOf(nodes[..i], counts, micros)
    {
      assert nodes[..i + 1][..i] == nodes[..i];
      var node := nodes[i];
      var sampleCount := GetOr0(counts, node.id);
      if sampleCount != 0.0 {
        frames := frames + [FrameSample(node.callFrame.functionName, node.callFrame.url, node.callFrame.lineNumber + 1,
                                        node.callFrame.columnNumber, sampleCount, GetOr0(micros, node.id))];
      }
    }
    assert nodes[..|nodes|] == nodes;
    ghost var at := PlacesOfFrames(profile, |nodes|);
    assert FramePlaces(profile, frames, at);
  }

  function HitsFn(): ProfileNode -> real {
    (n: ProfileNode) => Hits(n)
  }

  /** Total ticks, or total hit counts when no ticks are listed. */
  function TotalSamples(profile: Profile): real {
    if HasTicks(profile) then |profile.samples.value| as real else Sum(profile.nodes, HitsFn())
  }

  // ---------- frames account for the profile ----------

  ghost function FrameSamples(): FrameSample -> real {
    (f: FrameSample) => f.samples
  }

  ghost function FrameMicros(): FrameSample -> real {
    (f: FrameSample) => f.selfMicros
  }

  lemma {:induction false} SumFrames(nodes: seq<ProfileNode>, counts: map<int, real>, micros: map<int, real>)
    requires forall id :: id in micros && GetOr0(counts, id) == 0.0 ==> micros[id] == 0.0
    ensures Sum(FramesOf(nodes, counts, micros), FrameSamples()) == Sum(nodes, OwnSamples(counts))
    ensures Sum(FramesOf(nodes, counts, micros), FrameMicros()) == Sum(nodes, OwnSamples(micros))
  {
    if nodes != [] {
      var rest, node := nodes[..|nodes| - 1], nodes[|nodes| - 1];
      SumFrames(rest, counts, micros);
      var before, all := FramesOf(rest, counts, micros), FramesOf(nodes, counts, micros);
      if GetOr0(counts, node.id) == 0.0 {
        assert all == before;
      } else {
        SumAppend(before, all[|all| - 1], FrameSamples());
        SumAppend(before, all[|all| - 1], FrameMicros());
      }
    }
  }

  /** Adding to one id's count adds as much over the node list when the id is a node's, else nothing. */
  lemma SumBump(nodes: seq<ProfileNode>, m: map<int, real>, id: int, amount: real)
    requires DistinctNodeIds(nodes)
    ensures Sum(nodes, OwnSamples(Bump(m, id, amount))) == Sum(nodes, OwnSamples(m)) + if Known(nodes, id) then amount else 0.0
  {
    var extra: ProfileNode -> real := (n: ProfileNode) => if n.id == id then amount else 0.0;
    var at := NodeIndex(nodes, id);
    forall i | 0 <= i < |nodes| ensures extra(nodes[i]) == if i == at then amount else 0.0 {
      IndexOfNode(nodes, i);
    }
    SumAtMostOne(nodes, extra, amount, at);
    SumAdd(nodes, OwnSamples(m), extra, OwnSamples(Bump(m, id, amount)));
  }

  /** Ticks whose id is a listed node, and the time before them. */
  ghost function KnownTicks(nodes: seq<ProfileNode>, samples: seq<int>): nat {
    if samples == [] then 0 else
      KnownTicks(nodes, samples[..|samples| - 1]) + if Known(nodes, samples[|samples| - 1]) then 1 else 0
  }

  ghost function KnownMicros(nodes: seq<ProfileNode>, samples: seq<int>, deltas: seq<real>): real {
    if samples == [] then 0.0 else
      KnownMicros(nodes, samples[..|samples| - 1], deltas) +
      if Known(nodes, samples[|samples| - 1]) then SafeDelta(deltas, |samples| - 1) else 0.0
  }

  lemma {:induction false} TickSums(nodes: seq<ProfileNode>, samples: seq<int>, deltas: seq<real>)
    requires DistinctNodeIds(nodes)
    ensures Sum(nodes, OwnSamples(TickCounts(samples))) == KnownTicks(nodes, samples) as real
    ensures Sum(nodes, OwnSamples(TickMicros(samples, deltas))) == KnownMicros(nodes, samples, deltas)
    ensures forall id :: id in TickCounts(samples) ==> TickCounts(samples)[id] > 0.0
    ensures TickMicros(samples, deltas).Keys == TickCounts(samples).Keys
  {
    if samples == [] {
      SumZero(nodes, OwnSamples(map[]));
    } else {
      var rest, id := samples[..|samples| - 1], samples[|samples| - 1];
      TickSums(nodes, rest, deltas);
      SumBump(nodes, TickCounts(rest), id, 1.0);
      SumBump(nodes, TickMicros(rest, deltas), id, SafeDelta(deltas, |samples| - 1));
    }
  }

  lemma {:induction false} KnownTicksBound(nodes: seq<ProfileNode>, samples: seq<int>)
    ensures KnownTicks(nodes, samples) <= |samples|
    ensures KnownTicks(nodes, samples) == |samples| <==> forall id :: id in samples ==> Known(nodes, id)
  {
    if samples != [] {
      KnownTicksBound(nodes, samples[..|samples| - 1]);
      assert samples == samples[..|samples| - 1] + [samples[|samples| - 1]];
    }
  }

  ghost function PositiveHits(): ProfileNode -> real {
    (n: ProfileNode) => if Hits(n) > 0.0 then Hits(n) else 0.0
  }

  ghost function NegativeHits(): ProfileNode -> real {
    (n: ProfileNode) => if Hits(n) > 0.0 then 0.0 else -Hits(n)
  }

  lemma {:induction false} HitCountIs(nodes: seq<ProfileNode>, i: int)
    requires DistinctNodeIds(nodes) && 0 <= i < |nodes|
    ensures GetOr0(HitCounts(nodes), nodes[i].id) == PositiveHits()(nodes[i])
    ensures forall id :: id in HitCounts(nodes) ==> Known(nodes, id)
  {
    var rest := nodes[..|nodes| - 1];
    HitCountsKnown(rest);
    HitCountsKnown(nodes);
    if i < |rest| {
      HitCountIs(rest, i);
    } else {
      assert forall j :: 0 <= j < |rest| ==> rest[j].id != nodes[i].id;
    }
  }

  lemma {:induction false} HitCountsKnown(nodes: seq<ProfileNode>)
    ensures forall id :: id in HitCounts(nodes) ==> Known(nodes, id)
  {
    if nodes != [] {
      HitCountsKnown(nodes[..|nodes| - 1]);
    }
  }

  /** A node's ticks are those that name it, and its time the non-negative deltas before them. */
  lemma {:induction false} TicksOfNode(samples: seq<int>, deltas: seq<real>, id: int)
    ensures GetOr0(TickCounts(samples), id) == multiset(samples)[id] as real
    ensures GetOr0(TickMicros(samples, deltas), id) == Sum(Range(|samples|), TimeBefore(samples, deltas, id))
  {
    if samples != [] {
      var n := |samples| - 1;
      var rest := samples[..n];
      TicksOfNode(rest, deltas, id);
      assert samples == rest + [samples[n]];
      SumRangeStep(n, TimeBefore(samples, deltas, id));
      forall i | i in Range(n) ensures TimeBefore(samples, deltas, id)(i) == TimeBefore(rest, deltas, id)(i) {
        assert samples[i] == rest[i];
      }
      SumCongruent(Range(n), TimeBefore(samples, deltas, id), TimeBefore(rest, deltas, id));
    }
  }

  /** Delta before tick `i`, if it names `id` and the delta is not negative. */
  ghost function TimeBefore(samples: seq<int>, deltas: seq<real>, id: int): int -> real {
    i => if 0 <= i < |samples| && samples[i] == id && i < |deltas| && deltas[i] > 0.0 then deltas[i] else 0.0
  }

  /** Sample counts that the profile's total includes but no frame can carry. */
  ghost predicate EveryTickKnown(profile: Profile) {
    if HasTicks(profile) then forall id :: id in profile.samples.value ==> Known(profile.nodes, id)
    else forall n :: n in profile.nodes ==> Hits(n) >= 0.0
  }

  /**
   With distinct node ids the frames' samples add up to the profile's total exactly when every tick
   names a listed node (or, without ticks, when no hit count is negative).
   */
  lemma FramesAccountForSamples(profile: Profile)
    requires DistinctNodeIds(profile.nodes)
    ensures var frames := FramesOf(profile.nodes, SampleCounts(profile), Micros(profile));
            Sum(frames, FrameSamples()) == TotalSamples(profile) <==> EveryTickKnown(profile)
  {
    var nodes := profile.nodes;
    if HasTicks(profile) {
      var samples := profile.samples.value;
      TickSums(nodes, samples, Deltas(profile));
      KnownTicksBound(nodes, samples);
      SumFrames(nodes, SampleCounts(profile), Micros(profile));
    } else {
      SumFrames(nodes, SampleCounts(profile), Micros(profile));
      forall n | n in nodes ensures OwnSamples(HitCounts(nodes))(n) == PositiveHits()(n) {
        var i :| 0 <= i < |nodes| && nodes[i] == n;
        HitCountIs(nodes, i);
      }
      SumCongruent(nodes, OwnSamples(HitCounts(nodes)), PositiveHits());
      SumAdd(nodes, HitsFn(), NegativeHits(), PositiveHits());
      SumNonNegative(nodes, NegativeHits());
      if forall n :: n in nodes ==> Hits(n) >= 0.0 {
        SumZero(nodes, NegativeHits());
      }
    }
  }

  // ---------- frames account for time ----------

  function Ticks(profile: Profile): seq<int> {
    if HasTicks(profile) then profile.samples.value else []
  }

  ghost function Identity(): real -> real {
    (d: real) => d
  }

  /** All elapsed time that the profile lists. */
  ghost function TotalTime(profile: Profile): real {
    Sum(Deltas(profile), Identity())
  }

  /** Size of a negative delta before tick `i`. */
  ghost function Negative(deltas: seq<real>): int -> real {
    i => if 0 <= i < |deltas| && deltas[i] < 0.0 then -deltas[i] else 0.0
  }

  /** Positive delta before tick `i` of a node that is not listed. */
  ghost function Unlisted(nodes: seq<ProfileNode>, samples: seq<int>, deltas: seq<real>): int -> real {
    i => if 0 <= i < |samples| && !Known(nodes, samples[i]) then SafeDelta(deltas, i) else 0.0
  }

  /** Deltas beyond the last tick. */
  function Surplus(samples: seq<int>, deltas: seq<real>): seq<real> {
    if |samples| < |deltas| then deltas[|samples|..] else []
  }

  function DeltaOr0(deltas: seq<real>, i: int): real {
    if 0 <= i < |deltas| then deltas[i] else 0.0
  }

  ghost function DeltasAt(deltas: seq<real>): int -> real {
    i => DeltaOr0(deltas, i)
  }

  /** Attributed time, tick by tick: every delta, less the negative ones and those before unlisted ticks. */
  lemma {:induction false} KnownMicrosIs(nodes: seq<ProfileNode>, samples: seq<int>, deltas: seq<real>)
    ensures KnownMicros(nodes, samples, deltas)
         == Sum(Range(|samples|), DeltasAt(deltas)) + Sum(Range(|samples|), Negative(deltas))
            - Sum(Range(|samples|), Unlisted(nodes, samples, deltas))
  {
    if samples != [] {
      var n := |samples| - 1;
      var rest := samples[..n];
      KnownMicrosIs(nodes, rest, deltas);
      SumRangeStep(n, DeltasAt(deltas));
      SumRangeStep(n, Negative(deltas));
      SumRangeStep(n, Unlisted(nodes, samples, deltas));
      forall i | i in Range(n) ensures Unlisted(nodes, samples, deltas)(i) == Unlisted(nodes, rest, deltas)(i) {
        assert samples[i] == rest[i];
      }
      SumCongruent(Range(n), Unlisted(nodes, samples, deltas), Unlisted(nodes, rest, deltas));
    }
  }

  /** The deltas before the first `n` ticks are those not beyond them. */
  lemma {:induction false} DeltasUpTo(deltas: seq<real>, n: nat)
    ensures Sum(Range(n), DeltasAt(deltas)) == Sum(if n < |deltas| then deltas[..n] else deltas, Identity())
  {
    if n > 0 {
      DeltasUpTo(deltas, n - 1);
      SumRangeStep(n - 1, DeltasAt(deltas));
      if n - 1 < |deltas| {
        SumPrefix(deltas, n - 1, Identity());
      }
    }
    assert deltas[..|deltas|] == deltas;
  }

  /** All listed time, less the negative deltas before ticks, those before unlisted ticks and those beyond the last. */
  ghost function TimeKept(profile: Profile): real {
    var samples, deltas := Ticks(profile), Deltas(profile);
    TotalTime(profile) + Sum(Range(|samples|), Negative(deltas))
    - Sum(Range(|samples|), Unlisted(profile.nodes, samples, deltas)) - Sum(Surplus(samples, deltas), Identity())
  }

  /**
   How the frames' self time differs from the sum of all deltas, for every profile: negative deltas
   before ticks are left out, and positive ones before unlisted ticks and all beyond the last tick are lost.
   */
  lemma TimeDifference(profile: Profile)
    requires DistinctNodeIds(profile.nodes)
    ensures Sum(FramesOf(profile.nodes, SampleCounts(profile), Micros(profile)), FrameMicros()) == TimeKept(profile)
  {
    var nodes, samples, deltas := profile.nodes, Ticks(profile), Deltas(profile);
    FramesTime(profile);
    KnownMicrosIs(nodes, samples, deltas);
    DeltasUpTo(deltas, |samples|);
    if |samples| < |deltas| {
      assert deltas == deltas[..|samples|] + deltas[|samples|..];
      SumConcat(deltas[..|samples|], deltas[|samples|..], Identity());
    }
  }

  /** The frames carry the time before ticks of listed nodes. */
  lemma FramesTime(profile: Profile)
    requires DistinctNodeIds(profile.nodes)
    ensures Sum(FramesOf(profile.nodes, SampleCounts(profile), Micros(profile)), FrameMicros())
         == KnownMicros(profile.nodes, Ticks(profile), Deltas(profile))
  {
    if HasTicks(profile) {
      TickSums(profile.nodes, profile.samples.value, Deltas(profile));
    } else {
      SumZero(profile.nodes, OwnSamples(map[]));
    }
    SumFrames(profile.nodes, SampleCounts(profile), Micros(profile));
  }

  /** Every positive delta stands before a tick that names a listed node. */
  ghost predicate TimeLands(nodes: seq<ProfileNode>, samples: seq<int>, deltas: seq<real>) {
    forall i :: 0 <= i < |deltas| && deltas[i] > 0.0 ==> i < |samples| && Known(nodes, samples[i])
  }

  /**
   The frames' self time is the sum of all deltas, as documented, exactly when the negative deltas
   before ticks weigh as much as the time before unlisted ticks and beyond the last. Without negative
   deltas that is: when every positive delta stands before a tick that names a listed node.
   */
  lemma FramesAccountForTime(profile: Profile)
    requires DistinctNodeIds(profile.nodes)
    ensures var nodes, samples, deltas := profile.nodes, Ticks(profile), Deltas(profile);
            var time := Sum(FramesOf(nodes, SampleCounts(profile), Micros(profile)), FrameMicros());
            && (time == TotalTime(profile) <==>
                Sum(Range(|samples|), Negative(deltas)) == Sum(Range(|samples|), Unlisted(nodes, samples, deltas)) + Sum(Surplus(samples, deltas), Identity()))
            && ((forall d :: d in deltas ==> d >= 0.0) ==> (time == TotalTime(profile) <==> TimeLands(nodes, samples, deltas)))
  {
    TimeDifference(profile);
    if forall d :: d in Deltas(profile) ==> d >= 0.0 {
      LostTime(profile.nodes, Ticks(profile), Deltas(profile));
    }
  }

  lemma LostTime(nodes: seq<ProfileNode>, samples: seq<int>, deltas: seq<real>)
    requires forall d :: d in deltas ==> d >= 0.0
    ensures Sum(Range(|samples|), Negative(deltas)) == 0.0
    ensures Sum(Range(|samples|), Unlisted(nodes, samples, deltas)) + Sum(Surplus(samples, deltas), Identity()) == 0.0
       <==> TimeLands(nodes, samples, deltas)
  {
    var lost, beyond := Unlisted(nodes, samples, deltas), Surplus(samples, deltas);
    forall i | 0 <= i < |deltas| ensures deltas[i] >= 0.0 {
      assert deltas[i] in deltas;
    }
    SumZero(Range(|samples|), Negative(deltas));
    SumZeroIff(Range(|samples|), lost);
    SumNonNegative(Range(|samples|), lost);
    forall d | d in beyond ensures Identity()(d) >= 0.0 {
      assert d in deltas;
    }
    SumZeroIff(beyond, Identity());
    SumNonNegative(beyond, Identity());
    hide Sum;
    if TimeLands(nodes, samples, deltas) {
      forall d | d in beyond ensures d == 0.0 {
        var k :| 0 <= k < |beyond| && beyond[k] == d;
        assert deltas[|samples| + k] == d && d in deltas;
      }
    }
    if (forall i :: i in Range(|samples|) ==> lost(i) == 0.0) && (forall d :: d in beyond ==> Identity()(d) == 0.0) {
      forall i | 0 <= i < |deltas| ensures deltas[i] > 0.0 ==> i < |samples| && Known(nodes, samples[i]) {
        if i < |samples| {
          assert Range(|samples|)[i] == i && lost(i) == 0.0;
        } else {
          assert beyond[i - |samples|] == deltas[i] && Identity()(deltas[i]) == 0.0;
        }
      }
    }
  }

  // ---------- where the documented sum fails ----------

  ghost function OneNode(samples: seq<int>, deltas: seq<real>): Profile {
    Profile([ProfileNode(1, CallFrame("f", "u", 0, 0), None, None)], Some(samples), Some(deltas))
  }

  /** A negative delta before a listed tick: nothing is lost, but the sum is -5 and the attributed time 0. */
  lemma NegativeDeltaIsDropped()
    ensures var p := OneNode([1], [-5.0]);
            && TimeLands(p.nodes, Ticks(p), Deltas(p)) && TotalTime(p) == -5.0
            && Sum(FramesOf(p.nodes, SampleCounts(p), Micros(p)), FrameMicros()) == 0.0
  {
    var p := OneNode([1], [-5.0]);
    FramesTime(p);
    assert Deltas(p)[..0] == [] && Ticks(p)[..0] == [];
  }

  /** A negative delta can make up for one that is lost: the sum and the attributed time are both 0. */
  lemma NegativeDeltaCanHideLoss()
    ensures var p := OneNode([1, 2], [-5.0, 5.0]);
            && !TimeLands(p.nodes, Ticks(p), Deltas(p)) && TotalTime(p) == 0.0
            && Sum(FramesOf(p.nodes, SampleCounts(p), Micros(p)), FrameMicros()) == 0.0
  {
    var p := OneNode([1, 2], [-5.0, 5.0]);
    FramesTime(p);
    assert Deltas(p)[..1] == [-5.0] && [-5.0][..0] == [] && Ticks(p)[..1] == [1] && [1][..0] == [];
    assert !Known(p.nodes, 2) && Deltas(p)[1] > 0.0;
  }
}

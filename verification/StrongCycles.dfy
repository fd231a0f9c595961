/** strongCycles of src/query/graph_query.ts: the call cycles, largest first. */
module StrongCycles {
  import opened Paths
  import opened CallGraph
  import opened CostFlow
  import opened CostModel
  import opened CostOrder
  import opened StrongComponents
  import opened Ranking

  function NodesAt(nodes: seq<StoredNode>, members: seq<int>): seq<StoredNode>
    requires forall i :: 0 <= i < |members| ==> 0 <= members[i] < |nodes|
  {
    seq(|members|, k requires 0 <= k < |members| => nodes[members[k]])
  }

  function NotShorter(): (seq<StoredNode>, seq<StoredNode>) -> bool {
    (a: seq<StoredNode>, b: seq<StoredNode>) => |a| >= |b|
  }

  /** Each group is exactly one class of mutually reachable nodes, and has more than one node. */
  ghost predicate IsCycle(nodes: seq<StoredNode>, edges: seq<CallEdge>, group: seq<StoredNode>) {
    && |group| > 1
    && (forall i, j :: 0 <= i < j < |group| ==> group[i].id != group[j].id)
    && (forall x :: x in group ==> x in nodes)
    && (forall x, y :: x in group && y in nodes ==> (y in group <==> Mutual(IdArcs(nodes, edges), x.id, y.id)))
  }

  /** The node lies on a call cycle through another node. */
  ghost predicate OnCycle(nodes: seq<StoredNode>, edges: seq<CallEdge>, x: StoredNode) {
    exists y :: y in nodes && y.id != x.id && Mutual(IdArcs(nodes, edges), x.id, y.id)
  }

  ghost predicate Acyclic(arcs: set<(string, string)>) {
    forall a :: !ReachesByCall(arcs, a, a)
  }

  lemma GroupOfMembers(nodes: seq<StoredNode>, net: Net, c: int, y: StoredNode)
    requires DistinctIds(nodes) && |net.comp| == |nodes|
    ensures var members := MembersBelow(net.comp, |nodes|, c);
            && (forall i :: 0 <= i < |members| ==> 0 <= members[i] < |nodes|)
            && (y in NodesAt(nodes, members) <==> y in nodes && CompOfId(nodes, net, y.id) == c)
  {
    var members := MembersBelow(net.comp, |nodes|, c);
    MembersAre(net.comp, |nodes|, c);
    assert forall i :: 0 <= i < |members| ==> members[i] in members;
    var group := NodesAt(nodes, members);
    if y in group {
      var k :| 0 <= k < |group| && group[k] == y;
      assert members[k] in members && y == nodes[members[k]];
      PositionOfNode(nodes, members[k]);
    }
    if y in nodes && CompOfId(nodes, net, y.id) == c {
      var j :| 0 <= j < |nodes| && nodes[j] == y;
      PositionOfNode(nodes, j);
      assert j in members;
      var k :| 0 <= k < |members| && members[k] == j;
      assert group[k] == y;
    }
  }

  /** Different positions hold different ids. */
  lemma GroupIdsDistinct(nodes: seq<StoredNode>, members: seq<int>)
    requires DistinctIds(nodes) && forall i :: 0 <= i < |members| ==> 0 <= members[i] < |nodes|
    requires forall i, j :: 0 <= i < j < |members| ==> members[i] < members[j]
    ensures |NodesAt(nodes, members)| == |members|
    ensures forall i, j :: 0 <= i < j < |members| ==> NodesAt(nodes, members)[i].id != NodesAt(nodes, members)[j].id
  {
  }

  lemma MembersMutual(nodes: seq<StoredNode>, edges: seq<CallEdge>, net: Net, c: int)
    requires DistinctIds(nodes) && Numbering(Graph(nodes, edges), net.comp, net.count)
    requires |MembersBelow(net.comp, |nodes|, c)| > 1
    ensures forall i :: 0 <= i < |MembersBelow(net.comp, |nodes|, c)| ==> 0 <= MembersBelow(net.comp, |nodes|, c)[i] < |nodes|
    ensures IsCycle(nodes, edges, NodesAt(nodes, MembersBelow(net.comp, |nodes|, c)))
  {
    var members := MembersBelow(net.comp, |nodes|, c);
    MembersAre(net.comp, |nodes|, c);
    assert forall i :: 0 <= i < |members| ==> members[i] in members;
    hide MembersBelow, CompOfId, Numbering, Graph, IdArcs, Mutual, NodesAt;
    var group := NodesAt(nodes, members);
    GroupIdsDistinct(nodes, members);
    forall y ensures y in group <==> y in nodes && CompOfId(nodes, net, y.id) == c {
      GroupOfMembers(nodes, net, c, y);
    }
    hide DistinctIds;
    forall x, y | x in group && y in nodes
      ensures y in group <==> Mutual(IdArcs(nodes, edges), x.id, y.id)
    {
      SameNumberIffMutual(nodes, edges, net, x.id, y.id);
    }
  }

  // ---------- all cycles ----------

  /** The classes of more than one node numbered below `k`, in number order. */
  ghost predicate ListsCycles(nodes: seq<StoredNode>, edges: seq<CallEdge>, net: Net, k: nat, groups: seq<seq<StoredNode>>) {
    && (forall g :: g in groups ==> IsCycle(nodes, edges, g))
    && (forall g, x :: g in groups && x in g ==> CompOfId(nodes, net, x.id) < k)
    && (forall g, h, x :: g in groups && h in groups && x in g && x in h ==> g == h)
    && (forall g :: multiset(groups)[g] <= 1)
    && (forall x :: x in nodes && CompOfId(nodes, net, x.id) < k && OnCycle(nodes, edges, x) ==> InSome(groups, x))
  }

  ghost predicate InSome(groups: seq<seq<StoredNode>>, x: StoredNode) {
    exists g :: g in groups && x in g
  }

  lemma OnCycleIffManyMembers(nodes: seq<StoredNode>, edges: seq<CallEdge>, net: Net, x: StoredNode)
    requires DistinctIds(nodes) && Numbering(Graph(nodes, edges), net.comp, net.count) && x in nodes
    ensures OnCycle(nodes, edges, x) <==> |MembersBelow(net.comp, |nodes|, CompOfId(nodes, net, x.id))| > 1
  {
    var c := CompOfId(nodes, net, x.id);
    var members := MembersBelow(net.comp, |nodes|, c);
    MembersAre(net.comp, |nodes|, c);
    GroupOfMembers(nodes, net, c, x);
    var group := NodesAt(nodes, members);
    hide MembersBelow, CompOfId, Numbering, Graph, IdArcs, Mutual;
    if OnCycle(nodes, edges, x) {
      var y :| y in nodes && y.id != x.id && Mutual(IdArcs(nodes, edges), x.id, y.id);
      SameNumberIffMutual(nodes, edges, net, x.id, y.id);
      GroupOfMembers(nodes, net, c, y);
      var i :| 0 <= i < |group| && group[i] == x;
      var j :| 0 <= j < |group| && group[j] == y;
      assert i != j;
    }
    if |members| > 1 {
      MembersMutual(nodes, edges, net, c);
      var i :| 0 <= i < |group| && group[i] == x;
      var y := group[if i == 0 then 1 else 0];
      assert y in group;
    }
  }

  /** One more class, disjoint from those listed. */
  lemma AppendCycle(nodes: seq<StoredNode>, edges: seq<CallEdge>, net: Net, k: nat, groups: seq<seq<StoredNode>>, group: seq<StoredNode>)
    requires ListsCycles(nodes, edges, net, k, groups) && IsCycle(nodes, edges, group)
    requires forall y :: y in group <==> y in nodes && CompOfId(nodes, net, y.id) == k
    ensures ListsCycles(nodes, edges, net, k + 1, groups + [group])
  {
    var groups' := groups + [group];
    assert group[0] in group;
    hide IsCycle, OnCycle;
    assert group !in groups;
    forall x | x in nodes && CompOfId(nodes, net, x.id) < k + 1 && OnCycle(nodes, edges, x)
      ensures InSome(groups', x)
    {
      if CompOfId(nodes, net, x.id) < k {
        assert InSome(groups, x);
        var g :| g in groups && x in g;
        assert g in groups';
      } else {
        assert group in groups';
      }
    }
  }

  lemma ListNextCycle(nodes: seq<StoredNode>, edges: seq<CallEdge>, net: Net, k: nat, groups: seq<seq<StoredNode>>)
    requires DistinctIds(nodes) && Numbering(Graph(nodes, edges), net.comp, net.count)
    requires ListsCycles(nodes, edges, net, k, groups) && k < net.count
    ensures forall i :: 0 <= i < |MembersBelow(net.comp, |nodes|, k)| ==> 0 <= MembersBelow(net.comp, |nodes|, k)[i] < |nodes|
    ensures var members := MembersBelow(net.comp, |nodes|, k);
            ListsCycles(nodes, edges, net, k + 1, if |members| > 1 then groups + [NodesAt(nodes, members)] else groups)
  {
    var members := MembersBelow(net.comp, |nodes|, k);
    MembersAre(net.comp, |nodes|, k);
    assert forall i :: 0 <= i < |members| ==> members[i] in members;
    hide MembersBelow, OnCycle, Numbering;
    if |members| > 1 {
      forall y ensures y in NodesAt(nodes, members) <==> y in nodes && CompOfId(nodes, net, y.id) == k {
        GroupOfMembers(nodes, net, k, y);
      }
      MembersMutual(nodes, edges, net, k);
      AppendCycle(nodes, edges, net, k, groups, NodesAt(nodes, members));
    } else {
      forall x | x in nodes && CompOfId(nodes, net, x.id) == k ensures !OnCycle(nodes, edges, x) {
        OnCycleIffManyMembers(nodes, edges, net, x);
      }
    }
  }

  lemma CycleReturns(nodes: seq<StoredNode>, edges: seq<CallEdge>, x: StoredNode)
    requires OnCycle(nodes, edges, x)
    ensures ReachesByCall(IdArcs(nodes, edges), x.id, x.id)
  {
    hide IdArcs;
    var arcs := IdArcs(nodes, edges);
    var y :| y in nodes && y.id != x.id && Mutual(arcs, x.id, y.id);
    var p :| PathFromTo(arcs, p, x.id, y.id);
    PathTail(arcs, p);
    assert PathFromTo(arcs, p[1..], p[1], y.id);
    ReachesTransitive(arcs, p[1], y.id, x.id);
  }

  lemma ReturnIsCycle(nodes: seq<StoredNode>, edges: seq<CallEdge>, a: string)
    requires ReachesByCall(IdArcs(nodes, edges), a, a)
    ensures exists x :: x in nodes && OnCycle(nodes, edges, x)
  {
    hide Reaches;
    var arcs := IdArcs(nodes, edges);
    var m :| (a, m) in arcs && Reaches(arcs, m, a);
    var e :| e in edges && Live(nodes, e) && e.fromId == a && e.toId == m;
    var x, y := nodes[Position(nodes, a)], nodes[Position(nodes, m)];
    ReachesArc(arcs, a, m);
    assert x in nodes && y in nodes && x.id == a && y.id == m && y.id != x.id;
    hide IdArcs;
    assert OnCycle(nodes, edges, x);
  }

  /** A graph has a multi-node cycle exactly when some node reaches itself by live calls. */
  lemma CycleIffSomeoneOnCycle(nodes: seq<StoredNode>, edges: seq<CallEdge>)
    ensures Acyclic(IdArcs(nodes, edges)) <==> forall x :: x in nodes ==> !OnCycle(nodes, edges, x)
  {
    hide OnCycle, IdArcs, ReachesByCall;
    if x :| x in nodes && OnCycle(nodes, edges, x) {
      CycleReturns(nodes, edges, x);
    }
    if a :| ReachesByCall(IdArcs(nodes, edges), a, a) {
      ReturnIsCycle(nodes, edges, a);
    }
  }

  /** The positions of every component's nodes, in order. */
  method MemberLists(componentOf: seq<int>, componentCount: nat) returns (members: seq<seq<int>>)
    requires forall i :: 0 <= i < |componentOf| ==> 0 <= componentOf[i] < componentCount
    ensures |members| == componentCount
    ensures forall c :: 0 <= c < componentCount ==> members[c] == MembersBelow(componentOf, |componentOf|, c)
  {
    var lists := new seq<int>[componentCount](_ => []);
    for i := 0 to |componentOf|
      invariant forall c :: 0 <= c < componentCount ==> lists[c] == MembersBelow(componentOf, i, c)
    {
      lists[componentOf[i]] := lists[componentOf[i]] + [i];
    }
    members := lists[..];
  }

  /**
   The call cycles: exactly the mutual-reach classes of more than one node, each once, largest
   first; none exactly when the graph without self-calls is acyclic.
   */
  method StrongCycles(nodes: seq<StoredNode>, edges: seq<CallEdge>) returns (groups: seq<seq<StoredNode>>)
    requires DistinctIds(nodes)
    ensures forall g :: g in groups ==> IsCycle(nodes, edges, g)
    ensures forall x :: x in nodes && OnCycle(nodes, edges, x) ==> InSome(groups, x)
    ensures forall g, h, x :: g in groups && h in groups && x in g && x in h ==> g == h
    ensures forall g :: multiset(groups)[g] <= 1
    ensures forall i, j :: 0 <= i < j < |groups| ==> |groups[i]| >= |groups[j]|
    ensures groups == [] <==> Acyclic(IdArcs(nodes, edges))
  {
    var successors, outEdges, inEdges := BuildAdjacency(nodes, edges);
    NetArcsFromEdges(nodes, edges);
    SuccessorArcs(NetArcs(nodes, edges), |nodes|);
    var componentOf, componentCount := StronglyConnectedComponents(successors);
    var members := MemberLists(componentOf, componentCount);
    ghost var net := NetOf(nodes, edges, SelfTime, componentOf, componentCount);
    groups := [];
    for c := 0 to componentCount
      invariant ListsCycles(nodes, edges, net, c, groups)
    {
      ListNextCycle(nodes, edges, net, c, groups);
      if |members[c]| > 1 {
        groups := groups + [NodesAt(nodes, members[c])];
      }
    }
    ghost var listed := groups;
    groups := Sort(groups, NotShorter());
    SortPermutes(listed, NotShorter());
    SortSorts(listed, NotShorter());
    SameElements(listed, groups);
    CycleIffSomeoneOnCycle(nodes, edges);
    SortedCycles(nodes, edges, net, listed, groups);
  }

  lemma SortedCycles(nodes: seq<StoredNode>, edges: seq<CallEdge>, net: Net, listed: seq<seq<StoredNode>>, groups: seq<seq<StoredNode>>)
    requires DistinctIds(nodes) && Numbering(Graph(nodes, edges), net.comp, net.count)
    requires ListsCycles(nodes, edges, net, net.count, listed) && multiset(groups) == multiset(listed)
    requires forall g :: g in listed <==> g in groups
    ensures forall g :: g in groups ==> IsCycle(nodes, edges, g)
    ensures forall x :: x in nodes && OnCycle(nodes, edges, x) ==> InSome(groups, x)
    ensures forall g, h, x :: g in groups && h in groups && x in g && x in h ==> g == h
    ensures forall g :: multiset(groups)[g] <= 1
    ensures groups == [] <==> forall x :: x in nodes ==> !OnCycle(nodes, edges, x)
  {
    forall x | x in nodes && OnCycle(nodes, edges, x) ensures InSome(groups, x) {
      assert InSome(listed, x);
      var g :| g in listed && x in g;
    }
    if groups != [] {
      var g := groups[0];
      assert g in groups && IsCycle(nodes, edges, g);
      assert g[0] in g && g[1] in g;
      assert OnCycle(nodes, edges, g[0]);
    }
  }
}

# Codespine: verified models of its cost engine, runtime join and calculator

Dafny models of the parts of Codespine that compute something a reader cannot check by eye, with
proofs of what they compute. Loops over mutable state are Dafny methods with invariants, proved
against specification functions; what the code and its documentation promise is then proved of those
functions. `dafny verify dfyconfig.toml` checks everything.

- **Call graph** (`Paths`, `CallGraph`, `StrongComponents`, `StrongCycles`, `BlastRadius`): the iterative
  strongly-connected-components pass with its explicit stacks, the call cycles, and the caller counts.
- **Cost** (`Sums`, `CostFlow`, `CostBound`, `CostModel`, `CostOrder`, `CostById`, `CostReport`, `SharedCycle`,
  `Ranking`, `Concentration`): the propagation loops solve the flow equations of the condensed graph; what those
  conserve, when shares are fractions, that the solution is unique and independent of reading order,
  what the model and one node's breakdown say in terms of the stored nodes and calls alone, and how the
  breakdown balances.
- **Runtime data** (`CpuProfile`, `RuntimeJoin`): aggregation of a CPU profile, subtree totals over
  arbitrary children lists, and the join onto graph nodes with everything matched or dropped.
- **Calculator** (`Decimals`, `Tokenizer`, `Expressions`, `Parser`, `Calculator`): the parser is the
  grammar with the usual precedence, printing reads back, and the two evaluators agree.
- **Labels** (`Labels`): when the final community labels are distinct.

Costs, counts and weights are `real`; graph nodes are positions in the list read from the store.
Node ids are distinct (they are the primary key of the node table). `Option` and `Outcome` stand for
absent values and thrown errors.

## Where the documentation says more than the code does

- `src/query/graph_query.ts:407-410` and `docs/commands/cost.md:56-58` promise that cost is conserved
  and that `shareOfTotal` is a fraction in [0, 1]. A call cycle entered from outside at two members
  hands out its cost twice: in a graph where `r` calls both members of `a <-> b`, `r` is charged twice
  the total, a share of 2 (`SharedCycle.SharedCycleChargesTwice`). The identity that holds for every graph is
  `CostFlow.Conservation`; the roots carry exactly the total iff no cost-carrying component is entered
  at two members (`CostFlow.RootsCarryTotalIff`); a node's share is a fraction when its component
  cannot call its way into one cost-carrying component at two members (`CostReport.ShareIsFraction`);
  and a call structure keeps all shares fractions, whatever is measured on it, iff no component can
  call its way into another at two members (`CostBound.AlwaysWithinTotalIff`).
- `docs/commands/cost.md:126-127` says that callee shares and the self share sum to 1. For a member of
  a cycle that has cost they do iff no other member has self cost or calls its way out of the cycle to
  some (`CostReport.SharesSumToOneIff`); a member that only passes cost on has shares summing to 0
  (`SharedCycle.CycleMemberSharesNothing`). It also says that caller shares sum to 1: they do iff the
  node has positive inbound weight, and are all 0 otherwise (`CostReport.CallersPayInFull`).
- `src/cluster/community_labeler.ts:47-50` promises distinct labels. They are distinct iff the index
  pass meets no label it also writes (`Labels.FinalLabelsDistinctIff`). `Labels.LabelsCanCollide` is a
  collision, with the labels and hubs that `d1/a.ts`, `d2/a.ts` and `a #0.ts` give as single-file
  communities.
- `src/enrich/runtime_join.ts:164-171` promises call edges aggregated by node pair. The aggregation key
  joins two ids with `->`, so pairs can share one, and then one entry
  (`RuntimeJoin.JoinedPairsCanMerge`); each pair has its own entry iff the keys separate the pairs
  (`RuntimeJoin.EveryPairListedIff`).
- `src/enrich/cpu_profile.ts:78-81` says that attributed time is the sum of all deltas. Negative deltas
  before ticks count as 0, and deltas before ticks of unlisted nodes or beyond the last tick are lost:
  `CpuProfile.TimeDifference` is the exact difference, `CpuProfile.FramesAccountForTime` says when there
  is none, and `CpuProfile.NegativeDeltaIsDropped` and `CpuProfile.NegativeDeltaCanHideLoss` are inputs
  with a negative delta, one where the sums differ though nothing is lost and one where they agree though
  something is.

## Model

| member | source | states |
|---|---|---|
| `StrongComponents.StronglyConnectedComponents` | src/query/graph_query.ts:738-803 | Component numbers are equal exactly on mutually reachable nodes, fill 0..componentCount-1, and never go up along an edge, for every graph |
| `StrongComponents.Pass.constructor` | src/query/graph_query.ts:739-749 | The fresh arrays, stacks and counters satisfy the full invariant |
| `StrongComponents.Pass.Discover` | src/query/graph_query.ts:755-761 | Numbering and pushing a node is exactly the Open transition, stacks and next-positions in step |
| `StrongComponents.Pass.OpenNext` | src/query/graph_query.ts:768-777 | Stepping past an unseen successor and opening it is the Look transition |
| `StrongComponents.Pass.LowerNext` | src/query/graph_query.ts:768-780 | Stepping past a seen successor lowers the lowlink only through an on-stack node of smaller index, and changes nothing else |
| `StrongComponents.Pass.LookAtNext` | src/query/graph_query.ts:764-782 | One look at a successor keeps the whole invariant |
| `StrongComponents.Pass.PopComponent` | src/query/graph_query.ts:784-791 | The popped nodes, and only they, get the new number and leave the stack |
| `StrongComponents.PopDownTo` | src/query/graph_query.ts:785-790 | The popping loop ends at the given node and has numbered exactly the entries from it up |
| `StrongComponents.Pass.LeaveTop` | src/query/graph_query.ts:793-800 | Popping the work stacks hands the lowlink to the parent, and to no other node |
| `StrongComponents.Pass.FinishTop` | src/query/graph_query.ts:783-800 | Finishing a node, root of its component or not, keeps the whole invariant and discovers nothing |
| `StrongComponents.Pass.Explore` | src/query/graph_query.ts:763-801 | The work loop ends, with empty work stack, the invariant kept and no node forgotten |
| `StrongComponents.OpenKeepsInv` | src/query/graph_query.ts:755-761 | Opening a node keeps stack order, reach links and lowlink bounds |
| `StrongComponents.LookKeepsInv` | src/query/graph_query.ts:764-782 | So does looking at any successor |
| `StrongComponents.LeaveKeepsInv` | src/query/graph_query.ts:793-800 | So does leaving a node whose lowlink is below its index |
| `StrongComponents.CloseKeepsInv` | src/query/graph_query.ts:784-794 | So does numbering a component at its root: no edge from it leads to an unnumbered or higher-numbered node |
| `StrongComponents.FinalNumbering` | src/query/graph_query.ts:732-737 | The invariant with empty work stack and every node discovered is the promised numbering |
| `StrongComponents.LookProgress` | src/query/graph_query.ts:763-782 | Each look discovers a node or uses up one successor: the measure that ends the loop |
| `CallGraph.IndexNodes` | src/query/graph_query.ts:647-648 | The index map has exactly the known ids, each at its (last) position |
| `CallGraph.BuildAdjacency` | src/query/graph_query.ts:651-662 | Successor, outgoing and incoming lists hold exactly the live edges with their weights, in reading order; self-edges and unknown endpoints are dropped (`CostById.CallListsById` says so on ids) |
| `CallGraph.NetArcsFromEdges` | src/query/graph_query.ts:654-662 | The kept arcs come from exactly the edges between two known, different nodes |
| `CallGraph.ReachById` | src/query/graph_query.ts:651-664 | Reach between positions is reach between ids, so numberings speak about ids |
| `StrongCycles.StrongCycles` | src/query/graph_query.ts:280-308 | The groups are exactly the multi-node mutual-reach classes, each once, largest first; none iff the graph without self-calls is acyclic |
| `StrongCycles.MembersMutual` | src/query/graph_query.ts:301-306 | A component with several members is one whole class of mutually reachable nodes |
| `StrongCycles.OnCycleIffManyMembers` | src/query/graph_query.ts:303-305 | A node lies on a cycle through another node iff its component has more than one member |
| `StrongCycles.CycleIffSomeoneOnCycle` | src/query/graph_query.ts:280-286 | Some node reaches itself by live calls iff some node lies on a cycle with another |
| `StrongCycles.MemberLists` | src/query/graph_query.ts:301-302 | The member lists hold each component's positions in increasing order |
| `BlastRadius.ReverseEdges` | src/query/graph_query.ts:595-604 | The callers map is the reverse of the call relation, for every pair |
| `BlastRadius.ReachableCount` | src/query/graph_query.ts:613-630 | On every graph the worklist ends and counts the distinct other nodes that reach the start by one or more calls |
| `BlastRadius.BlastRadiusSizes` | src/query/graph_query.ts:594-611 | Every listed node, and no other id, gets its number of distinct transitive callers |
| `BlastRadius.RadiusFollowsReach` | src/query/graph_query.ts:594-630 | Mutually reachable nodes have equal radius; a callee that cannot call back has a strictly larger one |
| `BlastRadius.RadiusRespectsComponents` | src/query/graph_query.ts:594-630 | Radius is equal within a component and strictly grows from caller to callee on every call between components |
| `BlastRadius.LiveReachIsReach` | src/query/graph_query.ts:657-659 | Dropping self-calls changes no reach |
| `CostModel.GroupByComponent` | src/query/graph_query.ts:665-674 | Size, self cost and member list of every component |
| `CostModel.ExternalInbound` | src/query/graph_query.ts:676-683 | Each node's inbound weight counts exactly the calls from other components |
| `CostModel.InboundOf` | src/query/graph_query.ts:678-682 | The same, for the inner loop over one node's callers |
| `CostModel.FlowOfMember` | src/query/graph_query.ts:689-698 | One member's calls bring in the portions of the callee components' costs, none from within the component or over zero inbound weight |
| `CostModel.InclusiveOf` | src/query/graph_query.ts:686-700 | A component's value is its self cost plus everything its members' calls bring in |
| `CostModel.Propagate` | src/query/graph_query.ts:685-701 | Because numbers run callees first, one pass solves the flow equations of every component |
| `CostModel.RecordModel` | src/query/graph_query.ts:703-729 | Every map of the result holds every node's value under its id; totalSelf and measuredNodes count all nodes |
| `CostModel.ComputeCostModel` | src/query/graph_query.ts:644-730 | On every graph with distinct ids the model records a callees-first numbering and the solution of its flow equations, so all results about such models apply to it, those on stored nodes and calls in `CostById` among them |
| `CostModel.NumberedNetIsCondensed` | src/query/graph_query.ts:732-737 | A callees-first numbering makes every propagation read a final cost |
| `CostFlow.Conservation` | src/query/graph_query.ts:676-701 | For every graph, weights and costs: the sum of inclusive cost times (1 minus members called from outside) is the total self cost |
| `CostFlow.CallersShareAll` | src/query/graph_query.ts:694-697 | The callers of a node with positive inbound weight take out exactly its component's cost |
| `CostFlow.HandedFrom` | src/query/graph_query.ts:685-701 | A component hands out its cost once per member called from outside |
| `CostFlow.CostIffCarries` | src/query/graph_query.ts:685-701 | A component's inclusive cost is positive iff it calls its way, over positive weights, to measured self cost |
| `CostFlow.HeadCount` | src/query/graph_query.ts:676-683 | The number of called members exceeds one iff two members are called from outside, and is zero iff none is |
| `CostFlow.RootsCarryTotalIff` | src/query/graph_query.ts:407-410 | The uncalled components carry at least the total self cost, and exactly it iff no cost-carrying component is entered at two members |
| `CostFlow.UncalledCarryTotal` | src/query/graph_query.ts:676-701 | Without call cycles the uncalled nodes together carry exactly the total self cost |
| `CostFlow.ResidualInvariant` | src/query/graph_query.ts:685-701 | After k components, cost not yet handed to processed callers sums to the self cost processed so far |
| `CostFlow.ResidualNonNegative` | src/query/graph_query.ts:685-701 | Where no cost-carrying component is entered at two members, no component ever hands out more than it has |
| `CostFlow.FlowSolutionUnique` | src/query/graph_query.ts:644-701 | The flow equations determine every inclusive cost |
| `CostFlow.FlowSolutionExists` | src/query/graph_query.ts:685-701 | The flow equations of any condensed graph have a solution |
| `CostFlow.MembersMakeUpCost` | src/query/graph_query.ts:686-700 | Over a component's members, self cost plus what their calls bring in is its inclusive cost |
| `CostBound.CostWithinReach` | src/query/graph_query.ts:685-701 | A component costs at most the self cost of what it calls its way to, unless it enters a cost-carrying component at two members |
| `CostBound.CostBounded` | src/query/graph_query.ts:407-410 | Under the same condition its cost lies between 0 and the total self cost |
| `CostBound.ConservingIsBounded` | src/query/graph_query.ts:407-410 | Where the roots carry exactly the total, no inclusive cost exceeds it |
| `CostBound.AlwaysWithinTotalIff` | src/query/graph_query.ts:407-410 | A call structure keeps every cost within the total for all weights and self costs iff no component can call its way into another at two members |
| `CostBound.ForkChargesTwice` | src/query/graph_query.ts:685-701 | On any other structure, weighing two such ways and nothing else charges their origin at least twice the total |
| `CostOrder.SameNumberIffMutual` | src/query/graph_query.ts:732-803 | Two ids share a component number iff they call each other transitively |
| `CostOrder.OrderDoesNotMatter` | src/query/graph_query.ts:644-730 | Reading nodes and edges in any other order changes no inclusive cost, cycle size or inbound weight |
| `CostOrder.ModelAt` | src/query/graph_query.ts:714-728 | What the model's maps hold for an id, and that they hold exactly the known ids |
| `CostById.CallListsById` | src/query/graph_query.ts:651-662 | A node's outgoing and incoming lists are exactly its calls to and from other known nodes, each with its own count, in reading order |
| `CostById.WeightsById` | src/query/graph_query.ts:676-683 | A node's self cost is the number recorded on it, its inbound weight the counts of the calls into it from known nodes it is not mutually reachable with, and the total is the sum over all nodes |
| `CostById.CyclesById` | src/query/graph_query.ts:721-724 | Two ids carry one component number iff they call each other transitively, and a cycle's size counts its nodes |
| `CostById.InclusiveById` | docs/commands/cost.md:48-76 | The documented recurrence on ids: what was measured on a node's cycle plus, for every call out of the cycle, the callee's inclusive cost times the call's count over the weight entering the callee from outside its cycle |
| `CostById.KnownReach` | src/query/graph_query.ts:657-659 | Dropping self-calls and calls of unknown nodes changes no reach between known nodes |
| `CostReport.CostAttribution` | src/query/graph_query.ts:454-508 | An unknown id gives an empty breakdown; a known one lists exactly its external callee and caller flows, larger amounts first and equal amounts by location |
| `CostReport.CalleesById` | src/query/graph_query.ts:474-488 | The callee flows of a node are its calls out of its cycle, one a call: the callee, the call's count, the callee's inclusive cost in proportion to that count, and what that is of the node's own cost |
| `CostReport.CallersById` | src/query/graph_query.ts:490-502 | The caller flows of a node are the calls to it from outside its cycle, one a call: the caller, the count, the node's cost in proportion to it, and the call's share of the inbound weight |
| `CostReport.CostRefById` | src/query/graph_query.ts:805-817 | The reference of a node: its own measurement, the recurrence's inclusive cost, its share of the summed measurements, and the number of nodes on its cycle |
| `CostReport.SortListsByAmount` | src/query/graph_query.ts:504-505 | Under any total preorder of locations, larger amounts come first and equal amounts in that order |
| `CostReport.CalleeFlowIs` | src/query/graph_query.ts:474-487 | A listed callee flow is the amount the propagation handed over that call, and its share of the focal cost |
| `CostReport.CallerFlowIs` | src/query/graph_query.ts:489-502 | A listed caller flow is the amount the propagation charged that call, and its share of the inbound weight |
| `CostReport.ListingKeepsSums` | src/query/graph_query.ts:504-505 | Sorting the flows changes no total |
| `CostReport.CallersPayInFull` | src/query/graph_query.ts:489-502 | A node with positive inbound weight charges its whole inclusive cost to its callers, in shares that sum to 1; any other node charges nothing, in shares that sum to 0 |
| `CostReport.CycleBreakdownBalances` | src/query/graph_query.ts:474-487 | Over a component's members, self cost plus callee amounts is the inclusive cost each member reports |
| `CostReport.SharesSumToOneIff` | docs/commands/cost.md:126-127 | Self share and callee shares of a node with cost sum to 1 iff no other member of its cycle has self cost or calls its way out of the cycle to some; always outside cycles |
| `CostReport.SharesByOthers` | src/query/graph_query.ts:474-487 | For costs and weights of any sign, they sum to 1 iff the other members' parts cancel out |
| `CostFlow.OwnShareSign` | src/query/graph_query.ts:686-700 | What a node contributes to its component's cost is positive iff it has self cost or calls its way out of the component to some |
| `CostReport.SameAmountFromBothEnds` | src/query/graph_query.ts:474-502 | A call between components carries one amount, seen from its caller or its callee |
| `CostReport.ShareIsFraction` | src/query/graph_query.ts:805-817 | `shareOfTotal` lies in [0, 1] for every node whose component enters no cost-carrying component at two members |
| `CostReport.CyclicIffOnCycle` | src/query/graph_query.ts:805-817 | The `cyclic` flag marks exactly the nodes on a call cycle through another node |
| `SharedCycle.SharedCycleChargesTwice` | docs/commands/cost.md:56-58 | Three nodes and four calls on which every model gives one node a `shareOfTotal` of 2 |
| `SharedCycle.CycleMemberSharesNothing` | docs/commands/cost.md:126-127 | On the same graph a cycle member with all the cycle's cost has shares that sum to 0 |
| `SharedCycle.SharedNumbering` | src/query/graph_query.ts:732-737 | That graph has a callees-first numbering |
| `SharedCycle.OnlyNumbering` | src/query/graph_query.ts:732-737 | It has no other |
| `Ranking.SortPermutes` | src/query/graph_query.ts:387-395 | Ranking loses and invents nothing |
| `Ranking.SortSorts` | src/query/graph_query.ts:390-393 | Under any total preorder the ranking is in order |
| `Ranking.FilterMembers` | src/query/graph_query.ts:389 | Filtering keeps exactly the elements that pass, as often as they occur |
| `Ranking.FilterPlaces` | src/query/graph_query.ts:389 | What is kept keeps its order |
| `Ranking.SortStable` | src/query/graph_query.ts:390-393 | Elements that tie keep the order they came in |
| `Concentration.RuntimeConcentration` | src/report/report_data.ts:358-381 | The finding exists iff some prefix of the list reaches half of the total, names the shortest such prefix, its rounded share and its first three functions in order |
| `Concentration.RoundPercent` | src/report/report_data.ts:374 | The percentage is within half a percent of the share, the higher one halfway |
| `Concentration.PrefixIsHeaviest` | src/report/report_data.ts:352-357 | In a descending list no k elements outweigh the first k |
| `Concentration.HotspotsAre` | src/query/graph_query.ts:387-395 | Every hotspot is a graph node at its positive self time, hottest first and equal times by location; a node with positive self time is missing only from a full list of nodes at least as hot |
| `Concentration.HottestAreHottest` | src/query/graph_query.ts:387-395 | No k graph nodes have more self time together than the k hottest hotspots |
| `Concentration.FewestFunctions` | src/report/report_data.ts:352-357 | When the finding names k functions, no fewer than k graph nodes make up half of the total |
| `Concentration.SilentIffDiffuse` | src/report/report_data.ts:356-357 | The finding is silent iff no selection as small as the list makes up half of the total |
| `CpuProfile.SamplesByNode` | src/enrich/cpu_profile.ts:169-185 | Ticks per node id when ticks are listed, positive hit counts otherwise |
| `CpuProfile.SubtreeSamples` | src/enrich/cpu_profile.ts:192-223 | For any children lists the walk ends and values every node; on a forest, in any listing order, the value is own samples plus all descendants' |
| `CpuProfile.WalkFrom` | src/enrich/cpu_profile.ts:199-221 | The walk from one root ends and keeps finished totals right |
| `CpuProfile.WalkStep` | src/enrich/cpu_profile.ts:201-220 | One turn finishes a node or brings a new one on the stack; nodes finished or on the stack never decrease |
| `CpuProfile.TotalFromChildren` | src/enrich/cpu_profile.ts:213-217 | In a forest a node's descendant total is its own samples plus its children's totals |
| `CpuProfile.ChildrenDisjoint` | src/enrich/cpu_profile.ts:213-217 | Different children of a node share no descendant |
| `CpuProfile.CallEdges` | src/enrich/cpu_profile.ts:140-158 | One edge per listed child that is a node, in order: caller and callee carry the parent's and the child's function name, url and one-based line; on a forest the samples are all those under the child |
| `CpuProfile.PlacesOfCalls` | src/enrich/cpu_profile.ts:144-156 | Every edge stands for one child entry of one node, with the parent as caller and the child as callee, and every child entry that is a node has its edge |
| `CpuProfile.CallsCarryTotals` | src/enrich/cpu_profile.ts:133-158 | In a forest the samples under a node are its own plus what flows over the calls it makes |
| `CpuProfile.Aggregate` | src/enrich/cpu_profile.ts:84-123 | Exactly one frame per sampled node, in order, with the node's function name, url, one-based line and column, its samples and its time |
| `CpuProfile.TicksOfNode` | src/enrich/cpu_profile.ts:91-97 | A node's samples are the ticks that name it, its time the sum of the positive deltas before those ticks |
| `CpuProfile.FramesAccountForSamples` | src/enrich/cpu_profile.ts:84-131 | Frame samples add up to the profile's total iff every tick names a listed node (or no hit count is negative) |
| `CpuProfile.TimeDifference` | src/enrich/cpu_profile.ts:84-123 | For every profile, frame self time is the sum of all deltas, plus the size of negative ones before ticks, less those before ticks of unlisted nodes and those beyond the last tick |
| `CpuProfile.FramesAccountForTime` | src/enrich/cpu_profile.ts:78-81 | Frame self time is the sum of all deltas iff those corrections cancel; without negative deltas, iff every positive delta stands before a tick of a listed node |
| `CpuProfile.NegativeDeltaIsDropped` | src/enrich/cpu_profile.ts:95-98 | A profile whose deltas sum to -5 and whose frames have no time |
| `CpuProfile.NegativeDeltaCanHideLoss` | src/enrich/cpu_profile.ts:95-98 | A profile that loses a delta and whose sums still agree |
| `RuntimeJoin.EnclosingNode` | src/enrich/runtime_join.ts:280-306 | The scan finds the innermost enclosing node, first listed of equals; none for a non-positive line |
| `RuntimeJoin.Innermost` | src/enrich/runtime_join.ts:280-306 | No other enclosing node is narrower, or as narrow and starting later |
| `RuntimeJoin.InnermostUnique` | src/enrich/runtime_join.ts:280-306 | There is only one such node |
| `RuntimeJoin.LastDot` | src/enrich/runtime_join.ts:272-278 | The position found is the last dot's |
| `RuntimeJoin.CandidatesAre` | src/enrich/runtime_join.ts:256-278 | A node name is a candidate iff it is the function name, or non-empty, without dots, and the function name is some text, a dot, and it |
| `RuntimeJoin.NamesIff` | src/enrich/runtime_join.ts:255-266 | A node is taken as named iff the frame is no synthetic one, the node's kind is one of the five that execute, and its name is the function name or its last dotted segment |
| `RuntimeJoin.ResolveNode` | src/enrich/runtime_join.ts:236-253 | A unique name wins, a range breaks name ties, the range alone is the fallback; otherwise dropped with the reason |
| `RuntimeJoin.IndexByFile` | src/enrich/runtime_join.ts:219-230 | Each file's bucket holds exactly its nodes, in order |
| `RuntimeJoin.MatchIsSound` | src/enrich/runtime_join.ts:83-99 | Every match is a node of the frame's file that the frame names, or that encloses its line where the frame names no node of the file |
| `RuntimeJoin.MatchIsInnermost` | src/enrich/runtime_join.ts:280-306 | No enclosing candidate lies deeper than the match: among the file's named nodes for a match by name, among all its nodes for a match by range |
| `RuntimeJoin.UniqueNameWins` | src/enrich/runtime_join.ts:87-90 | The only node of the frame's file with the frame's name or its last dotted segment is matched by name, whatever the line |
| `RuntimeJoin.DropIsJustifiedIff` | src/enrich/runtime_join.ts:96-98 | A frame is dropped for a reason iff it holds: no file; no node of it named or enclosing; several listed nodes named and none of them enclosing |
| `RuntimeJoin.RecordDropDistinct` | src/enrich/runtime_join.ts:360-371 | No reason and label is ever listed twice |
| `RuntimeJoin.RecordDropTotals` | src/enrich/runtime_join.ts:360-371 | Recording a frame adds its samples and time to its own group and to no other |
| `RuntimeJoin.LabelTells` | src/enrich/runtime_join.ts:373-379 | Frames of one script reported under one label for one reason have the same shown name and, where the file was found, the same line |
| `RuntimeJoin.Join` | src/enrich/runtime_join.ts:100-162 | Every node is charged exactly the frames that resolve to it, every drop group holds exactly its frames, counters are the sums; groups listed by self time |
| `RuntimeJoin.JoinBalances` | src/enrich/runtime_join.ts:100-162 | Matched plus dropped is everything, in frames, samples and time; by name plus by range is matched |
| `RuntimeJoin.AttributionsSumToMatched` | src/enrich/runtime_join.ts:134-139 | Attributions sum to matched samples and matched time |
| `RuntimeJoin.ReorderedGroups` | src/enrich/runtime_join.ts:161 | Listing the drop groups in another order changes no group's totals and repeats none |
| `RuntimeJoin.SortKeepsJoin` | src/enrich/runtime_join.ts:151-161 | Sorted by self time, the drop groups still hold exactly their frames and sum to dropped samples and time |
| `RuntimeJoin.ProfileBalances` | src/enrich/runtime_join.ts:100-162 | End to end, matched plus dropped samples are the profile's total iff every tick is known; matched plus dropped time is the sum of all deltas up to the exact corrections, and equals it without negative deltas iff every positive delta stands before a tick of a listed node |
| `RuntimeJoin.JoinCallEdges` | src/enrich/runtime_join.ts:164-203 | Call-edge samples split into entries and drops with none lost; no entry is a self-call; matched edges are those that land on two different nodes; each key carries exactly the edges that resolve to it |
| `RuntimeJoin.EntriesAreExact` | src/enrich/runtime_join.ts:164-171 | Where keys separate pairs, an entry's samples are exactly those between its two nodes |
| `RuntimeJoin.EveryPairListedIff` | src/enrich/runtime_join.ts:187-194 | Every joined pair has an entry of its own iff keys separate pairs |
| `RuntimeJoin.KeyIsInjective` | src/enrich/runtime_join.ts:187 | Caller ids without `->` give every pair its own key |
| `RuntimeJoin.KeyCanCollide` | src/enrich/runtime_join.ts:187 | Two pairs that share a key |
| `RuntimeJoin.JoinedPairsCanMerge` | src/enrich/runtime_join.ts:164-171 | Four nodes and two call edges of which, whatever is returned, one pair has no entry of its own |
| `RuntimeJoin.NoArrowsSeparate` | src/enrich/runtime_join.ts:187-194 | Node ids without `->` keep every pair apart |
| `Tokenizer.Tokenizer.constructor` | sample_projects/project_02/src/lexer/tokenizer.ts:9-12 | The cursor starts at the beginning of the given input |
| `Tokenizer.Tokenizer.Tokenize` | sample_projects/project_02/src/lexer/tokenizer.ts:15-31 | The token list of the whole input, or the first character that starts no token |
| `Tokenizer.Tokenizer.ReadNumber` | sample_projects/project_02/src/lexer/tokenizer.ts:34-45 | The longest run of digits and dots, and the cursor right behind it |
| `Tokenizer.Tokenizer.ReadSymbol` | sample_projects/project_02/src/lexer/tokenizer.ts:48-66 | The one-character token, or an error for any other character; the cursor moves by one |
| `Tokenizer.TokensSpellInput` | sample_projects/project_02/src/lexer/tokenizer.ts:15-31 | Token values spell the input without spaces, and End comes once, last |
| `Tokenizer.ErrorIsInText` | sample_projects/project_02/src/lexer/tokenizer.ts:48-66 | The reported character stands in the text and is no space, digit, operator or parenthesis |
| `Parser.Parser.constructor` | sample_projects/project_02/src/parser/parser.ts:10-13 | The cursor starts at the first of the given tokens |
| `Parser.Parser.Parse` | sample_projects/project_02/src/parser/parser.ts:16-20 | Result and cursor are those of the grammar function for a whole token list |
| `Parser.Parser.ParseExpression` | sample_projects/project_02/src/parser/parser.ts:23-31 | Left-associative sums of terms |
| `Parser.Parser.ParseTerm` | sample_projects/project_02/src/parser/parser.ts:34-42 | Left-associative products of factors |
| `Parser.Parser.ParseFactor` | sample_projects/project_02/src/parser/parser.ts:45-51 | Unary minus, binding tighter than products |
| `Parser.Parser.ParsePrimary` | sample_projects/project_02/src/parser/parser.ts:54-80 | A parenthesised expression or a number |
| `Parser.Parser.Expect` | sample_projects/project_02/src/parser/parser.ts:97-103 | Moves past a token of the expected type, otherwise reports expected and found and stays |
| `Parser.Parser.Peek` | sample_projects/project_02/src/parser/parser.ts:92-94 | The current token's type; reading beyond the list is an error |
| `Parser.ParserIsGrammar` | sample_projects/project_02/src/parser/parser.ts:16-80 | On a list whose only End is last, the parser returns a tree iff the grammar derives the list with that tree |
| `Parser.GrammarUnambiguous` | sample_projects/project_02/src/parser/parser.ts:16-80 | The grammar gives a token list at most one tree |
| `Parser.OperatorsGroup` | sample_projects/project_02/src/parser/parser.ts:22-42 | Between any three factors two operators group as usual: `*` and `/` before `+` and `-`, otherwise to the left, each as its own operation |
| `Parser.NeverPastEnd` | sample_projects/project_02/src/parser/parser.ts:16-103 | No level consumes the closing End or reads beyond it |
| `Parser.ParseReadsNoFurther` | sample_projects/project_02/src/parser/parser.ts:16-20 | A whole parse fails only on an unexpected token: the error names a type that stands in the list and the different one that had to stand there |
| `Parser.ParsedInOrder` | sample_projects/project_02/src/parser/parser.ts:16-80 | A returned tree read left to right is the token list without parentheses and End |
| `Parser.CanonicalParses` | sample_projects/project_02/src/parser/parser.ts:16-80 | Parsing a printed tree's tokens gives the tree |
| `Expressions.NumberOfDecimal` | sample_projects/project_02/src/parser/parser.ts:76-80 | A plain decimal text reads as its number |
| `Expressions.NumberOfFraction` | sample_projects/project_02/src/parser/parser.ts:76-80 | A number with a point, moved by the length of its fraction, is the number that all its digits spell |
| `Expressions.NumberOfFiniteIff` | sample_projects/project_02/src/parser/parser.ts:76-80 | A text reads as a number iff it is digits, or digits with one point and a digit beside it |
| `Calculator.PointIsRead` | sample_projects/project_02/src/lexer/tokenizer.ts:33-45 | A number with a point is one token, parses to one literal, and is worth its digits with the point put back |
| `Calculator.DescribedTokens` | sample_projects/project_02/src/parser/ast.ts:23-57 | Wherever a printed tree stands in a text, exactly its tokens are read there |
| `Calculator.PrintReadsBack` | sample_projects/project_02/src/parser/ast.ts:23-57 | Printing, tokenizing and parsing give back the same tree, for every tree with non-negative integer literals |
| `Calculator.ParseText` | sample_projects/project_02/src/calc.ts:13-16 | A printed tree's text parses to it; any other outcome is a character of the text that starts no token, an unexpected token, or a tree whose in-order tokens are the text's |
| `Calculator.EvalStats.constructor` | sample_projects/project_02/src/eval/eval_stats.ts:1 | The counter starts at 0 |
| `Calculator.EvalStats.Record` | sample_projects/project_02/src/eval/eval_stats.ts:17-19 | The counter goes up by one |
| `Calculator.Evaluate` | sample_projects/project_02/src/eval/evaluator.ts:7-40 | The tree's value, and every node counted once |
| `Calculator.CountIsItems` | sample_projects/project_02/src/eval/evaluator.ts:7-8 | An evaluation is counted once for every number and every operator sign of the expression read left to right |
| `Calculator.SubtractionUndone` | sample_projects/project_02/src/eval/evaluator.ts:21-40 | Where sums are exact: adding back what was subtracted gives the left operand, a term and its negation add to 0, two minus signs cancel |
| `Calculator.DivisionUndone` | sample_projects/project_02/src/eval/evaluator.ts:26-40 | Where products are exact, multiplying by a divisor other than 0 undoes the division |
| `Calculator.EvaluatePostfix` | sample_projects/project_02/src/eval/evaluator.ts:52-69 | The top of the stack that the postfix list leaves, 0 for an empty one, however number texts are converted |
| `Calculator.PostorderPushesValue` | sample_projects/project_02/src/eval/evaluator.ts:52-83 | A tree's postorder pushes its value and leaves the stack below untouched, for any arithmetic |
| `Calculator.EvaluatorsAgree` | sample_projects/project_02/src/eval/evaluator.ts:7-83 | Both evaluators agree on every tree without unary minus, for any arithmetic and any spelling of literals that reads back |
| `Calculator.MinusFromZeroKeepsValue` | sample_projects/project_02/src/eval/evaluator.ts:21-24 | Where negating is subtracting from 0, writing every unary minus as that subtraction changes no value and leaves none |
| `Calculator.EvaluatorsAgreeOnAll` | sample_projects/project_02/src/eval/evaluator.ts:7-83 | The postfix evaluator on that rewriting agrees with the recursive one on the original, for every tree |
| `Calculator.MissingOperandsAreZeros` | sample_projects/project_02/src/eval/evaluator.ts:61-68 | On any token list, zeros below the stack change no result: operands that are missing count as 0 |
| `Calculator.PlainDecimalsReadBack` | sample_projects/project_02/src/eval/evaluator.ts:66 | Plain decimals are such a spelling where literals are non-negative integers |
| `Labels.CountLabels` | src/cluster/community_labeler.ts:199-202 | The count of a label is the number of communities that have it |
| `Labels.Disambiguate` | src/cluster/community_labeler.ts:195-208 | Exactly the labels shared by several communities are renamed |
| `Labels.Dedupe` | src/cluster/community_labeler.ts:186-192 | The hub pass, then the index pass on its result |
| `Labels.HubOnlyWhenNew` | src/cluster/community_labeler.ts:187-190 | A renamed label is joined to its community's hub iff the hub is no part of it |
| `Labels.IndexPassDistinctIff` | src/cluster/community_labeler.ts:191 | The index pass yields distinct labels iff no kept label equals one it writes |
| `Labels.FinalLabelsDistinctIff` | src/cluster/community_labeler.ts:181-192 | Final labels are distinct iff the index pass meets no clash; always when no label entering it ends in " #" and a number |
| `Labels.LabelsCanCollide` | src/cluster/community_labeler.ts:47-50 | Three labels with hubs that they already contain come out with two equal |
| `Labels.HubPassCanCollide` | src/cluster/community_labeler.ts:187-191 | The hub pass can make a label collide that was unique; the index pass parts the two |

## Left out

- ShareIsFraction: its condition is sufficient for one measured graph, not necessary, because a small enough cost may be handed out twice and still fit; the condition that is exact is the one on call structures, in `CostBound.AlwaysWithinTotalIff`, where weights may be 0 as runtime sample weights may.
- EvaluatorsAgree: unary minus has no postfix operator, so it speaks of trees without one; `EvaluatorsAgreeOnAll` covers the others by writing each as a subtraction from 0; how numbers are written and read is a parameter, of which only reading back is assumed.
- NumberOfDecimal: the parser's number texts are runs of digits and dots, as the tokenizer makes them; other texts (signs, exponents, hexadecimal, blanks, `Infinity`) read as NaN there.
- Kùzu and every query that runs in it (`deadExports`, `blastRadius`, `find`, `references`, `neighborhood`): nodes and decoded edges are inputs.
- Extraction of the graph from TypeScript (`src/extract`), which sits on a compiler library.
- Community detection (`src/cluster/community_detector.ts`) and how a community's area and hub label are composed: only disambiguation of given labels.
- Resolution of a frame's url to a file: an uninterpreted function from url to optional file.
- Decoding of JSON, call counts and runtime metadata: a field that is absent or not a number is `None`.
- Floating point: rounding, the sign of zero, NaN and infinities of costs; string conversion of numbers beyond plain decimals.
- UTF-16: strings are sequences of characters.
- `localeCompare`: any total preorder on locations.
- The coverage manifest, metric fallbacks and limit clamping around the rankings, and the static hotspot metrics.
- The shapes `RecordDrop` and `AddEdge` give to insertion-ordered maps: a sequence searched by key instead of a map updated in place.
- Commands, report rendering, PDF, webview, load-test drivers and the other sample projects.

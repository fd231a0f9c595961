/** The runtime-concentration finding of src/report/report_data.ts over the self-time ranking of src/query/graph_query.ts. */
module Concentration {
  import opened Sums
  import opened Results
  import opened CallGraph
  import opened CostById
  import opened Ranking

  datatype Hotspot = Hotspot(node: StoredNode, score: real)

  function Scored(nodes: seq<StoredNode>): seq<Hotspot> {
    seq(|nodes|, i requires 0 <= i < |nodes| => Hotspot(nodes[i], RuntimeValue(nodes[i], SelfTime)))
  }

  function Positive(): Hotspot -> bool {
    (h: Hotspot) => h.score > 0.0
  }

  /** Higher scores first, then by location. */
  function ByScore(location: (StoredNode, StoredNode) -> bool): (Hotspot, Hotspot) -> bool {
    (a: Hotspot, b: Hotspot) => a.score > b.score || (a.score == b.score && location(a.node, b.node))
  }

  /** The self-time hotspots: nodes with positive self time, hottest first, cut at `limit`. */
  function SelfTimeHotspots(nodes: seq<StoredNode>, location: (StoredNode, StoredNode) -> bool, limit: nat): seq<Hotspot> {
    Top(Scored(nodes), Positive(), ByScore(location), limit)
  }

  function Score(): Hotspot -> real {
    (h: Hotspot) => h.score
  }

  datatype Finding = Finding(count: nat, sharePercent: int, symbols: seq<StoredNode>)

  /** How many example symbols a finding names. */
  const KEY_FINDING_SYMBOLS: nat := 3

  function NodesOf(hotspots: seq<Hotspot>): seq<StoredNode> {
    seq(|hotspots|, i requires 0 <= i < |hotspots| => hotspots[i].node)
  }

  /** The report's rounding of a share to whole percent: the nearest, the higher of two. */
  function RoundPercent(share: real): (r: int)
    ensures r as real - 0.5 <= share * 100.0 < r as real + 0.5
  {
    (share * 100.0 + 0.5).Floor
  }

  /** The fewest listed hotspots whose summed self time reaches half of the total, if the list reaches it at all. */
  method RuntimeConcentration(enriched: bool, totalSelf: real, hotspots: seq<Hotspot>) returns (finding: Option<Finding>)
    ensures finding.Some? <==> enriched && totalSelf > 0.0 && exists k :: 0 < k <= |hotspots| && Crosses(totalSelf, hotspots, k)
    ensures finding.Some? ==>
              var k := finding.value.count;
              && 0 < k <= |hotspots| && Crosses(totalSelf, hotspots, k)
              && (forall j :: 0 < j < k ==> !Crosses(totalSelf, hotspots, j))
              && finding.value.sharePercent == RoundPercent(Sum(hotspots[..k], Score()) / totalSelf)
              && |finding.value.symbols| == (if k < KEY_FINDING_SYMBOLS then k else KEY_FINDING_SYMBOLS)
              && (forall i :: 0 <= i < |finding.value.symbols| ==> finding.value.symbols[i] == hotspots[i].node)
  {
    if !enriched || |hotspots| == 0 || totalSelf <= 0.0 {
      return None;
    }
    var cumulative, count := 0.0, 0;
    while count < |hotspots|
      invariant count <= |hotspots| && cumulative == Sum(hotspots[..count], Score())
      invariant forall j :: 0 < j <= count ==> !Crosses(totalSelf, hotspots, j)
    {
      SumPrefix(hotspots, count, Score());
      cumulative := cumulative + hotspots[count].score;
      count := count + 1;
      if cumulative / totalSelf >= 0.5 {
        break;
      }
    }
    if cumulative / totalSelf < 0.5 {
      return None;
    }
    assert Crosses(totalSelf, hotspots, count);
    var shown := if count < KEY_FINDING_SYMBOLS then count else KEY_FINDING_SYMBOLS;
    finding := Some(Finding(count, RoundPercent(cumulative / totalSelf), NodesOf(hotspots[..shown])));
  }

  /** The first `k` hotspots make up at least half of the total. */
  ghost predicate Crosses(totalSelf: real, hotspots: seq<Hotspot>, k: int)
    requires totalSelf > 0.0
  {
    0 <= k <= |hotspots| && Sum(hotspots[..k], Score()) / totalSelf >= 0.5
  }

  // ---------- the hottest come first ----------

  ghost predicate Descending(xs: seq<Hotspot>) {
    forall i, j :: 0 <= i < j < |xs| ==> xs[i].score >= xs[j].score
  }

  /** In a descending list no selection of `|ys|` elements outweighs the first `|ys|`. */
  lemma {:induction false} PrefixIsHeaviest(ranked: seq<Hotspot>, ys: seq<Hotspot>)
    requires Descending(ranked) && multiset(ys) <= multiset(ranked)
    ensures |ys| <= |ranked| && Sum(ys, Score()) <= Sum(ranked[..|ys|], Score())
    decreases |ranked|
  {
    SizeOfPart(ys, ranked);
    if |ys| == |ranked| {
      assert multiset(ys) == multiset(ranked);
      SumPermutation(ys, ranked, Score());
      assert ranked[..|ys|] == ranked;
    } else {
      var rest, x := ranked[..|ranked| - 1], ranked[|ranked| - 1];
      assert ranked == rest + [x];
      assert ranked[..|ys|] == rest[..|ys|];
      var ys' := WithoutLast(rest, x, ys);
      PrefixIsHeaviest(rest, ys');
    }
  }

  /** A selection no larger than the rest can do without the last element, and loses nothing by it. */
  lemma WithoutLast(rest: seq<Hotspot>, x: Hotspot, ys: seq<Hotspot>) returns (ys': seq<Hotspot>)
    requires Descending(rest + [x]) && multiset(ys) <= multiset(rest + [x]) && |ys| <= |rest|
    ensures multiset(ys') <= multiset(rest) && |ys'| == |ys| && Sum(ys, Score()) <= Sum(ys', Score())
  {
    hide Sum;
    var ranked := rest + [x];
    assert multiset(ranked) == multiset(rest) + multiset{x};
    if multiset(ys) <= multiset(rest) {
      return ys;
    }
    var z := LeftOut(ys, ranked);
    assert z in multiset(ranked) && x in multiset(ys);
    var p :| 0 <= p < |ys| && ys[p] == x;
    ys' := ys[p := z];
    SumUpdate(ys, p, z);
    assert multiset(ys') == multiset(ys) - multiset{x} + multiset{z};
    assert multiset(ys') <= multiset(rest);
    var i :| 0 <= i < |ranked| && ranked[i] == z;
    assert ranked[|rest|] == x;
  }

  /** Something of the larger collection is not used up by the smaller. */
  lemma LeftOut(ys: seq<Hotspot>, xs: seq<Hotspot>) returns (z: Hotspot)
    requires multiset(ys) <= multiset(xs) && |ys| < |xs|
    ensures multiset(ys)[z] < multiset(xs)[z]
  {
    var rest := multiset(xs) - multiset(ys);
    assert multiset(xs) == multiset(ys) + rest;
    assert |multiset(xs)| == |xs| && |multiset(ys)| == |ys|;
    z :| z in rest;
  }

  lemma SumUpdate(ys: seq<Hotspot>, i: nat, z: Hotspot)
    requires i < |ys|
    ensures Sum(ys[i := z], Score()) == Sum(ys, Score()) - ys[i].score + z.score
  {
    var before, after := ys[..i], ys[i + 1..];
    assert ys == before + [ys[i]] + after && ys[i := z] == before + [z] + after;
    SumConcat(before + [ys[i]], after, Score());
    SumConcat(before + [z], after, Score());
    SumAppend(before, ys[i], Score());
    SumAppend(before, z, Score());
  }

  lemma SizeOfPart(ys: seq<Hotspot>, xs: seq<Hotspot>)
    requires multiset(ys) <= multiset(xs)
    ensures |ys| <= |xs|
    ensures |ys| == |xs| ==> multiset(ys) == multiset(xs)
  {
    var rest := multiset(xs) - multiset(ys);
    assert multiset(xs) == multiset(ys) + rest;
    assert |multiset(xs)| == |xs| && |multiset(ys)| == |ys|;
  }

  lemma {:induction false} PrefixGrows(ranked: seq<Hotspot>, i: nat, j: nat)
    requires i <= j <= |ranked| && forall h :: h in ranked ==> h.score > 0.0
    ensures Sum(ranked[..i], Score()) <= Sum(ranked[..j], Score())
  {
    if i < j {
      PrefixGrows(ranked, i, j - 1);
      SumPrefix(ranked, j - 1, Score());
      assert ranked[j - 1] in ranked;
    }
  }

  lemma {:induction false} DropNonPositive(ys: seq<Hotspot>)
    ensures Sum(ys, Score()) <= Sum(Filter(ys, Positive()), Score())
    ensures |Filter(ys, Positive())| <= |ys|
  {
    if ys != [] {
      DropNonPositive(ys[..|ys| - 1]);
      if ys[|ys| - 1].score > 0.0 {
        SumAppend(Filter(ys[..|ys| - 1], Positive()), ys[|ys| - 1], Score());
      } else {
        assert Filter(ys, Positive()) == Filter(ys[..|ys| - 1], Positive());
      }
    }
  }

  lemma HotspotsDescend(nodes: seq<StoredNode>, location: (StoredNode, StoredNode) -> bool)
    requires TotalPreorder(location)
    ensures var ranked := Sort(Filter(Scored(nodes), Positive()), ByScore(location));
            && Descending(ranked)
            && (forall i, j :: 0 <= i < j < |ranked| && ranked[i].score == ranked[j].score ==> location(ranked[i].node, ranked[j].node))
            && (forall h :: h in ranked ==> h.score > 0.0)
            && multiset(ranked) == multiset(Filter(Scored(nodes), Positive()))
  {
    var kept := Filter(Scored(nodes), Positive());
    SortSorts(kept, ByScore(location));
    SortPermutes(kept, ByScore(location));
    FilterMembers(Scored(nodes), Positive());
    forall h | h in Sort(kept, ByScore(location)) ensures h.score > 0.0 {
      assert h in multiset(kept);
    }
  }

  /**
   The hotspots list nodes with the self time measured on them, hottest first and equal times by
   location; a node with positive self time is left out only when the list is full of nodes at least
   as hot.
   */
  lemma HotspotsAre(nodes: seq<StoredNode>, location: (StoredNode, StoredNode) -> bool, limit: nat)
    requires TotalPreorder(location)
    ensures var hotspots, selfTime := SelfTimeHotspots(nodes, location, limit), Measured(SelfTime);
            && |hotspots| <= limit
            && (forall h :: h in hotspots ==> h.node in nodes && h.score == selfTime(h.node) > 0.0)
            && (forall i, j :: 0 <= i < j < |hotspots| ==>
                  && hotspots[i].score >= hotspots[j].score
                  && (hotspots[i].score == hotspots[j].score ==> location(hotspots[i].node, hotspots[j].node)))
            && (forall n :: n in nodes && selfTime(n) > 0.0 ==>
                  Hotspot(n, selfTime(n)) in hotspots || (|hotspots| == limit && forall h :: h in hotspots ==> h.score >= selfTime(n)))
  {
    var ranked := Sort(Filter(Scored(nodes), Positive()), ByScore(location));
    HotspotsDescend(nodes, location);
    RankedAre(nodes, location);
    hide Filter, Sort, TotalPreorder, Measured, Scored;
    var hotspots := SelfTimeHotspots(nodes, location, limit);
    assert hotspots == ranked[..|hotspots|];
    forall n | n in nodes && Measured(SelfTime)(n) > 0.0
      ensures Hotspot(n, Measured(SelfTime)(n)) in hotspots
           || (|hotspots| == limit && forall h :: h in hotspots ==> h.score >= Measured(SelfTime)(n))
    {
      var p :| 0 <= p < |ranked| && ranked[p] == Hotspot(n, Measured(SelfTime)(n));
      if p < |hotspots| {
        assert hotspots[p] == ranked[p];
      }
    }
  }

  /** The whole ranking holds every node with positive self time, at its self time. */
  lemma RankedAre(nodes: seq<StoredNode>, location: (StoredNode, StoredNode) -> bool)
    requires TotalPreorder(location)
    ensures forall h :: h in Sort(Filter(Scored(nodes), Positive()), ByScore(location)) <==>
                        h.node in nodes && h.score == Measured(SelfTime)(h.node) > 0.0
  {
    HotspotsDescend(nodes, location);
    FilterMembers(Scored(nodes), Positive());
    ScoredAre(nodes);
    var kept := Filter(Scored(nodes), Positive());
    hide Filter, Sort, TotalPreorder, Measured, Scored, Descending;
    forall h ensures h in Sort(kept, ByScore(location)) <==> h in kept {
      assert h in multiset(Sort(kept, ByScore(location))) <==> h in multiset(kept);
    }
  }

  lemma ScoredAre(nodes: seq<StoredNode>)
    ensures forall h :: h in Scored(nodes) <==> h.node in nodes && h.score == Measured(SelfTime)(h.node)
  {
    forall i | 0 <= i < |nodes| ensures Scored(nodes)[i] == Hotspot(nodes[i], Measured(SelfTime)(nodes[i])) {
      MeasuredIs(nodes[i], SelfTime);
    }
    hide Measured, RuntimeValue;
    forall h: Hotspot | h.node in nodes && h.score == Measured(SelfTime)(h.node) ensures h in Scored(nodes) {
      var i :| 0 <= i < |nodes| && nodes[i] == h.node;
      assert Scored(nodes)[i] == h;
    }
  }

  lemma PartKeepsPart(nodes: seq<StoredNode>, ys: seq<Hotspot>)
    requires multiset(ys) <= multiset(Scored(nodes))
    ensures multiset(Filter(ys, Positive())) <= multiset(Filter(Scored(nodes), Positive()))
  {
    hide Filter, Scored;
    FilterMembers(ys, Positive());
    FilterMembers(Scored(nodes), Positive());
  }

  /** The first hotspots are a selection of graph nodes. */
  lemma PrefixIsSelection(nodes: seq<StoredNode>, location: (StoredNode, StoredNode) -> bool, limit: nat, k: nat)
    requires TotalPreorder(location) && k <= |SelfTimeHotspots(nodes, location, limit)|
    ensures multiset(SelfTimeHotspots(nodes, location, limit)[..k]) <= multiset(Scored(nodes))
  {
    hide Sort, Filter, TotalPreorder, Descending, Scored;
    HotspotsDescend(nodes, location);
    var ranked := Sort(Filter(Scored(nodes), Positive()), ByScore(location));
    FilterMembers(Scored(nodes), Positive());
    assert ranked == ranked[..k] + ranked[k..];
    assert SelfTimeHotspots(nodes, location, limit)[..k] == ranked[..k];
  }

  /** No `k` nodes of the graph have more self time together than the `k` hottest hotspots. */
  lemma HottestAreHottest(nodes: seq<StoredNode>, location: (StoredNode, StoredNode) -> bool, limit: nat, ys: seq<Hotspot>, k: nat)
    requires TotalPreorder(location) && multiset(ys) <= multiset(Scored(nodes)) && |ys| <= k
    requires k <= |SelfTimeHotspots(nodes, location, limit)|
    ensures Sum(ys, Score()) <= Sum(SelfTimeHotspots(nodes, location, limit)[..k], Score())
  {
    hide Sort, Filter, Sum, TotalPreorder, Descending, Scored;
    var ranked := Sort(Filter(Scored(nodes), Positive()), ByScore(location));
    HotspotsDescend(nodes, location);
    DropNonPositive(ys);
    var kept := Filter(ys, Positive());
    PartKeepsPart(nodes, ys);
    PrefixIsHeaviest(ranked, kept);
    PrefixGrows(ranked, |kept|, k);
    assert SelfTimeHotspots(nodes, location, limit)[..k] == ranked[..k];
  }

  /**
   "The fewest hottest functions": when the finding names `k` functions, no selection of fewer than
   `k` graph nodes makes up half of the total self time.
   */
  lemma FewestFunctions(nodes: seq<StoredNode>, location: (StoredNode, StoredNode) -> bool, limit: nat, totalSelf: real,
                        k: nat, ys: seq<Hotspot>)
    requires TotalPreorder(location) && totalSelf > 0.0
    requires 0 < k <= |SelfTimeHotspots(nodes, location, limit)|
    requires forall j :: 0 < j < k ==> !Crosses(totalSelf, SelfTimeHotspots(nodes, location, limit), j)
    requires multiset(ys) <= multiset(Scored(nodes)) && |ys| < k
    ensures Sum(ys, Score()) / totalSelf < 0.5
  {
    hide SelfTimeHotspots, Scored, TotalPreorder, Sum;
    var hotspots := SelfTimeHotspots(nodes, location, limit);
    HottestAreHottest(nodes, location, limit, ys, k - 1);
    QuotientMonotone(Sum(ys, Score()), Sum(hotspots[..k - 1], Score()), totalSelf);
    if k == 1 {
      NothingSums(hotspots[..0], totalSelf);
    } else {
      assert !Crosses(totalSelf, hotspots, k - 1);
    }
  }

  lemma NothingSums(xs: seq<Hotspot>, totalSelf: real)
    requires totalSelf > 0.0
    ensures Sum(xs, Score()) / totalSelf >= 0.5 ==> |xs| > 0
  {
    QuotientMonotone(0.0, totalSelf, totalSelf);
  }

  lemma QuotientMonotone(x: real, y: real, d: real)
    requires x <= y && d > 0.0
    ensures x / d <= y / d
  {
  }

  /**
   The finding is silent, on an enriched graph with positive total, exactly when no selection of at
   most as many nodes as there are listed hotspots makes up half of the total.
   */
  lemma SilentIffDiffuse(nodes: seq<StoredNode>, location: (StoredNode, StoredNode) -> bool, limit: nat, totalSelf: real)
    requires TotalPreorder(location) && totalSelf > 0.0
    ensures var hotspots := SelfTimeHotspots(nodes, location, limit);
            (exists k :: 0 < k <= |hotspots| && Crosses(totalSelf, hotspots, k)) <==>
            (exists ys :: multiset(ys) <= multiset(Scored(nodes)) && |ys| <= |hotspots| && Sum(ys, Score()) / totalSelf >= 0.5)
  {
    var hotspots := SelfTimeHotspots(nodes, location, limit);
    var n := |hotspots|;
    assert hotspots[..n] == hotspots;
    hide SelfTimeHotspots, Scored, TotalPreorder, Sum;
    if k :| 0 < k <= n && Crosses(totalSelf, hotspots, k) {
      PrefixIsSelection(nodes, location, limit, k);
      assert |hotspots[..k]| <= n;
    }
    if ys :| multiset(ys) <= multiset(Scored(nodes)) && |ys| <= n && Sum(ys, Score()) / totalSelf >= 0.5 {
      HottestAreHottest(nodes, location, limit, ys, n);
      QuotientMonotone(Sum(ys, Score()), Sum(hotspots, Score()), totalSelf);
      NothingSums(ys, totalSelf);
      assert Crosses(totalSelf, hotspots, n);
    }
  }
}

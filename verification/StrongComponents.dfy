/**
 The iterative strongly-connected-components pass of src/query/graph_query.ts, and what its
 numbering means. The loop is described by a few transitions on a ghost `State`; the invariant is
 shown to survive each transition, and the method follows the transitions on its arrays and stacks.
 */
module StrongComponents {
  import opened Paths

  ghost predicate Used(comp: seq<int>, c: int) {
    exists v :: 0 <= v < |comp| && comp[v] == c
  }

  /** The numbering: 0..count-1, all used, equal exactly on mutual reach, arcs never going up. */
  ghost predicate Numbering(g: seq<seq<nat>>, comp: seq<int>, count: nat) {
    && |comp| == |g|
    && (forall v :: 0 <= v < |g| ==> 0 <= comp[v] < count)
    && (forall c :: 0 <= c < count ==> Used(comp, c))
    && (forall u: nat, v: nat :: u < |g| && v < |g| ==>
          (comp[u] == comp[v] <==> Mutual(Arcs(g), u, v)))
    && (forall u, k :: 0 <= u < |g| && 0 <= k < |g[u]| && g[u][k] < |g| ==> comp[g[u][k]] <= comp[u])
  }

  /**
   What the pass knows: the arrays, the open nodes (`workNode`), the counters, and how many
   successors of each node it has looked at. The component stack holds the nodes with `onStack`,
   in the order of their index.
   */
  datatype State = State(
    index: seq<int>, lowlink: seq<int>, onStack: seq<bool>, comp: seq<int>, explored: seq<nat>,
    work: seq<nat>, counter: nat, count: nat)
  {
    ghost predicate Sized(n: nat) {
      && |index| == |lowlink| == |onStack| == |comp| == |explored| == n
      && (forall i :: 0 <= i < |work| ==> work[i] < n)
    }

    ghost function Top(): nat
      requires work != []
    {
      work[|work| - 1]
    }
  }

  ghost predicate Shape(g: seq<seq<nat>>, s: State) {
    && s.Sized(|g|)
    && (forall v :: 0 <= v < |g| ==> -1 <= s.index[v] < s.counter)
    && (forall v :: 0 <= v < |g| ==> -1 <= s.comp[v] < s.count)
    && (forall v :: 0 <= v < |g| && s.index[v] < 0 ==> s.comp[v] < 0 && s.explored[v] == 0)
    && (forall v :: 0 <= v < |g| ==> s.explored[v] <= |g[v]|)
    && (forall v :: 0 <= v < |g| ==> (s.onStack[v] <==> s.index[v] >= 0 && s.comp[v] < 0))
  }

  /** Open nodes are on the stack in index order, and the first of them is the bottom of the stack. */
  ghost predicate WorkShape(g: seq<seq<nat>>, s: State)
    requires s.Sized(|g|)
  {
    && (forall i :: 0 <= i < |s.work| ==> s.onStack[s.work[i]])
    && (forall i, j :: 0 <= i < j < |s.work| ==> s.index[s.work[i]] < s.index[s.work[j]])
    && (forall v :: 0 <= v < |g| && s.onStack[v] ==> s.work != [] && s.index[s.work[0]] <= s.index[v])
  }

  /** A discovered node with successors left to look at is open. */
  ghost predicate Finished(g: seq<seq<nat>>, s: State)
    requires s.Sized(|g|)
  {
    forall v :: 0 <= v < |g| && s.index[v] >= 0 && s.explored[v] < |g[v]| ==> v in s.work
  }

  /** Explored arcs lead to discovered nodes. */
  ghost predicate Discovered(g: seq<seq<nat>>, s: State)
    requires ValidGraph(g) && s.Sized(|g|)
  {
    forall u, k :: 0 <= u < |g| && 0 <= k < |g[u]| && k < s.explored[u] ==> s.index[g[u][k]] >= 0
  }

  /** Arcs out of numbered nodes lead to numbers no higher, and every number is used. */
  ghost predicate Settled(g: seq<seq<nat>>, s: State)
    requires ValidGraph(g) && s.Sized(|g|)
  {
    && (forall u, k :: 0 <= u < |g| && 0 <= k < |g[u]| && s.comp[u] >= 0 ==> 0 <= s.comp[g[u][k]] <= s.comp[u])
    && (forall c :: 0 <= c < s.count ==> Used(s.comp, c))
  }

  /** A reflexive, transitive relation holding of every arc. */
  ghost predicate Closure(g: seq<seq<nat>>, r: iset<(nat, nat)>) {
    && (forall u: nat :: u < |g| ==> (u, u) in r)
    && (forall u: nat, k :: 0 <= u < |g| && 0 <= k < |g[u]| ==> (u, g[u][k]) in r)
    && (forall u: nat, v: nat, w: nat :: Chain(r, u, v, w) ==> (u, w) in r)
  }

  ghost predicate Chain(r: iset<(nat, nat)>, u: nat, v: nat, w: nat) {
    (u, v) in r && (v, w) in r
  }

  /** `u` is on the stack below the node opened after work entry `i`. */
  ghost predicate Below(s: State, i: int, u: int)
    requires s.Sized(|s.index|) && 0 <= u < |s.index| && 0 <= i < |s.work|
  {
    s.onStack[u] && (i + 1 < |s.work| ==> s.index[u] < s.index[s.work[i + 1]])
  }

  /** `u` is on the stack at or above work entry `i`. */
  ghost predicate Above(s: State, i: int, u: int)
    requires s.Sized(|s.index|) && 0 <= u < |s.index| && 0 <= i < |s.work|
  {
    s.onStack[u] && s.index[s.work[i]] <= s.index[u]
  }

  /** Equal numbers mean mutual reach; an open node reaches what is above it and is reached from what is below the next. */
  ghost predicate Linked(g: seq<seq<nat>>, s: State, r: iset<(nat, nat)>)
    requires s.Sized(|g|)
  {
    && (forall u, v :: 0 <= u < |g| && 0 <= v < |g| && s.comp[u] == s.comp[v] >= 0 ==> (u, v) in r)
    && (forall i, u :: 0 <= i < |s.work| && 0 <= u < |g| && Above(s, i, u) ==> (s.work[i], u) in r)
    && (forall i, u :: 0 <= i < |s.work| && 0 <= u < |g| && Below(s, i, u) ==> (u, s.work[i]) in r)
  }

  /** `x` witnesses the lowlink of work entry `i`. */
  ghost predicate LowWitness(s: State, r: iset<(nat, nat)>, i: int, x: nat)
    requires s.Sized(|s.index|) && 0 <= i < |s.work|
  {
    x < |s.index| && s.onStack[x] && s.index[x] == s.lowlink[s.work[i]] && (s.work[i], x) in r
  }

  ghost predicate HasLowWitness(s: State, r: iset<(nat, nat)>, i: int)
    requires s.Sized(|s.index|) && 0 <= i < |s.work|
  {
    s.lowlink[s.work[i]] <= s.index[s.work[i]] && exists x :: LowWitness(s, r, i, x)
  }

  /** The lowlink of an open node is the index of a stack node it reaches. */
  ghost predicate LowReached(g: seq<seq<nat>>, s: State, r: iset<(nat, nat)>)
    requires s.Sized(|g|)
  {
    forall i :: 0 <= i < |s.work| ==> HasLowWitness(s, r, i)
  }

  /** The lowlink of an open node bounds every explored arc out of its stretch of the stack. */
  ghost predicate LowBounds(g: seq<seq<nat>>, s: State)
    requires ValidGraph(g) && s.Sized(|g|)
  {
    forall i, u, k ::
      0 <= i < |s.work| && 0 <= u < |g| && 0 <= k < |g[u]| && Above(s, i, u) && Below(s, i, u)
      && k < s.explored[u] && s.onStack[g[u][k]]
      ==> s.lowlink[s.work[i]] <= s.index[g[u][k]]
  }

  ghost predicate Inv(g: seq<seq<nat>>, s: State, r: iset<(nat, nat)>)
    requires ValidGraph(g)
  {
    && Shape(g, s) && WorkShape(g, s) && Finished(g, s) && Discovered(g, s) && Settled(g, s)
    && Linked(g, s, r) && LowReached(g, s, r) && LowBounds(g, s)
  }

  // ---------- transitions ----------

  /** Discover `v`: number it and open it. */
  ghost function Open(s: State, v: nat): State
    requires s.Sized(|s.index|) && v < |s.index|
  {
    s.(index := s.index[v := s.counter], lowlink := s.lowlink[v := s.counter], onStack := s.onStack[v := true],
       counter := s.counter + 1, work := s.work + [v])
  }

  /** Step past the next successor of open node `v`. */
  ghost function Advance(s: State, v: nat): State
    requires s.Sized(|s.index|) && v < |s.index|
  {
    s.(explored := s.explored[v := s.explored[v] + 1])
  }

  /** Lower the top open node's lowlink to the index of an on-stack successor. */
  ghost function Lower(s: State, w: nat): State
    requires s.Sized(|s.index|) && s.work != [] && w < |s.index|
  {
    if s.onStack[w] && s.index[w] < s.lowlink[s.Top()] then
      s.(lowlink := s.lowlink[s.Top() := s.index[w]])
    else s
  }

  /** Leave the top open node, handing its lowlink to the node it was opened from. */
  ghost function Leave(s: State): State
    requires s.Sized(|s.index|) && s.work != []
  {
    var s' := s.(work := s.work[..|s.work| - 1]);
    if s'.work != [] && s.lowlink[s.Top()] < s.lowlink[s'.Top()] then
      s'.(lowlink := s.lowlink[s'.Top() := s.lowlink[s.Top()]])
    else s'
  }

  /** Number the stack from node `v` up as one component and leave `v`. */
  ghost predicate Closes(s: State, t: State, v: nat)
    requires s.Sized(|s.index|) && v < |s.index|
  {
    && s.work != [] && v == s.Top()
    && t == s.(comp := t.comp, onStack := t.onStack, count := s.count + 1, work := s.work[..|s.work| - 1])
    && |t.comp| == |t.onStack| == |s.index|
    && (forall u :: 0 <= u < |s.index| ==>
          t.comp[u] == if s.onStack[u] && s.index[u] >= s.index[v] then s.count else s.comp[u])
    && (forall u :: 0 <= u < |s.index| ==> t.onStack[u] == (s.onStack[u] && s.index[u] < s.index[v]))
  }

  // ---------- opening a node ----------

  lemma OpenShape(g: seq<seq<nat>>, s: State, v: nat)
    requires Shape(g, s) && WorkShape(g, s) && v < |g| && s.index[v] < 0
    ensures Shape(g, Open(s, v)) && WorkShape(g, Open(s, v))
  {
  }

  lemma OpenArcs(g: seq<seq<nat>>, s: State, v: nat)
    requires ValidGraph(g) && Shape(g, s) && Finished(g, s) && Discovered(g, s) && Settled(g, s)
    requires v < |g| && s.index[v] < 0
    ensures var t := Open(s, v); Finished(g, t) && Discovered(g, t) && Settled(g, t)
  {
    var t := Open(s, v);
    assert forall i :: 0 <= i < |s.work| ==> t.work[i] == s.work[i];
    assert t.work[|s.work|] == v;
  }

  lemma OpenLinked(g: seq<seq<nat>>, s: State, r: iset<(nat, nat)>, v: nat)
    requires Closure(g, r) && Shape(g, s) && WorkShape(g, s) && Linked(g, s, r)
    requires v < |g| && s.index[v] < 0
    requires s.work != [] ==> (s.Top(), v) in r
    ensures Linked(g, Open(s, v), r)
  {
    var t := Open(s, v);
    var n := |s.work|;
    forall i, u | 0 <= i < |t.work| && 0 <= u < |g| && Above(t, i, u)
      ensures (t.work[i], u) in r
    {
      if i < n {
        if u == v {
          assert Above(s, i, s.Top());
          assert Chain(r, s.work[i], s.Top(), v);
        } else {
          assert Above(s, i, u);
        }
      }
    }
    forall i, u | 0 <= i < |t.work| && 0 <= u < |g| && Below(t, i, u)
      ensures (u, t.work[i]) in r
    {
      if i < n {
        assert Below(s, i, u);
      } else if u != v {
        assert Below(s, n - 1, u);
        assert Chain(r, u, s.Top(), v);
      }
    }
  }

  lemma OpenLows(g: seq<seq<nat>>, s: State, r: iset<(nat, nat)>, v: nat)
    requires ValidGraph(g) && Closure(g, r) && Shape(g, s) && WorkShape(g, s) && LowReached(g, s, r) && LowBounds(g, s)
    requires v < |g| && s.index[v] < 0
    ensures LowReached(g, Open(s, v), r) && LowBounds(g, Open(s, v))
  {
    var t := Open(s, v);
    var n := |s.work|;
    forall i | 0 <= i < |t.work|
      ensures HasLowWitness(t, r, i)
    {
      if i < n {
        assert HasLowWitness(s, r, i);
        var x: nat :| LowWitness(s, r, i, x);
        assert LowWitness(t, r, i, x);
      } else {
        assert LowWitness(t, r, i, v);
      }
    }
    forall i, u, k | 0 <= i < |t.work| && 0 <= u < |g| && 0 <= k < |g[u]| && Above(t, i, u) && Below(t, i, u)
                     && k < t.explored[u] && t.onStack[g[u][k]]
      ensures t.lowlink[t.work[i]] <= t.index[g[u][k]]
    {
      assert u != v;
      assert i < n;
      assert Above(s, i, u) && Below(s, i, u);
      if g[u][k] == v {
        assert HasLowWitness(s, r, i);
      }
    }
  }

  lemma OpenKeepsInv(g: seq<seq<nat>>, s: State, r: iset<(nat, nat)>, v: nat)
    requires ValidGraph(g) && Closure(g, r) && Inv(g, s, r)
    requires v < |g| && s.index[v] < 0 && (s.work != [] ==> (s.Top(), v) in r)
    ensures Inv(g, Open(s, v), r)
  {
    OpenShape(g, s, v);
    OpenArcs(g, s, v);
    OpenLinked(g, s, r, v);
    OpenLows(g, s, r, v);
  }

  // ---------- looking at a successor ----------

  lemma LowerKeepsInv(g: seq<seq<nat>>, s: State, r: iset<(nat, nat)>, w: nat)
    requires ValidGraph(g) && Inv(g, s, r)
    requires s.work != [] && w < |g| && (s.Top(), w) in r
    ensures Inv(g, Lower(s, w), r)
    ensures s.onStack[w] ==> Lower(s, w).lowlink[s.Top()] <= s.index[w]
  {
    hide WorkShape, Finished, Discovered, Settled, Linked, LowReached, LowBounds;
    LowerShape(g, s, w);
    SameStackSameLinks(g, s, Lower(s, w), r);
    LowerLows(g, s, r, w);
  }

  lemma LowerShape(g: seq<seq<nat>>, s: State, w: nat)
    requires ValidGraph(g) && Shape(g, s) && WorkShape(g, s) && Finished(g, s) && Discovered(g, s) && Settled(g, s)
    requires s.work != [] && w < |g|
    ensures var t := Lower(s, w); Shape(g, t) && WorkShape(g, t) && Finished(g, t) && Discovered(g, t) && Settled(g, t)
  {
  }

  lemma SameStackSameLinks(g: seq<seq<nat>>, s: State, t: State, r: iset<(nat, nat)>)
    requires s.Sized(|g|) && Linked(g, s, r) && t.Sized(|g|)
    requires t.index == s.index && t.onStack == s.onStack && t.comp == s.comp && t.work == s.work
    ensures Linked(g, t, r)
  {
    forall i, u | 0 <= i < |t.work| && 0 <= u < |g|
      ensures Above(t, i, u) == Above(s, i, u) && Below(t, i, u) == Below(s, i, u)
    {
    }
  }

  lemma LowerLows(g: seq<seq<nat>>, s: State, r: iset<(nat, nat)>, w: nat)
    requires ValidGraph(g) && s.Sized(|g|) && WorkShape(g, s) && LowReached(g, s, r) && LowBounds(g, s)
    requires s.work != [] && w < |g| && (s.Top(), w) in r
    ensures LowReached(g, Lower(s, w), r) && LowBounds(g, Lower(s, w))
  {
    var t := Lower(s, w);
    forall i | 0 <= i < |t.work|
      ensures HasLowWitness(t, r, i)
    {
      assert HasLowWitness(s, r, i);
      if t != s && i == |t.work| - 1 {
        assert LowWitness(t, r, i, w);
      } else {
        var x: nat :| LowWitness(s, r, i, x);
        assert LowWitness(t, r, i, x);
      }
    }
    forall i, u, k | 0 <= i < |t.work| && 0 <= u < |g| && 0 <= k < |g[u]| && Above(t, i, u) && Below(t, i, u)
                     && k < t.explored[u] && t.onStack[g[u][k]]
      ensures t.lowlink[t.work[i]] <= t.index[g[u][k]]
    {
      assert Above(s, i, u) && Below(s, i, u);
    }
  }

  lemma AdvanceKeepsInv(g: seq<seq<nat>>, s: State, r: iset<(nat, nat)>, i: int)
    requires ValidGraph(g) && Inv(g, s, r)
    requires 0 <= i < |s.work| && s.explored[s.work[i]] < |g[s.work[i]]|
    requires var w := g[s.work[i]][s.explored[s.work[i]]];
             s.index[w] >= 0 && (s.onStack[w] ==> s.lowlink[s.work[i]] <= s.index[w])
    ensures Inv(g, Advance(s, s.work[i]), r)
  {
    hide WorkShape, Finished, Discovered, Settled, Linked, LowReached, LowBounds;
    AdvanceShape(g, s, i);
    SameStackSameLinks(g, s, Advance(s, s.work[i]), r);
    AdvanceLows(g, s, r, i);
  }

  lemma AdvanceShape(g: seq<seq<nat>>, s: State, i: int)
    requires ValidGraph(g) && Shape(g, s) && WorkShape(g, s) && Finished(g, s) && Discovered(g, s) && Settled(g, s)
    requires 0 <= i < |s.work| && s.explored[s.work[i]] < |g[s.work[i]]|
    requires s.index[g[s.work[i]][s.explored[s.work[i]]]] >= 0
    ensures var t := Advance(s, s.work[i]); Shape(g, t) && WorkShape(g, t) && Finished(g, t) && Discovered(g, t) && Settled(g, t)
  {
  }

  lemma AdvanceLows(g: seq<seq<nat>>, s: State, r: iset<(nat, nat)>, i: int)
    requires ValidGraph(g) && s.Sized(|g|) && WorkShape(g, s) && LowReached(g, s, r) && LowBounds(g, s)
    requires 0 <= i < |s.work| && s.explored[s.work[i]] < |g[s.work[i]]|
    requires var w := g[s.work[i]][s.explored[s.work[i]]];
             s.onStack[w] ==> s.lowlink[s.work[i]] <= s.index[w]
    ensures LowReached(g, Advance(s, s.work[i]), r) && LowBounds(g, Advance(s, s.work[i]))
  {
    var t := Advance(s, s.work[i]);
    forall j | 0 <= j < |t.work|
      ensures HasLowWitness(t, r, j)
    {
      assert HasLowWitness(s, r, j);
      var x: nat :| LowWitness(s, r, j, x);
      assert LowWitness(t, r, j, x);
    }
    forall j, u, k | 0 <= j < |t.work| && 0 <= u < |g| && 0 <= k < |g[u]| && Above(t, j, u) && Below(t, j, u)
                     && k < t.explored[u] && t.onStack[g[u][k]]
      ensures t.lowlink[t.work[j]] <= t.index[g[u][k]]
    {
      assert Above(s, j, u) && Below(s, j, u);
      if u == s.work[i] {
        assert j == i;
      }
    }
  }

  /** Look at the next successor `w` of the top open node. */
  ghost function Look(s: State, w: nat): State
    requires s.Sized(|s.index|) && s.work != [] && w < |s.index|
  {
    Advance(if s.index[w] < 0 then Open(s, w) else Lower(s, w), s.Top())
  }

  lemma LookOpenKeepsInv(g: seq<seq<nat>>, s: State, r: iset<(nat, nat)>, w: nat)
    requires ValidGraph(g) && Closure(g, r) && Inv(g, s, r)
    requires s.work != [] && s.explored[s.Top()] < |g[s.Top()]| && w == g[s.Top()][s.explored[s.Top()]]
    requires s.index[w] < 0
    ensures Inv(g, Look(s, w), r)
  {
    var t, i := Open(s, w), |s.work| - 1;
    assert HasLowWitness(s, r, i);
    hide WorkShape, Finished, Discovered, Settled, Linked, LowReached, LowBounds;
    OpenKeepsInv(g, s, r, w);
    assert t.work[i] == s.Top() && t.explored == s.explored;
    assert t.index[w] == s.counter && t.lowlink[s.Top()] == s.lowlink[s.Top()] <= s.index[s.Top()];
    AdvanceKeepsInv(g, t, r, i);
  }

  lemma LookKeepsInv(g: seq<seq<nat>>, s: State, r: iset<(nat, nat)>)
    requires ValidGraph(g) && Closure(g, r) && Inv(g, s, r)
    requires s.work != [] && s.explored[s.Top()] < |g[s.Top()]|
    ensures Inv(g, Look(s, g[s.Top()][s.explored[s.Top()]]), r)
  {
    hide WorkShape, Finished, Discovered, Settled, Linked, LowReached, LowBounds;
    var w := g[s.Top()][s.explored[s.Top()]];
    if s.index[w] < 0 {
      LookOpenKeepsInv(g, s, r, w);
    } else {
      LowerKeepsInv(g, s, r, w);
      AdvanceKeepsInv(g, Lower(s, w), r, |s.work| - 1);
    }
  }

  // ---------- leaving a node ----------

  lemma LeaveKeepsInv(g: seq<seq<nat>>, s: State, r: iset<(nat, nat)>)
    requires ValidGraph(g) && Closure(g, r) && Inv(g, s, r)
    requires s.work != [] && s.explored[s.Top()] == |g[s.Top()]| && s.lowlink[s.Top()] != s.index[s.Top()]
    ensures Inv(g, Leave(s), r)
  {
    var t := Leave(s);
    var n := |s.work| - 1;
    assert HasLowWitness(s, r, n);
    var x: nat :| LowWitness(s, r, n, x);
    assert n > 0;
    assert Below(s, n - 1, x);
    assert Chain(r, s.Top(), x, s.work[n - 1]);
    hide WorkShape, Finished, Discovered, Settled, Linked, LowReached, LowBounds;
    LeaveShape(g, s);
    LeaveFinished(g, s);
    LeaveLinked(g, s, r);
    LeaveLowReached(g, s, r, x);
    LeaveLowBounds(g, s);
  }

  lemma LeaveShape(g: seq<seq<nat>>, s: State)
    requires ValidGraph(g) && Shape(g, s) && WorkShape(g, s) && Discovered(g, s) && Settled(g, s) && |s.work| > 1
    ensures var t := Leave(s); Shape(g, t) && WorkShape(g, t) && Discovered(g, t) && Settled(g, t)
  {
    assert forall i :: 0 <= i < |s.work| - 1 ==> Leave(s).work[i] == s.work[i];
  }

  lemma LeaveFinished(g: seq<seq<nat>>, s: State)
    requires s.Sized(|g|) && Finished(g, s) && s.work != [] && s.explored[s.Top()] == |g[s.Top()]|
    ensures Finished(g, Leave(s))
  {
    var t := Leave(s);
    forall v | 0 <= v < |g| && t.index[v] >= 0 && t.explored[v] < |g[v]|
      ensures v in t.work
    {
      var i :| 0 <= i < |s.work| && s.work[i] == v;
      assert t.work[i] == v;
    }
  }

  lemma LeaveLinked(g: seq<seq<nat>>, s: State, r: iset<(nat, nat)>)
    requires Closure(g, r) && s.Sized(|g|) && WorkShape(g, s) && Linked(g, s, r)
    requires |s.work| > 1 && (s.Top(), s.work[|s.work| - 2]) in r
    ensures Linked(g, Leave(s), r)
  {
    var t := Leave(s);
    var n := |s.work| - 1;
    assert forall i :: 0 <= i < n ==> t.work[i] == s.work[i];
    forall i, u | 0 <= i < |t.work| && 0 <= u < |g| && Below(t, i, u)
      ensures (u, t.work[i]) in r
    {
      if i == n - 1 {
        assert Below(s, n, u);
        assert Chain(r, u, s.Top(), s.work[n - 1]);
      } else {
        assert Below(s, i, u);
      }
    }
    forall i, u | 0 <= i < |t.work| && 0 <= u < |g| && Above(t, i, u)
      ensures (t.work[i], u) in r
    {
      assert Above(s, i, u);
    }
  }

  lemma LeaveLowReached(g: seq<seq<nat>>, s: State, r: iset<(nat, nat)>, x: nat)
    requires Closure(g, r) && s.Sized(|g|) && WorkShape(g, s) && Linked(g, s, r) && LowReached(g, s, r)
    requires |s.work| > 1 && LowWitness(s, r, |s.work| - 1, x)
    ensures LowReached(g, Leave(s), r)
  {
    var t := Leave(s);
    var n := |s.work| - 1;
    var v, p := s.Top(), s.work[n - 1];
    assert Above(s, n - 1, v);
    assert Chain(r, p, v, x);
    forall i | 0 <= i < |t.work|
      ensures HasLowWitness(t, r, i)
    {
      assert t.work[i] == s.work[i];
      assert HasLowWitness(s, r, i);
      var y: nat :| LowWitness(s, r, i, y);
      assert LowWitness(t, r, i, if i == n - 1 && t.lowlink[p] != s.lowlink[p] then x else y);
    }
  }

  lemma LeaveLowBounds(g: seq<seq<nat>>, s: State)
    requires ValidGraph(g) && s.Sized(|g|) && WorkShape(g, s) && LowBounds(g, s) && |s.work| > 1
    ensures LowBounds(g, Leave(s))
  {
    var t := Leave(s);
    var n := |s.work| - 1;
    assert forall i :: 0 <= i < n ==> t.work[i] == s.work[i];
    forall i, u, k | 0 <= i < |t.work| && 0 <= u < |g| && 0 <= k < |g[u]| && Above(t, i, u) && Below(t, i, u)
                     && k < t.explored[u] && t.onStack[g[u][k]]
      ensures t.lowlink[t.work[i]] <= t.index[g[u][k]]
    {
      var j := if i == n - 1 && s.index[s.Top()] <= s.index[u] then n else i;
      assert Above(s, j, u) && Below(s, j, u);
    }
  }

  // ---------- closing a component ----------

  lemma CloseKeepsInv(g: seq<seq<nat>>, s: State, t: State, r: iset<(nat, nat)>, v: nat)
    requires ValidGraph(g) && Closure(g, r) && Inv(g, s, r)
    requires v < |g| && Closes(s, t, v) && s.explored[v] == |g[v]| && s.lowlink[v] == s.index[v]
    ensures Inv(g, t, r)
  {
    hide WorkShape, Finished, Discovered, Settled, Linked, LowReached, LowBounds;
    CloseShape(g, s, t, v);
    CloseArcs(g, s, t, v);
    CloseSettled(g, s, t, v);
    CloseLinked(g, s, t, r, v);
    CloseLows(g, s, t, r, v);
  }

  lemma CloseShape(g: seq<seq<nat>>, s: State, t: State, v: nat)
    requires Shape(g, s) && WorkShape(g, s) && v < |g| && Closes(s, t, v)
    ensures Shape(g, t) && WorkShape(g, t)
  {
    assert forall i :: 0 <= i < |t.work| ==> t.work[i] == s.work[i];
  }

  lemma CloseArcs(g: seq<seq<nat>>, s: State, t: State, v: nat)
    requires ValidGraph(g) && s.Sized(|g|) && Finished(g, s) && Discovered(g, s)
    requires v < |g| && Closes(s, t, v) && s.explored[v] == |g[v]|
    ensures Finished(g, t) && Discovered(g, t)
  {
    forall u | 0 <= u < |g| && t.index[u] >= 0 && t.explored[u] < |g[u]|
      ensures u in t.work
    {
      var i :| 0 <= i < |s.work| && s.work[i] == u;
      assert t.work[i] == u;
    }
  }

  lemma CloseSettled(g: seq<seq<nat>>, s: State, t: State, v: nat)
    requires ValidGraph(g) && Shape(g, s) && WorkShape(g, s) && Finished(g, s) && Discovered(g, s) && Settled(g, s)
    requires LowBounds(g, s)
    requires v < |g| && Closes(s, t, v) && s.explored[v] == |g[v]| && s.lowlink[v] == s.index[v]
    ensures Settled(g, t)
  {
    var n := |s.work| - 1;
    forall u, k | 0 <= u < |g| && 0 <= k < |g[u]| && t.comp[u] >= 0
      ensures 0 <= t.comp[g[u][k]] <= t.comp[u]
    {
      if s.onStack[u] && s.index[u] >= s.index[v] {
        assert Above(s, n, u) && Below(s, n, u);
        assert s.explored[u] == |g[u]|;
        assert s.index[g[u][k]] >= 0;
      }
    }
    forall d | 0 <= d < t.count
      ensures Used(t.comp, d)
    {
      if d < s.count {
        assert Used(s.comp, d);
        var w :| 0 <= w < |s.comp| && s.comp[w] == d;
        assert t.comp[w] == d;
      } else {
        assert t.comp[v] == d;
      }
    }
  }

  lemma CloseLinked(g: seq<seq<nat>>, s: State, t: State, r: iset<(nat, nat)>, v: nat)
    requires Closure(g, r) && Shape(g, s) && WorkShape(g, s) && Linked(g, s, r)
    requires v < |g| && Closes(s, t, v)
    ensures Linked(g, t, r)
  {
    var n := |s.work| - 1;
    forall a, b | 0 <= a < |g| && 0 <= b < |g| && t.comp[a] == t.comp[b] >= 0
      ensures (a, b) in r
    {
      if t.comp[a] == s.count {
        assert Above(s, n, b) && Below(s, n, a);
        assert Chain(r, a, v, b);
      }
    }
    forall i, u | 0 <= i < |t.work| && 0 <= u < |g| && Above(t, i, u)
      ensures (t.work[i], u) in r
    {
      assert Above(s, i, u);
    }
    forall i, u | 0 <= i < |t.work| && 0 <= u < |g| && Below(t, i, u)
      ensures (u, t.work[i]) in r
    {
      assert Below(s, i, u);
    }
  }

  lemma CloseLows(g: seq<seq<nat>>, s: State, t: State, r: iset<(nat, nat)>, v: nat)
    requires ValidGraph(g) && s.Sized(|g|) && WorkShape(g, s) && LowReached(g, s, r) && LowBounds(g, s)
    requires v < |g| && Closes(s, t, v)
    ensures LowReached(g, t, r) && LowBounds(g, t)
  {
    forall i | 0 <= i < |t.work|
      ensures HasLowWitness(t, r, i)
    {
      assert HasLowWitness(s, r, i);
      var y: nat :| LowWitness(s, r, i, y);
      assert LowWitness(t, r, i, y);
    }
    forall i, u, k | 0 <= i < |t.work| && 0 <= u < |g| && 0 <= k < |g[u]| && Above(t, i, u) && Below(t, i, u)
                     && k < t.explored[u] && t.onStack[g[u][k]]
      ensures t.lowlink[t.work[i]] <= t.index[g[u][k]]
    {
      assert Above(s, i, u) && Below(s, i, u);
    }
  }

  // ---------- the run ----------

  ghost function ReachRelation(g: seq<seq<nat>>): iset<(nat, nat)> {
    iset p: (nat, nat) | Reaches(Arcs(g), p.0, p.1)
  }

  lemma ReachRelationIsClosure(g: seq<seq<nat>>)
    ensures Closure(g, ReachRelation(g))
  {
    var r := ReachRelation(g);
    forall u: nat | u < |g| ensures (u, u) in r {
      ReachesSelf(Arcs(g), u);
    }
    forall u: nat, k | u < |g| && 0 <= k < |g[u]| ensures (u, g[u][k]) in r {
      assert (u, g[u][k]) in Arcs(g) by {
        assert g[u][k] == g[u][k];
      }
      ReachesArc(Arcs(g), u, g[u][k]);
    }
    forall u: nat, v: nat, w: nat | Chain(r, u, v, w) ensures (u, w) in r {
      ReachesTransitive(Arcs(g), u, v, w);
    }
  }

  /** Along any path the numbers never go up. */
  lemma NumbersFallAlongPaths(g: seq<seq<nat>>, comp: seq<int>, u: nat, v: nat)
    requires ValidGraph(g) && |comp| == |g| && u < |g|
    requires forall x, k :: 0 <= x < |g| && 0 <= k < |g[x]| ==> comp[g[x][k]] <= comp[x]
    requires Reaches(Arcs(g), u, v)
    ensures v < |g| && comp[v] <= comp[u]
  {
    var lower := iset x: nat | x < |g| && comp[x] <= comp[u];
    ClosedSetKeepsReach(Arcs(g), lower, u, v);
  }

  lemma FinalNumbering(g: seq<seq<nat>>, s: State)
    requires ValidGraph(g) && Inv(g, s, ReachRelation(g))
    requires s.work == [] && forall v :: 0 <= v < |g| ==> s.index[v] >= 0
    ensures Numbering(g, s.comp, s.count)
  {
    assert forall v :: 0 <= v < |g| ==> !s.onStack[v] && s.comp[v] >= 0;
    assert forall x, k :: 0 <= x < |g| && 0 <= k < |g[x]| ==> s.comp[g[x][k]] <= s.comp[x];
    forall u: nat, v: nat | u < |g| && v < |g|
      ensures s.comp[u] == s.comp[v] <==> Mutual(Arcs(g), u, v)
    {
      if s.comp[u] == s.comp[v] {
        assert (u, v) in ReachRelation(g) && (v, u) in ReachRelation(g);
        assert Mutual(Arcs(g), u, v);
      } else if Mutual(Arcs(g), u, v) {
        NumbersFallAlongPaths(g, s.comp, u, v);
        NumbersFallAlongPaths(g, s.comp, v, u);
      }
    }
  }

  lemma InitialInv(g: seq<seq<nat>>, s: State, r: iset<(nat, nat)>)
    requires ValidGraph(g) && s.Sized(|g|) && s.work == [] && s.counter == 0 && s.count == 0
    requires forall v :: 0 <= v < |g| ==>
               s.index[v] == -1 && !s.onStack[v] && s.comp[v] == -1 && s.explored[v] == 0
    ensures Inv(g, s, r) && StackOrder(s, [])
  {
  }

  /** The parts of the invariant the loop itself reads. */
  lemma InvFacts(g: seq<seq<nat>>, s: State, r: iset<(nat, nat)>)
    requires ValidGraph(g) && Inv(g, s, r)
    ensures s.Sized(|g|) && forall v :: 0 <= v < |g| ==> s.index[v] >= -1
    ensures forall v :: 0 <= v < |g| && s.index[v] < 0 ==> s.explored[v] == 0 && v !in s.work
    ensures s.work != [] ==> s.explored[s.Top()] <= |g[s.Top()]| && s.onStack[s.Top()]
    ensures forall i :: 0 <= i < |s.work| - 1 ==> s.work[i] != s.Top()
    ensures |s.work| > 1 ==> s.lowlink[s.work[|s.work| - 2]] < s.index[s.Top()]
  {
    if |s.work| > 1 {
      assert HasLowWitness(s, r, |s.work| - 2);
    }
  }

  /** `stack` lists the on-stack nodes by increasing index. */
  ghost predicate StackOrder(s: State, stack: seq<nat>) {
    && (forall i :: 0 <= i < |stack| ==> stack[i] < |s.index| == |s.onStack| && s.onStack[stack[i]])
    && (forall i, j :: 0 <= i < j < |stack| ==> s.index[stack[i]] < s.index[stack[j]])
    && (forall v :: 0 <= v < |s.onStack| && s.onStack[v] ==> v in stack)
  }

  lemma OpenStackOrder(g: seq<seq<nat>>, s: State, r: iset<(nat, nat)>, stack: seq<nat>, v: nat)
    requires ValidGraph(g) && Inv(g, s, r) && StackOrder(s, stack) && v < |g| && s.index[v] < 0
    ensures StackOrder(Open(s, v), stack + [v])
  {
    var stack' := stack + [v];
    assert stack'[|stack|] == v;
    forall u | 0 <= u < |g| && s.onStack[u] ensures u in stack' {
      var i :| 0 <= i < |stack| && stack[i] == u;
      assert stack'[i] == u;
    }
  }

  /** `u` is on the stack with index at least that of the entry at `m`. */
  ghost predicate PoppedFrom(s: State, stack: seq<nat>, m: nat, u: int)
    requires s.Sized(|s.index|) && StackEntries(s, stack) && 0 <= u < |s.index|
  {
    m < |stack| && s.onStack[u] && s.index[u] >= s.index[stack[m]]
  }

  ghost predicate StackEntries(s: State, stack: seq<nat>) {
    forall i :: 0 <= i < |stack| ==> stack[i] < |s.index|
  }

  lemma PopOne(s: State, stack: seq<nat>, m: nat)
    requires s.Sized(|s.index|) && StackOrder(s, stack) && m < |stack|
    ensures forall u :: 0 <= u < |s.index| ==>
              (PoppedFrom(s, stack, m, u) <==> u == stack[m] || PoppedFrom(s, stack, m + 1, u))
  {
    forall u | 0 <= u < |s.index| && s.onStack[u]
      ensures PoppedFrom(s, stack, m, u) <==> u == stack[m] || PoppedFrom(s, stack, m + 1, u)
    {
      var i :| 0 <= i < |stack| && stack[i] == u;
    }
  }

  lemma SameStackOrder(s: State, t: State, stack: seq<nat>)
    requires StackOrder(s, stack) && t.index == s.index && t.onStack == s.onStack
    ensures StackOrder(t, stack)
  {
  }

  lemma PoppedStackOrder(s: State, t: State, stack: seq<nat>, pos: nat)
    requires s.Sized(|s.index|) && StackOrder(s, stack) && pos < |stack|
    requires |t.onStack| == |t.index| && t.index == s.index
    requires forall u :: 0 <= u < |s.index| ==> t.onStack[u] == (s.onStack[u] && !PoppedFrom(s, stack, pos, u))
    ensures StackOrder(t, stack[..pos])
    ensures forall u :: 0 <= u < |s.index| ==>
              (PoppedFrom(s, stack, pos, u) <==> s.onStack[u] && s.index[u] >= s.index[stack[pos]])
  {
    forall u | 0 <= u < |s.index| && t.onStack[u]
      ensures u in stack[..pos]
    {
      var i :| 0 <= i < |stack| && stack[i] == u;
      assert i < pos;
      assert stack[..pos][i] == u;
    }
  }

  ghost function UndiscoveredNodes(s: State): set<int> {
    set v | 0 <= v < |s.index| && s.index[v] < 0
  }

  /** Each look discovers a node or uses up one successor of the top open node. */
  lemma LookProgress(g: seq<seq<nat>>, s: State, w: nat)
    requires ValidGraph(g) && s.Sized(|g|) && s.work != [] && w < |g| && s.counter >= 0
    ensures var t := Look(s, w);
            && (if s.index[w] < 0 then UndiscoveredNodes(t) < UndiscoveredNodes(s)
                else UndiscoveredNodes(t) == UndiscoveredNodes(s) && t.work == s.work
                     && t.explored[s.Top()] == s.explored[s.Top()] + 1)
            && forall v :: 0 <= v < |g| && s.index[v] >= 0 ==> t.index[v] >= 0
  {
    if s.index[w] < 0 {
      assert w in UndiscoveredNodes(s) && w !in UndiscoveredNodes(Look(s, w));
    }
  }

  /** The flags and numbers once the stack is popped down to length `m`. */
  ghost predicate PoppedTo(s: State, stack: seq<nat>, m: nat, onStack: seq<bool>, componentOf: seq<int>, count: nat)
    requires s.Sized(|s.index|) && StackEntries(s, stack)
  {
    && |onStack| == |componentOf| == |s.index|
    && forall u :: 0 <= u < |s.index| ==>
         && onStack[u] == (s.onStack[u] && !PoppedFrom(s, stack, m, u))
         && componentOf[u] == if PoppedFrom(s, stack, m, u) then count else s.comp[u]
  }

  lemma PoppedNone(s: State, stack: seq<nat>, count: nat)
    requires s.Sized(|s.index|) && StackOrder(s, stack)
    ensures StackEntries(s, stack) && PoppedTo(s, stack, |stack|, s.onStack, s.comp, count)
    ensures forall i :: 0 <= i < |stack| ==> stack[i] < |s.index|
  {
  }

  lemma PopStep(s: State, stack: seq<nat>, m: nat, onStack: seq<bool>, componentOf: seq<int>, count: nat)
    requires s.Sized(|s.index|) && StackOrder(s, stack) && m < |stack|
    requires PoppedTo(s, stack, m + 1, onStack, componentOf, count)
    ensures PoppedTo(s, stack, m, onStack[stack[m] := false], componentOf[stack[m] := count], count)
  {
    PopOne(s, stack, m);
    hide PoppedFrom;
  }

  /** Takes one member off the stack into its component. */
  method PopMember(ghost s: State, ghost stack: seq<nat>, ghost m: nat, member: nat, componentCount: nat,
                   onStack: array<bool>, componentOf: array<int>)
    requires s.Sized(|s.index|) && StackOrder(s, stack) && StackEntries(s, stack) && m < |stack| && member == stack[m]
    requires PoppedTo(s, stack, m + 1, onStack[..], componentOf[..], componentCount) && member < onStack.Length == componentOf.Length
    modifies onStack, componentOf
    ensures PoppedTo(s, stack, m, onStack[..], componentOf[..], componentCount)
  {
    PopStep(s, stack, m, onStack[..], componentOf[..], componentCount);
    hide StackOrder, StackEntries, PoppedTo;
    onStack[member] := false;
    componentOf[member] := componentCount;
  }

  /** The popping loop: everything from `node` up gets number `componentCount` and comes off the stack. */
  method PopDownTo(ghost s: State, stack: seq<nat>, node: nat, componentCount: nat,
                   onStack: array<bool>, componentOf: array<int>) returns (sccStack: seq<nat>)
    requires s.Sized(|s.index|) && StackOrder(s, stack) && node in stack
    requires onStack[..] == s.onStack && componentOf[..] == s.comp
    modifies onStack, componentOf
    ensures |sccStack| < |stack| && sccStack == stack[..|sccStack|] && stack[|sccStack|] == node
    ensures PoppedTo(s, stack, |sccStack|, onStack[..], componentOf[..], componentCount)
  {
    hide StackOrder, StackEntries, PoppedTo;
    PoppedNone(s, stack, componentCount);
    assert stack == stack[..|stack|];
    sccStack := stack;
    var member := -1;
    while member != node
      invariant |sccStack| <= |stack| && sccStack == stack[..|sccStack|]
      invariant if member == node then |sccStack| < |stack| && stack[|sccStack|] == node else node in sccStack
      invariant PoppedTo(s, stack, |sccStack|, onStack[..], componentOf[..], componentCount)
      decreases |sccStack|
    {
      assert sccStack == sccStack[..|sccStack| - 1] + [sccStack[|sccStack| - 1]];
      member := if |sccStack| > 0 then sccStack[|sccStack| - 1] else node;
      sccStack := sccStack[..|sccStack| - 1];
      PopMember(s, stack, |sccStack|, member, componentCount, onStack, componentOf);
    }
  }

  /** The pass's arrays, stacks and counters, gathered so that its steps can be separate methods. */
  class Pass {
    const successors: seq<seq<nat>>
    const index: array<int>
    const lowlink: array<int>
    const onStack: array<bool>
    const componentOf: array<int>
    var sccStack: seq<nat>
    var workNode: seq<nat>
    var workNext: seq<nat>
    var counter: nat
    var componentCount: nat
    ghost var s: State

    /** The fields hold what `s` says. */
    ghost predicate Matches()
      reads this, index, lowlink, onStack, componentOf
    {
      && index != lowlink && index != componentOf && lowlink != componentOf
      && s.Sized(|successors|) && StackOrder(s, sccStack)
      && index.Length == lowlink.Length == onStack.Length == componentOf.Length == |successors|
      && (forall v :: 0 <= v < |successors| ==> index[v] == s.index[v] && lowlink[v] == s.lowlink[v])
      && (forall v :: 0 <= v < |successors| ==> onStack[v] == s.onStack[v] && componentOf[v] == s.comp[v])
      && workNode == s.work && |workNext| == |workNode|
      && (forall i :: 0 <= i < |workNode| ==> workNext[i] == s.explored[workNode[i]])
      && counter == s.counter && componentCount == s.count
    }

    ghost predicate Valid()
      reads this, index, lowlink, onStack, componentOf
    {
      ValidGraph(successors) && Matches() && Inv(successors, s, ReachRelation(successors))
    }

    lemma Facts()
      requires Valid()
      ensures ValidGraph(successors) && Inv(successors, s, ReachRelation(successors))
      ensures s.Sized(|successors|) && index[..] == s.index && componentOf[..] == s.comp && componentCount == s.count
      ensures workNode == s.work && |workNext| == |workNode| && StackOrder(s, sccStack)
      ensures index.Length == |successors| && forall v :: 0 <= v < |successors| ==> index[v] == s.index[v]
      ensures workNode != [] ==> workNext[|workNext| - 1] == s.explored[s.Top()]
    {
    }

    constructor (successors: seq<seq<nat>>)
      requires ValidGraph(successors)
      ensures Valid() && this.successors == successors && s.work == []
      ensures fresh(index) && fresh(lowlink) && fresh(onStack) && fresh(componentOf)
    {
      var count := |successors|;
      this.successors := successors;
      index := new int[count](_ => -1);
      lowlink := new int[count](_ => 0);
      onStack := new bool[count](_ => false);
      componentOf := new int[count](_ => -1);
      sccStack, workNode, workNext := [], [], [];
      counter, componentCount := 0, 0;
      new;
      s := State(index[..], lowlink[..], onStack[..], componentOf[..], seq(count, _ => 0), [], 0, 0);
      InitialInv(successors, s, ReachRelation(successors));
    }

    /** Discovers `v`: numbers it and pushes it on both stacks. */
    method Discover(v: nat)
      requires Matches() && v < |successors| && s.explored[v] == 0 && v !in workNode
      requires StackOrder(Open(s, v), sccStack + [v])
      modifies this, index, lowlink, onStack
      ensures Matches() && s == Open(old(s), v) && workNext == old(workNext) + [0]
    {
      ghost var t := Open(s, v);
      hide StackOrder;
      index[v] := counter;
      lowlink[v] := counter;
      onStack[v] := true;
      counter := counter + 1;
      sccStack := sccStack + [v];
      workNode := workNode + [v];
      workNext := workNext + [0];
      s := t;
    }

    /** Steps past an undiscovered successor and opens it. */
    method OpenNext(node: nat, position: nat, next: nat)
      requires Matches() && workNode != [] && node == workNode[|workNode| - 1] && position == workNext[|workNext| - 1]
      requires next < |successors| && s.index[next] < 0 && s.explored[next] == 0 && next !in workNode
      requires StackOrder(Open(s, next), sccStack + [next])
      requires forall i :: 0 <= i < |workNode| - 1 ==> workNode[i] != node
      modifies this, index, lowlink, onStack
      ensures Matches() && s == Look(old(s), next)
    {
      Discover(next);
      ghost var t := Advance(s, node);
      SameStackOrder(s, t, sccStack);
      hide StackOrder;
      workNext, s := workNext[|workNext| - 2 := position + 1], t;
    }

    /** Steps past a discovered successor, lowering the lowlink if it is on the stack with a smaller index. */
    method LowerNext(node: nat, position: nat, next: nat)
      requires Matches() && workNode != [] && node == workNode[|workNode| - 1] && position == workNext[|workNext| - 1]
      requires next < |successors| && s.index[next] >= 0
      requires forall i :: 0 <= i < |workNode| - 1 ==> workNode[i] != node
      modifies this`workNext, this`s, lowlink
      ensures Matches() && s == Look(old(s), next)
    {
      ghost var t := Look(s, next);
      SameStackOrder(s, t, sccStack);
      hide StackOrder;
      if onStack[next] && index[next] < lowlink[node] {
        lowlink[node] := index[next];
      }
      workNext, s := workNext[|workNext| - 1 := position + 1], t;
    }

    /** Looks at the next successor of the top open node: opens it if new, else may lower the lowlink. */
    method LookAtNext()
      requires Valid() && workNode != [] && workNext[|workNext| - 1] < |successors[workNode[|workNode| - 1]]|
      modifies this, index, lowlink, onStack
      ensures Valid() && s == Look(old(s), successors[old(s.Top())][old(s.explored[s.Top()])])
    {
      hide StackOrder, Inv, Closure, Matches, Look;
      Facts();
      ghost var r := ReachRelation(successors);
      InvFacts(successors, s, r);
      ReachRelationIsClosure(successors);
      LookKeepsInv(successors, s, r);
      var node := workNode[|workNode| - 1];
      var position := workNext[|workNext| - 1];
      var next := successors[node][position];
      hide ReachRelation;
      if index[next] == -1 {
        OpenStackOrder(successors, s, r, sccStack, next);
        OpenNext(node, position, next);
      } else {
        LowerNext(node, position, next);
      }
    }

    /** Pops the component stack down to `node`, the top open node, numbering every popped node `componentCount`. */
    method PopComponent(node: nat)
      requires Matches() && node < |successors| && s.onStack[node] && workNode != [] && node == s.Top()
      modifies this`sccStack, this`componentCount, this`s, onStack, componentOf
      ensures Matches() && s.work == old(s.work)
      ensures Closes(old(s), s.(work := s.work[..|s.work| - 1]), node)
    {
      ghost var s0, stack := s, sccStack;
      sccStack := PopDownTo(s0, sccStack, node, componentCount, onStack, componentOf);
      componentCount := componentCount + 1;
      s := s.(comp := componentOf[..], onStack := onStack[..], count := s.count + 1);
      PoppedStackOrder(s0, s, stack, |sccStack|);
    }

    /** Takes the top node off the work stacks and hands its lowlink to the node below. */
    method LeaveTop()
      requires Matches() && workNode != [] && StackOrder(Leave(s), sccStack)
      modifies this`workNode, this`workNext, this`s, lowlink
      ensures Matches() && s == Leave(old(s))
    {
      hide StackOrder;
      ghost var t := Leave(s);
      var node := workNode[|workNode| - 1];
      workNode := workNode[..|workNode| - 1];
      workNext := workNext[..|workNext| - 1];
      if |workNode| > 0 {
        var parent := workNode[|workNode| - 1];
        if lowlink[node] < lowlink[parent] {
          lowlink[parent] := lowlink[node];
        }
      }
      s := t;
    }

    /** Closes the component of the exhausted top node if it is its root, then leaves that node. */
    method FinishTop()
      requires Valid() && workNode != [] && workNext[|workNext| - 1] >= |successors[workNode[|workNode| - 1]]|
      modifies this, lowlink, onStack, componentOf
      ensures Valid() && s.work == old(s.work[..|s.work| - 1]) && s.index == old(s.index)
    {
      hide Inv, StackOrder, Closure;
      ghost var r := ReachRelation(successors);
      ReachRelationIsClosure(successors);
      InvFacts(successors, s, r);
      hide ReachRelation, ValidGraph;
      ghost var s0 := s;
      var node := workNode[|workNode| - 1];
      if lowlink[node] == index[node] {
        PopComponent(node);
        assert Leave(s) == s.(work := s.work[..|s.work| - 1]);
        CloseKeepsInv(successors, s0, Leave(s), r, node);
      } else {
        LeaveKeepsInv(successors, s, r);
      }
      SameStackOrder(s, Leave(s), sccStack);
      LeaveTop();
    }

    /** Runs until the work stack is empty. */
    method Explore()
      requires Valid()
      modifies this, index, lowlink, onStack, componentOf
      ensures Valid() && workNode == []
      ensures forall v :: 0 <= v < old(|s.index|) && old(s.index)[v] >= 0 ==> v < |s.index| && s.index[v] >= 0
    {
      hide Inv, Matches, Look, Valid;
      Facts();
      while |workNode| > 0
        invariant Valid()
        invariant s.Sized(|successors|) && workNode == s.work && |workNext| == |workNode|
        invariant forall v :: 0 <= v < old(|s.index|) && old(s.index)[v] >= 0 ==> v < |s.index| && s.index[v] >= 0
        decreases UndiscoveredNodes(s), |workNode|,
                  if |workNode| > 0 then |successors[s.Top()]| - workNext[|workNode| - 1] else 0
      {
        Facts();
        InvFacts(successors, s, ReachRelation(successors));
        var node := workNode[|workNode| - 1];
        var position := workNext[|workNext| - 1];
        if position < |successors[node]| {
          LookProgress(successors, s, successors[node][position]);
          LookAtNext();
        } else {
          FinishTop();
        }
        Facts();
      }
    }
  }

  /**
   Tarjan's pass with explicit work stacks: component numbers coincide exactly on mutually
   reachable nodes, fill 0..componentCount-1, and no arc leads to a higher number.
   */
  method StronglyConnectedComponents(successors: seq<seq<nat>>)
    returns (componentOf: seq<int>, componentCount: nat)
    requires ValidGraph(successors)
    ensures Numbering(successors, componentOf, componentCount)
  {
    hide Inv, StackOrder, Numbering;
    ghost var r := ReachRelation(successors);
    ReachRelationIsClosure(successors);
    var pass := new Pass(successors);
    hide Closure, Pass.Matches, Pass.Valid;
    pass.Facts();
    for start := 0 to |successors|
      invariant pass.Valid() && pass.successors == successors && pass.workNode == []
      invariant fresh(pass) && fresh(pass.index) && fresh(pass.lowlink) && fresh(pass.onStack) && fresh(pass.componentOf)
      invariant forall v :: 0 <= v < start ==> pass.s.index[v] >= 0
    {
      pass.Facts();
      InvFacts(successors, pass.s, r);
      if pass.index[start] != -1 {
        continue;
      }
      OpenKeepsInv(successors, pass.s, r, start);
      OpenStackOrder(successors, pass.s, r, pass.sccStack, start);
      pass.Discover(start);
      pass.Explore();
    }
    pass.Facts();
    FinalNumbering(successors, pass.s);
    componentOf, componentCount := pass.componentOf[..], pass.componentCount;
  }
}

/** Joining profile frames and call edges onto graph nodes (src/enrich/runtime_join.ts). */
module RuntimeJoin {
  import opened Sums
  import opened Results
  import opened CpuProfile
  import opened Ranking

  datatype TargetNode = TargetNode(id: string, kind: string, name: string, filePath: string, startLine: int, endLine: int)

  datatype MatchVia = ByName | ByRange

  datatype DropReason = NoFile | NoNode | Ambiguous

  datatype Resolution = Matched(node: TargetNode, via: MatchVia) | Dropped(reason: DropReason)

  // ---------- the innermost enclosing node ----------

  predicate Encloses(n: TargetNode, line: int) {
    n.startLine >= 1 && n.endLine >= n.startLine && n.startLine <= line <= n.endLine
  }

  function Span(n: TargetNode): int {
    n.endLine - n.startLine
  }

  /** Narrower range, or as narrow and starting later. */
  predicate Inner(a: TargetNode, b: TargetNode) {
    Span(a) < Span(b) || (Span(a) == Span(b) && a.startLine > b.startLine)
  }

  /** The enclosing node that no other enclosing node is inside of; the first listed of equals. */
  ghost predicate IsInnermost(nodes: seq<TargetNode>, line: int, best: Option<TargetNode>) {
    match best
    case None => line < 1 || forall n :: n in nodes ==> !Encloses(n, line)
    case Some(b) =>
      line >= 1 && exists i :: 0 <= i < |nodes| && nodes[i] == b && IsInnermostAt(nodes, line, i)
  }

  ghost predicate IsInnermostAt(nodes: seq<TargetNode>, line: int, i: int)
    requires 0 <= i < |nodes|
  {
    && Encloses(nodes[i], line)
    && (forall j :: 0 <= j < |nodes| && Encloses(nodes[j], line) ==> !Inner(nodes[j], nodes[i]))
    && (forall j :: 0 <= j < i && Encloses(nodes[j], line) ==> Inner(nodes[i], nodes[j]))
  }

  /** There is only one innermost node to find. */
  lemma InnermostUnique(nodes: seq<TargetNode>, line: int, a: Option<TargetNode>, b: Option<TargetNode>)
    requires IsInnermost(nodes, line, a) && IsInnermost(nodes, line, b)
    ensures a == b
  {
    if a.Some? && b.Some? {
      var i :| 0 <= i < |nodes| && nodes[i] == a.value && IsInnermostAt(nodes, line, i);
      var j :| 0 <= j < |nodes| && nodes[j] == b.value && IsInnermostAt(nodes, line, j);
      assert i == j;
    }
  }

  ghost function Innermost(nodes: seq<TargetNode>, line: int): (best: Option<TargetNode>)
    ensures IsInnermost(nodes, line, best)
  {
    if line < 1 || nodes == [] then None else
      var rest, n := nodes[..|nodes| - 1], nodes[|nodes| - 1];
      var best := Innermost(rest, line);
      if Encloses(n, line) && (best.None? || Inner(n, best.value)) then
        InnermostLast(nodes, line, best);
        Some(n)
      else
        InnermostEarlier(nodes, line, best);
        best
  }

  lemma InnermostLast(nodes: seq<TargetNode>, line: int, best: Option<TargetNode>)
    requires line >= 1 && nodes != [] && IsInnermost(nodes[..|nodes| - 1], line, best)
    requires Encloses(nodes[|nodes| - 1], line) && (best.None? || Inner(nodes[|nodes| - 1], best.value))
    ensures IsInnermost(nodes, line, Some(nodes[|nodes| - 1]))
  {
    var k := |nodes| - 1;
    assert nodes == nodes[..k] + [nodes[k]];
    assert IsInnermostAt(nodes, line, k);
  }

  lemma InnermostEarlier(nodes: seq<TargetNode>, line: int, best: Option<TargetNode>)
    requires line >= 1 && nodes != [] && IsInnermost(nodes[..|nodes| - 1], line, best)
    requires !(Encloses(nodes[|nodes| - 1], line) && (best.None? || Inner(nodes[|nodes| - 1], best.value)))
    ensures IsInnermost(nodes, line, best)
  {
    var k := |nodes| - 1;
    assert nodes == nodes[..k] + [nodes[k]];
    if best.Some? {
      var i :| 0 <= i < k && nodes[..k][i] == best.value && IsInnermostAt(nodes[..k], line, i);
      forall j | 0 <= j < |nodes| && Encloses(nodes[j], line) ensures !Inner(nodes[j], nodes[i]) {
        if j < k {
          assert nodes[..k][j] == nodes[j];
        }
      }
      assert IsInnermostAt(nodes, line, i) by {
        forall j | 0 <= j < i && Encloses(nodes[j], line) ensures Inner(nodes[i], nodes[j]) {
          assert nodes[..k][j] == nodes[j];
        }
      }
    }
  }

  /** The scan for the innermost enclosing node. */
  method EnclosingNode(nodes: seq<TargetNode>, line: int) returns (best: Option<TargetNode>)
    ensures best == Innermost(nodes, line)
  {
    if line < 1 {
      return None;
    }
    best := None;
    for i := 0 to |nodes|
      invariant best == Innermost(nodes[..i], line)
    {
      var node := nodes[i];
      assert nodes[..i + 1][..i] == nodes[..i];
      if node.startLine < 1 || node.endLine < node.startLine {
        continue;
      }
      if line < node.startLine || line > node.endLine {
        continue;
      }
      if best.None? || Span(node) < Span(best.value) || (Span(node) == Span(best.value) && node.startLine > best.value.startLine) {
        best := Some(node);
      }
    }
    assert nodes[..|nodes|] == nodes;
  }

  // ---------- name matching ----------

  predicate NameMatchKind(kind: string) {
    kind == "Function" || kind == "Method" || kind == "Property" || kind == "Variable" || kind == "Class"
  }

  predicate MeaningfulName(name: string) {
    |name| > 0 && name[0] != '('
  }

  /** Position of the last dot, or -1. */
  function LastDot(name: string): (i: int)
    ensures -1 <= i < |name|
    ensures i >= 0 ==> name[i] == '.'
    ensures forall j :: i < j < |name| ==> name[j] != '.'
  {
    if name == "" then -1
    else if name[|name| - 1] == '.' then |name| - 1
    else LastDot(name[..|name| - 1])
  }

  function CandidateNames(name: string): seq<string> {
    var dot := LastDot(name);
    if 0 <= dot < |name| - 1 then [name, name[dot + 1..]] else [name]
  }

  function IsNamed(candidates: seq<string>): TargetNode -> bool {
    (n: TargetNode) => NameMatchKind(n.kind) && n.name in candidates
  }

  function NameMatches(fileNodes: seq<TargetNode>, functionName: string): seq<TargetNode> {
    if MeaningfulName(functionName) then
      Filter(fileNodes, IsNamed(CandidateNames(functionName)))
    else []
  }

  /** What a frame resolves to among the nodes of its file. */
  ghost function ResolveIn(fileNodes: seq<TargetNode>, functionName: string, line: int): Resolution {
    var named := NameMatches(fileNodes, functionName);
    if |named| == 1 then Matched(named[0], ByName)
    else if |named| > 1 then
      var inner := Innermost(named, line);
      if inner.Some? then Matched(inner.value, ByName) else Dropped(Ambiguous)
    else
      var inner := Innermost(fileNodes, line);
      if inner.Some? then Matched(inner.value, ByRange) else Dropped(NoNode)
  }

  method ResolveNode(fileNodes: seq<TargetNode>, functionName: string, line: int) returns (resolution: Resolution)
    ensures resolution == ResolveIn(fileNodes, functionName, line)
  {
    var named := NameMatches(fileNodes, functionName);
    if |named| == 1 {
      return Matched(named[0], ByName);
    }
    if |named| > 1 {
      var disambiguated := EnclosingNode(named, line);
      return if disambiguated.Some? then Matched(disambiguated.value, ByName) else Dropped(Ambiguous);
    }
    var enclosed := EnclosingNode(fileNodes, line);
    resolution := if enclosed.Some? then Matched(enclosed.value, ByRange) else Dropped(NoNode);
  }

  // ---------- nodes by file ----------

  function IsInFile(filePath: string): TargetNode -> bool {
    (n: TargetNode) => n.filePath == filePath
  }

  ghost function InFile(nodes: seq<TargetNode>, filePath: string): seq<TargetNode> {
    Filter(nodes, IsInFile(filePath))
  }

  lemma InFileStep(nodes: seq<TargetNode>, i: nat, filePath: string)
    requires i < |nodes|
    ensures InFile(nodes[..i + 1], filePath) ==
            if nodes[i].filePath == filePath then InFile(nodes[..i], filePath) + [nodes[i]] else InFile(nodes[..i], filePath)
  {
    assert nodes[..i + 1][..i] == nodes[..i];
  }

  function Bucket(byFile: map<string, seq<TargetNode>>, filePath: string): seq<TargetNode> {
    if filePath in byFile then byFile[filePath] else []
  }

  method IndexByFile(nodes: seq<TargetNode>) returns (byFile: map<string, seq<TargetNode>>)
    ensures forall f :: Bucket(byFile, f) == InFile(nodes, f)
  {
    byFile := map[];
    for i := 0 to |nodes|
      invariant forall f :: Bucket(byFile, f) == InFile(nodes[..i], f)
    {
      forall f
        ensures InFile(nodes[..i + 1], f) == if nodes[i].filePath == f then InFile(nodes[..i], f) + [nodes[i]] else InFile(nodes[..i], f)
      {
        InFileStep(nodes, i, f);
      }
      ghost var before := byFile;
      var filePath := nodes[i].filePath;
      byFile := byFile[filePath := Bucket(byFile, filePath) + [nodes[i]]];
      assert forall f :: Bucket(byFile, f) == if f == filePath then Bucket(before, f) + [nodes[i]] else Bucket(before, f);
    }
    assert nodes[..|nodes|] == nodes;
  }

  /** What a frame resolves to; `fileOf` is the url-to-file resolution. */
  ghost function Resolve(nodes: seq<TargetNode>, fileOf: string -> Option<string>, functionName: string, url: string, line: int): Resolution {
    match fileOf(url)
    case None => Dropped(NoFile)
    case Some(filePath) => ResolveIn(InFile(nodes, filePath), functionName, line)
  }

  /** `name` is the last dotted segment of `functionName`. */
  ghost predicate LastSegment(functionName: string, name: string) {
    name != "" && '.' !in name && exists p: string :: functionName == p + "." + name
  }

  /**
   The frame names the node: not a synthetic frame, a kind of node that executes, and the node's name
   is the function name or its last dotted segment.
   */
  ghost predicate Names(functionName: string, n: TargetNode) {
    && functionName != "" && functionName[0] != '('
    && n.kind in {"Function", "Method", "Property", "Variable", "Class"}
    && (n.name == functionName || LastSegment(functionName, n.name))
  }

  /** The line is in the node's range. */
  ghost predicate InRange(n: TargetNode, line: int) {
    1 <= n.startLine <= line <= n.endLine
  }

  lemma SegmentAfterDot(functionName: string, dot: nat)
    requires dot < |functionName| - 1 && functionName[dot] == '.' && '.' !in functionName[dot + 1..]
    ensures LastSegment(functionName, functionName[dot + 1..])
  {
    assert functionName == functionName[..dot] + "." + functionName[dot + 1..];
  }

  lemma SegmentIsAfterDot(functionName: string, name: string)
    requires LastSegment(functionName, name)
    ensures var dot := LastDot(functionName); 0 <= dot < |functionName| - 1 && functionName[dot + 1..] == name
  {
    var p :| functionName == p + "." + name;
    var dot := LastDot(functionName);
    assert functionName[|p|] == '.' && functionName[|p| + 1..] == name;
    assert forall i :: |p| < i < |functionName| ==> functionName[i] == name[i - |p| - 1];
    assert dot == |p|;
  }

  /** What the candidate names let match. */
  lemma CandidatesAre(functionName: string, name: string)
    ensures name in CandidateNames(functionName) <==> name == functionName || LastSegment(functionName, name)
  {
    var dot := LastDot(functionName);
    if 0 <= dot < |functionName| - 1 {
      SegmentAfterDot(functionName, dot);
      assert CandidateNames(functionName)[0] == functionName && CandidateNames(functionName)[1] == functionName[dot + 1..];
    }
    if LastSegment(functionName, name) {
      SegmentIsAfterDot(functionName, name);
    }
    hide LastSegment, LastDot;
  }

  /** Whether a node of the frame's file is taken as named. */
  lemma NamesIff(functionName: string, n: TargetNode)
    ensures Names(functionName, n) <==>
            MeaningfulName(functionName) && NameMatchKind(n.kind) && n.name in CandidateNames(functionName)
  {
    CandidatesAre(functionName, n.name);
    hide LastSegment, CandidateNames;
  }

  lemma NameMatchesAre(fileNodes: seq<TargetNode>, functionName: string)
    ensures forall n :: n in NameMatches(fileNodes, functionName) <==> n in fileNodes && Names(functionName, n)
  {
    FilterMembers(fileNodes, IsNamed(CandidateNames(functionName)));
    hide Filter, CandidateNames;
    forall n
      ensures Names(functionName, n) <==> MeaningfulName(functionName) && NameMatchKind(n.kind) && n.name in CandidateNames(functionName)
    {
      NamesIff(functionName, n);
    }
    hide Names, NameMatchKind;
  }

  lemma InFileAre(nodes: seq<TargetNode>, filePath: string)
    ensures forall n :: n in InFile(nodes, filePath) <==> n in nodes && n.filePath == filePath
  {
    FilterMembers(nodes, IsInFile(filePath));
    hide Filter;
  }

  /** Every match is a node of the frame's file, named or enclosing as claimed. */
  lemma MatchIsSound(nodes: seq<TargetNode>, fileOf: string -> Option<string>, functionName: string, url: string, line: int)
    ensures var r := Resolve(nodes, fileOf, functionName, url, line);
            r.Matched? ==>
              && r.node in nodes && fileOf(url) == Some(r.node.filePath)
              && (if r.via == ByName then Names(functionName, r.node)
                  else InRange(r.node, line) && forall n :: n in nodes && n.filePath == r.node.filePath ==> !Names(functionName, n))
  {
    var r := Resolve(nodes, fileOf, functionName, url, line);
    if r.Matched? {
      var f := fileOf(url).value;
      var inFile := InFile(nodes, f);
      InFileAre(nodes, f);
      NameMatchesAre(inFile, functionName);
      hide InFile, NameMatches, Names;
    }
  }

  /** `n` lies no deeper than `best`: not narrower, and of the same width not starting later. */
  ghost predicate NoDeeper(n: TargetNode, best: TargetNode) {
    n.endLine - n.startLine > best.endLine - best.startLine
    || (n.endLine - n.startLine == best.endLine - best.startLine && n.startLine <= best.startLine)
  }

  lemma InnermostIsDeepest(nodes: seq<TargetNode>, line: int, n: TargetNode)
    requires n in nodes && InRange(n, line)
    ensures var best := Innermost(nodes, line); best.Some? && best.value in nodes && InRange(best.value, line) && NoDeeper(n, best.value)
  {
    var best := Innermost(nodes, line);
    assert Encloses(n, line);
    var k :| 0 <= k < |nodes| && nodes[k] == n;
    var i :| 0 <= i < |nodes| && nodes[i] == best.value && IsInnermostAt(nodes, line, i);
    assert !Inner(nodes[k], nodes[i]);
  }

  /**
   A match is the innermost candidate at the frame's line: among the named nodes of the file for a
   match by name, among all of its nodes for a match by range.
   */
  lemma MatchIsInnermost(nodes: seq<TargetNode>, fileOf: string -> Option<string>, functionName: string, url: string, line: int, n: TargetNode)
    requires Resolve(nodes, fileOf, functionName, url, line).Matched?
    requires var r := Resolve(nodes, fileOf, functionName, url, line);
             n in nodes && n.filePath == r.node.filePath && (r.via == ByName ==> Names(functionName, n)) && InRange(n, line)
    ensures var r := Resolve(nodes, fileOf, functionName, url, line); InRange(r.node, line) && NoDeeper(n, r.node)
  {
    MatchIsSound(nodes, fileOf, functionName, url, line);
    var inFile := InFile(nodes, n.filePath);
    var named := NameMatches(inFile, functionName);
    InFileAre(nodes, n.filePath);
    NameMatchesAre(inFile, functionName);
    hide InFile, NameMatches, Names, Innermost;
    InnermostIsDeepest(inFile, line, n);
    if n in named {
      InnermostIsDeepest(named, line, n);
    }
  }

  /** The node at `i` is one of the file's that the frame names. */
  ghost predicate NamedAt(nodes: seq<TargetNode>, filePath: string, functionName: string, i: int) {
    0 <= i < |nodes| && nodes[i].filePath == filePath && Names(functionName, nodes[i])
  }

  /** The only named node of the frame's file wins outright, whatever the line. */
  lemma UniqueNameWins(nodes: seq<TargetNode>, fileOf: string -> Option<string>, functionName: string, url: string, line: int, at: nat)
    requires at < |nodes| && fileOf(url) == Some(nodes[at].filePath)
    requires forall i :: NamedAt(nodes, nodes[at].filePath, functionName, i) <==> i == at
    ensures Resolve(nodes, fileOf, functionName, url, line) == Matched(nodes[at], ByName)
  {
    var inFile, isNamed := IsInFile(nodes[at].filePath), IsNamed(CandidateNames(functionName));
    forall i | 0 <= i < |nodes|
      ensures NamedAt(nodes, nodes[at].filePath, functionName, i) <==> MeaningfulName(functionName) && inFile(nodes[i]) && isNamed(nodes[i])
    {
      NamesIff(functionName, nodes[i]);
    }
    assert NamedAt(nodes, nodes[at].filePath, functionName, at);
    hide CandidateNames, Filter, Names, NamedAt;
    FilterTwice(nodes, inFile, isNamed, at);
  }

  /** Two listed nodes of the file that the frame names. */
  ghost predicate NamedTwice(nodes: seq<TargetNode>, filePath: string, functionName: string) {
    exists i, j :: 0 <= i < j < |nodes| && NamedAt(nodes, filePath, functionName, i) && NamedAt(nodes, filePath, functionName, j)
  }

  function IsNamedIn(filePath: string, functionName: string): TargetNode -> bool {
    (n: TargetNode) => n.filePath == filePath && IsNamed(CandidateNames(functionName))(n)
  }

  lemma NamedAtIff(nodes: seq<TargetNode>, filePath: string, functionName: string, i: nat)
    requires i < |nodes|
    ensures NamedAt(nodes, filePath, functionName, i) <==> MeaningfulName(functionName) && IsNamedIn(filePath, functionName)(nodes[i])
  {
    NamesIff(functionName, nodes[i]);
    assert IsNamed(CandidateNames(functionName))(nodes[i]) <==> NameMatchKind(nodes[i].kind) && nodes[i].name in CandidateNames(functionName);
  }

  lemma NamedTwiceIff(nodes: seq<TargetNode>, filePath: string, functionName: string)
    ensures |NameMatches(InFile(nodes, filePath), functionName)| > 1 <==> NamedTwice(nodes, filePath, functionName)
  {
    var isNamed, both := IsNamed(CandidateNames(functionName)), IsNamedIn(filePath, functionName);
    FilterFilter(nodes, IsInFile(filePath), isNamed, both);
    forall i | 0 <= i < |nodes|
      ensures NamedAt(nodes, filePath, functionName, i) <==> MeaningfulName(functionName) && both(nodes[i])
    {
      NamedAtIff(nodes, filePath, functionName, i);
    }
    hide Filter, CandidateNames, NamedAt, Names, IsNamed, IsNamedIn;
    SeveralKept(nodes, both);
    if MeaningfulName(functionName) {
      assert |Filter(nodes, both)| == |NameMatches(InFile(nodes, filePath), functionName)|;
    }
    hide InFile, NameMatches;
    if i, j :| 0 <= i < j < |nodes| && NamedAt(nodes, filePath, functionName, i) && NamedAt(nodes, filePath, functionName, j) {
      assert both(nodes[i]) && both(nodes[j]);
    }
    if MeaningfulName(functionName) && KeepsTwo(nodes, both) {
      var i, j :| 0 <= i < j < |nodes| && both(nodes[i]) && both(nodes[j]);
      assert NamedAt(nodes, filePath, functionName, i) && NamedAt(nodes, filePath, functionName, j);
    }
  }

  /** Why a frame is dropped: no file; no node of it named or enclosing; or several named, none enclosing. */
  ghost predicate Justified(nodes: seq<TargetNode>, filePath: Option<string>, functionName: string, line: int, reason: DropReason) {
    match reason
    case NoFile => filePath.None?
    case NoNode =>
      filePath.Some? && forall n :: n in nodes && n.filePath == filePath.value ==> !Names(functionName, n) && !InRange(n, line)
    case Ambiguous =>
      && filePath.Some? && NamedTwice(nodes, filePath.value, functionName)
      && forall n :: n in nodes && n.filePath == filePath.value && Names(functionName, n) ==> !InRange(n, line)
  }

  /** A frame is dropped for a reason exactly when that reason holds. */
  lemma DropIsJustifiedIff(nodes: seq<TargetNode>, fileOf: string -> Option<string>, functionName: string, url: string, line: int, reason: DropReason)
    ensures Resolve(nodes, fileOf, functionName, url, line) == Dropped(reason)
       <==> Justified(nodes, fileOf(url), functionName, line, reason)
  {
    if fileOf(url).Some? {
      var inFile := InFile(nodes, fileOf(url).value);
      var named := NameMatches(inFile, functionName);
      InFileAre(nodes, fileOf(url).value);
      NameMatchesAre(inFile, functionName);
      NamedTwiceIff(nodes, fileOf(url).value, functionName);
      hide InFile, NameMatches, Names, InRange, NamedTwice;
      InnermostNoneIff(named, line);
      InnermostNoneIff(inFile, line);
      assert |named| > 0 ==> named[0] in named;
    }
  }

  lemma InnermostNoneIff(nodes: seq<TargetNode>, line: int)
    ensures Innermost(nodes, line).None? <==> forall n :: n in nodes ==> !InRange(n, line)
  {
    var best := Innermost(nodes, line);
    if best.Some? {
      var i :| 0 <= i < |nodes| && nodes[i] == best.value && IsInnermostAt(nodes, line, i);
      assert InRange(nodes[i], line);
    } else {
      forall n | n in nodes ensures !InRange(n, line) {
        assert line >= 1 ==> !Encloses(n, line);
      }
    }
  }

  // ---------- joining frames ----------

  datatype Attribution = Attribution(samples: real, selfMicros: real)

  datatype DroppedGroup = DroppedGroup(caption: string, reason: DropReason, samples: real, selfMicros: real)

  datatype JoinResult = JoinResult(
    attributions: map<string, Attribution>,
    matchedFrames: nat, matchedSamples: real, matchedSelfMicros: real, matchedByName: nat, matchedByRange: nat,
    droppedFrames: nat, droppedSamples: real, droppedSelfMicros: real, dropped: seq<DroppedGroup>)

  /** The label a frame is reported under; `decimal` renders its line number. */
  function DropLabel(frame: FrameSample, reason: DropReason, decimal: int -> string): string {
    var name := if |frame.functionName| > 0 then frame.functionName else "(anonymous)";
    if reason == NoFile then
      if |frame.url| == 0 then name else name + " " + frame.url
    else name + " " + frame.url + ":" + decimal(frame.line)
  }

  /** The name a drop is reported under. */
  ghost function ShownName(frame: FrameSample): string {
    if frame.functionName == "" then "(anonymous)" else frame.functionName
  }

  lemma ColonInside(a: string, s: string, b: string, t: string)
    requires a + ":" + s == b + ":" + t && |a| < |b|
    ensures ':' in s
  {
    var all := a + ":" + s;
    assert all[|b|] == ':' && all[|b|] == s[|b| - |a| - 1];
  }

  /** A text splits in one way at a colon that no colon follows. */
  lemma LastColon(a: string, s: string, b: string, t: string)
    requires a + ":" + s == b + ":" + t && ':' !in s && ':' !in t
    ensures a == b && s == t
  {
    if |a| < |b| {
      ColonInside(a, s, b, t);
    } else if |b| < |a| {
      ColonInside(b, t, a, s);
    } else {
      var all := a + ":" + s;
      assert a == all[..|a|] && b == all[..|b|];
      assert s == all[|a| + 1..] && t == all[|b| + 1..];
    }
  }

  lemma SamePrefix(a: string, b: string, s: string)
    requires a + s == b + s
    ensures a == b
  {
    assert |a| == |b| && a == (a + s)[..|a|] && b == (b + s)[..|b|];
  }

  /** Two frames of one script reported under one label for one reason have the same shown name, and the same line where the file was found. */
  lemma LabelTells(f: FrameSample, g: FrameSample, reason: DropReason, decimal: int -> string)
    requires f.url == g.url && DropLabel(f, reason, decimal) == DropLabel(g, reason, decimal)
    requires forall n :: ':' !in decimal(n)
    requires forall a, b :: decimal(a) == decimal(b) ==> a == b
    ensures ShownName(f) == ShownName(g)
    ensures reason != NoFile ==> f.line == g.line
  {
    if reason == NoFile {
      if f.url != "" {
        assert ShownName(f) + (" " + f.url) == DropLabel(f, reason, decimal);
        assert ShownName(g) + (" " + f.url) == DropLabel(g, reason, decimal);
        SamePrefix(ShownName(f), ShownName(g), " " + f.url);
      }
    } else {
      LastColon(ShownName(f) + " " + f.url, decimal(f.line), ShownName(g) + " " + f.url, decimal(g.line));
      assert ShownName(f) + " " + f.url == ShownName(f) + (" " + f.url);
      assert ShownName(g) + " " + f.url == ShownName(g) + (" " + f.url);
      SamePrefix(ShownName(f), ShownName(g), " " + f.url);
    }
  }

  /** Adds a frame to the group of its reason and label, opening the group if it is new. */
  function RecordDrop(groups: seq<DroppedGroup>, frame: FrameSample, reason: DropReason, caption: string): seq<DroppedGroup> {
    if groups == [] then [DroppedGroup(caption, reason, frame.samples, frame.selfMicros)] else
      var rest, g := groups[..|groups| - 1], groups[|groups| - 1];
      if g.reason == reason && g.caption == caption then
        rest + [g.(samples := g.samples + frame.samples, selfMicros := g.selfMicros + frame.selfMicros)]
      else RecordDrop(rest, frame, reason, caption) + [g]
  }

  function AttributionOf(attributions: map<string, Attribution>, id: string): Attribution {
    if id in attributions then attributions[id] else Attribution(0.0, 0.0)
  }

  function BySelfMicros(): (DroppedGroup, DroppedGroup) -> bool {
    (a: DroppedGroup, b: DroppedGroup) => a.selfMicros >= b.selfMicros
  }

  /** Charges a matched frame to its node. */
  function CountMatched(j: JoinResult, f: FrameSample, node: TargetNode, via: MatchVia): JoinResult {
    var a := AttributionOf(j.attributions, node.id);
    j.(attributions := j.attributions[node.id := Attribution(a.samples + f.samples, a.selfMicros + f.selfMicros)],
       matchedFrames := j.matchedFrames + 1,
       matchedSamples := j.matchedSamples + f.samples,
       matchedSelfMicros := j.matchedSelfMicros + f.selfMicros,
       matchedByName := j.matchedByName + if via == ByName then 1 else 0,
       matchedByRange := j.matchedByRange + if via == ByName then 0 else 1)
  }

  /** Reports a frame as dropped. */
  function CountDropped(j: JoinResult, f: FrameSample, reason: DropReason, caption: string): JoinResult {
    j.(dropped := RecordDrop(j.dropped, f, reason, caption),
       droppedFrames := j.droppedFrames + 1,
       droppedSamples := j.droppedSamples + f.samples,
       droppedSelfMicros := j.droppedSelfMicros + f.selfMicros)
  }

  ghost function ResolveFrame(nodes: seq<TargetNode>, fileOf: string -> Option<string>, frame: FrameSample): Resolution {
    Resolve(nodes, fileOf, frame.functionName, frame.url, frame.line)
  }

  /** `weigh` of the frames that land on node `id`. */
  ghost function Onto(nodes: seq<TargetNode>, fileOf: string -> Option<string>, id: string, weigh: FrameSample -> real): FrameSample -> real {
    (f: FrameSample) =>
      var r := ResolveFrame(nodes, fileOf, f);
      if r.Matched? && r.node.id == id then weigh(f) else 0.0
  }

  /** `weigh` of the frames that land on some node. */
  ghost function OntoAny(nodes: seq<TargetNode>, fileOf: string -> Option<string>, weigh: FrameSample -> real): FrameSample -> real {
    (f: FrameSample) => if ResolveFrame(nodes, fileOf, f).Matched? then weigh(f) else 0.0
  }

  /** `weigh` of the frames dropped for this reason under this label. */
  ghost function Into(nodes: seq<TargetNode>, fileOf: string -> Option<string>, decimal: int -> string,
                      reason: DropReason, caption: string, weigh: FrameSample -> real): FrameSample -> real
  {
    (f: FrameSample) => if ResolveFrame(nodes, fileOf, f) == Dropped(reason) && DropLabel(f, reason, decimal) == caption then weigh(f) else 0.0
  }

  ghost function IntoAny(nodes: seq<TargetNode>, fileOf: string -> Option<string>, weigh: FrameSample -> real): FrameSample -> real {
    (f: FrameSample) => if ResolveFrame(nodes, fileOf, f).Dropped? then weigh(f) else 0.0
  }

  ghost function One(): FrameSample -> real {
    (f: FrameSample) => 1.0
  }

  ghost function OneVia(nodes: seq<TargetNode>, fileOf: string -> Option<string>, via: MatchVia): FrameSample -> real {
    (f: FrameSample) => var r := ResolveFrame(nodes, fileOf, f); if r.Matched? && r.via == via then 1.0 else 0.0
  }

  /** The group of a reason and label, or nothing recorded. */
  ghost function GroupTotals(groups: seq<DroppedGroup>, reason: DropReason, caption: string): Attribution {
    if groups == [] then Attribution(0.0, 0.0) else
      var g := groups[|groups| - 1];
      if g.reason == reason && g.caption == caption then Attribution(g.samples, g.selfMicros)
      else GroupTotals(groups[..|groups| - 1], reason, caption)
  }

  /** No reason and label is listed twice. */
  ghost predicate GroupsDistinct(groups: seq<DroppedGroup>) {
    forall i, j :: 0 <= i < j < |groups| ==> groups[i].reason != groups[j].reason || groups[i].caption != groups[j].caption
  }

  ghost function GroupSamples(): DroppedGroup -> real {
    (g: DroppedGroup) => g.samples
  }

  ghost function GroupMicros(): DroppedGroup -> real {
    (g: DroppedGroup) => g.selfMicros
  }

  lemma {:induction false} RecordDropDistinct(groups: seq<DroppedGroup>, frame: FrameSample, reason: DropReason, caption: string)
    requires GroupsDistinct(groups)
    ensures GroupsDistinct(RecordDrop(groups, frame, reason, caption))
    ensures forall g :: g in RecordDrop(groups, frame, reason, caption) ==>
              (g.reason == reason && g.caption == caption) || g in groups
  {
    if groups != [] {
      var rest, g := groups[..|groups| - 1], groups[|groups| - 1];
      assert groups == rest + [g];
      if !(g.reason == reason && g.caption == caption) {
        RecordDropDistinct(rest, frame, reason, caption);
        var before := RecordDrop(rest, frame, reason, caption);
        forall i | 0 <= i < |before| ensures before[i].reason != g.reason || before[i].caption != g.caption {
          assert before[i] in before;
        }
      }
    }
  }

  lemma {:induction false} RecordDropSums(groups: seq<DroppedGroup>, frame: FrameSample, reason: DropReason, caption: string)
    ensures var after := RecordDrop(groups, frame, reason, caption);
            && Sum(after, GroupSamples()) == Sum(groups, GroupSamples()) + frame.samples
            && Sum(after, GroupMicros()) == Sum(groups, GroupMicros()) + frame.selfMicros
  {
    var after := RecordDrop(groups, frame, reason, caption);
    if groups == [] {
      assert after[..0] == [];
    } else {
      var rest := groups[..|groups| - 1];
      RecordDropSums(rest, frame, reason, caption);
      assert after[..|after| - 1] == rest || after[..|after| - 1] == RecordDrop(rest, frame, reason, caption);
    }
  }

  /** `b` is `a` with one frame more. */
  ghost predicate OneMore(a: Attribution, b: Attribution, frame: FrameSample) {
    b == Attribution(a.samples + frame.samples, a.selfMicros + frame.selfMicros)
  }

  lemma {:induction false} RecordDropTotals(groups: seq<DroppedGroup>, frame: FrameSample, reason: DropReason, caption: string,
                                            r: DropReason, l: string)
    ensures var before, after := GroupTotals(groups, r, l), GroupTotals(RecordDrop(groups, frame, reason, caption), r, l);
            if r == reason && l == caption then OneMore(before, after, frame) else after == before
  {
    var after := RecordDrop(groups, frame, reason, caption);
    if groups != [] {
      var rest, g := groups[..|groups| - 1], groups[|groups| - 1];
      if g.reason == reason && g.caption == caption {
        assert after[..|after| - 1] == rest;
      } else {
        RecordDropTotals(rest, frame, reason, caption, r, l);
        assert after[..|after| - 1] == RecordDrop(rest, frame, reason, caption);
      }
    }
  }

  // ---------- the join loop ----------

  /** The running result after the frames in `seen`. */
  ghost predicate Joined(nodes: seq<TargetNode>, fileOf: string -> Option<string>, decimal: int -> string,
                         seen: seq<FrameSample>, j: JoinResult)
  {
    && TotalsRight(nodes, fileOf, seen, j)
    && AttributionsRight(nodes, fileOf, seen, j.attributions)
    && DropsRight(nodes, fileOf, decimal, seen, j.dropped)
    && Sum(j.dropped, GroupSamples()) == j.droppedSamples
    && Sum(j.dropped, GroupMicros()) == j.droppedSelfMicros
  }

  /** The counters are the sums over matched and dropped frames. */
  ghost predicate TotalsRight(nodes: seq<TargetNode>, fileOf: string -> Option<string>, seen: seq<FrameSample>, j: JoinResult) {
    && j.matchedFrames as real == Sum(seen, OntoAny(nodes, fileOf, One()))
    && j.matchedSamples == Sum(seen, OntoAny(nodes, fileOf, FrameSamples()))
    && j.matchedSelfMicros == Sum(seen, OntoAny(nodes, fileOf, FrameMicros()))
    && j.matchedByName as real == Sum(seen, OneVia(nodes, fileOf, ByName))
    && j.matchedByRange as real == Sum(seen, OneVia(nodes, fileOf, ByRange))
    && j.droppedFrames as real == Sum(seen, IntoAny(nodes, fileOf, One()))
    && j.droppedSamples == Sum(seen, IntoAny(nodes, fileOf, FrameSamples()))
    && j.droppedSelfMicros == Sum(seen, IntoAny(nodes, fileOf, FrameMicros()))
  }

  /** Each node is charged exactly the frames that resolve to it. */
  ghost predicate AttributionsRight(nodes: seq<TargetNode>, fileOf: string -> Option<string>, seen: seq<FrameSample>,
                                    attributions: map<string, Attribution>)
  {
    forall id ::
      && AttributionOf(attributions, id).samples == Sum(seen, Onto(nodes, fileOf, id, FrameSamples()))
      && AttributionOf(attributions, id).selfMicros == Sum(seen, Onto(nodes, fileOf, id, FrameMicros()))
  }

  /** Each reason and caption is reported once, with exactly the frames dropped under it. */
  ghost predicate DropsRight(nodes: seq<TargetNode>, fileOf: string -> Option<string>, decimal: int -> string,
                             seen: seq<FrameSample>, groups: seq<DroppedGroup>)
  {
    && GroupsDistinct(groups)
    && forall r, l ::
         && GroupTotals(groups, r, l).samples == Sum(seen, Into(nodes, fileOf, decimal, r, l, FrameSamples()))
         && GroupTotals(groups, r, l).selfMicros == Sum(seen, Into(nodes, fileOf, decimal, r, l, FrameMicros()))
  }

  /** How one more frame moves the counters. */
  lemma TotalsStep(nodes: seq<TargetNode>, fileOf: string -> Option<string>, seen: seq<FrameSample>, f: FrameSample)
    ensures forall weigh :: Sum(seen + [f], OntoAny(nodes, fileOf, weigh)) == Sum(seen, OntoAny(nodes, fileOf, weigh)) + OntoAny(nodes, fileOf, weigh)(f)
    ensures forall weigh :: Sum(seen + [f], IntoAny(nodes, fileOf, weigh)) == Sum(seen, IntoAny(nodes, fileOf, weigh)) + IntoAny(nodes, fileOf, weigh)(f)
    ensures forall via :: Sum(seen + [f], OneVia(nodes, fileOf, via)) == Sum(seen, OneVia(nodes, fileOf, via)) + OneVia(nodes, fileOf, via)(f)
  {
    forall weigh ensures Sum(seen + [f], OntoAny(nodes, fileOf, weigh)) == Sum(seen, OntoAny(nodes, fileOf, weigh)) + OntoAny(nodes, fileOf, weigh)(f) {
      SumAppend(seen, f, OntoAny(nodes, fileOf, weigh));
    }
    forall weigh ensures Sum(seen + [f], IntoAny(nodes, fileOf, weigh)) == Sum(seen, IntoAny(nodes, fileOf, weigh)) + IntoAny(nodes, fileOf, weigh)(f) {
      SumAppend(seen, f, IntoAny(nodes, fileOf, weigh));
    }
    forall via ensures Sum(seen + [f], OneVia(nodes, fileOf, via)) == Sum(seen, OneVia(nodes, fileOf, via)) + OneVia(nodes, fileOf, via)(f) {
      SumAppend(seen, f, OneVia(nodes, fileOf, via));
    }
  }

  lemma MatchedTotals(nodes: seq<TargetNode>, fileOf: string -> Option<string>, seen: seq<FrameSample>, f: FrameSample, j: JoinResult)
    requires TotalsRight(nodes, fileOf, seen, j) && ResolveFrame(nodes, fileOf, f).Matched?
    ensures var r := ResolveFrame(nodes, fileOf, f); TotalsRight(nodes, fileOf, seen + [f], CountMatched(j, f, r.node, r.via))
  {
    hide Resolve;
    TotalsStep(nodes, fileOf, seen, f);
  }

  lemma DroppedTotals(nodes: seq<TargetNode>, fileOf: string -> Option<string>, seen: seq<FrameSample>, f: FrameSample, j: JoinResult, caption: string)
    requires TotalsRight(nodes, fileOf, seen, j) && ResolveFrame(nodes, fileOf, f).Dropped?
    ensures TotalsRight(nodes, fileOf, seen + [f], CountDropped(j, f, ResolveFrame(nodes, fileOf, f).reason, caption))
  {
    hide Resolve, RecordDrop;
    TotalsStep(nodes, fileOf, seen, f);
  }

  /** A matched frame is charged to its node and to no other. */
  lemma MatchedCharges(nodes: seq<TargetNode>, fileOf: string -> Option<string>, seen: seq<FrameSample>, f: FrameSample, j: JoinResult)
    requires AttributionsRight(nodes, fileOf, seen, j.attributions) && ResolveFrame(nodes, fileOf, f).Matched?
    ensures var r := ResolveFrame(nodes, fileOf, f);
            AttributionsRight(nodes, fileOf, seen + [f], CountMatched(j, f, r.node, r.via).attributions)
  {
    hide ResolveFrame, Sum;
    var r := ResolveFrame(nodes, fileOf, f);
    var after := CountMatched(j, f, r.node, r.via).attributions;
    forall id
      ensures AttributionOf(after, id).samples == Sum(seen + [f], Onto(nodes, fileOf, id, FrameSamples()))
      ensures AttributionOf(after, id).selfMicros == Sum(seen + [f], Onto(nodes, fileOf, id, FrameMicros()))
    {
      SumAppend(seen, f, Onto(nodes, fileOf, id, FrameSamples()));
      SumAppend(seen, f, Onto(nodes, fileOf, id, FrameMicros()));
    }
  }

  /** A matched frame leaves every group as it was. */
  lemma MatchedDrops(nodes: seq<TargetNode>, fileOf: string -> Option<string>, decimal: int -> string, seen: seq<FrameSample>,
                     f: FrameSample, groups: seq<DroppedGroup>)
    requires DropsRight(nodes, fileOf, decimal, seen, groups) && ResolveFrame(nodes, fileOf, f).Matched?
    ensures DropsRight(nodes, fileOf, decimal, seen + [f], groups)
  {
    hide ResolveFrame, GroupTotals, GroupsDistinct, DropLabel, Sum;
    forall r, l
      ensures GroupTotals(groups, r, l).samples == Sum(seen + [f], Into(nodes, fileOf, decimal, r, l, FrameSamples()))
      ensures GroupTotals(groups, r, l).selfMicros == Sum(seen + [f], Into(nodes, fileOf, decimal, r, l, FrameMicros()))
    {
      SumAppend(seen, f, Into(nodes, fileOf, decimal, r, l, FrameSamples()));
      SumAppend(seen, f, Into(nodes, fileOf, decimal, r, l, FrameMicros()));
    }
  }

  lemma JoinMatched(nodes: seq<TargetNode>, fileOf: string -> Option<string>, decimal: int -> string,
                    seen: seq<FrameSample>, f: FrameSample, j: JoinResult)
    requires Joined(nodes, fileOf, decimal, seen, j) && ResolveFrame(nodes, fileOf, f).Matched?
    ensures var r := ResolveFrame(nodes, fileOf, f);
            Joined(nodes, fileOf, decimal, seen + [f], CountMatched(j, f, r.node, r.via))
  {
    hide ResolveFrame, TotalsRight, AttributionsRight, DropsRight, Sum;
    MatchedTotals(nodes, fileOf, seen, f, j);
    MatchedCharges(nodes, fileOf, seen, f, j);
    MatchedDrops(nodes, fileOf, decimal, seen, f, j.dropped);
  }

  /** What one more dropped frame adds to a group's report. */
  lemma DropStep(nodes: seq<TargetNode>, fileOf: string -> Option<string>, decimal: int -> string, seen: seq<FrameSample>,
                 f: FrameSample, groups: seq<DroppedGroup>, r: DropReason, l: string)
    requires DropsRight(nodes, fileOf, decimal, seen, groups) && ResolveFrame(nodes, fileOf, f).Dropped?
    ensures var reason := ResolveFrame(nodes, fileOf, f).reason;
            var after := GroupTotals(RecordDrop(groups, f, reason, DropLabel(f, reason, decimal)), r, l);
            && after.samples == Sum(seen + [f], Into(nodes, fileOf, decimal, r, l, FrameSamples()))
            && after.selfMicros == Sum(seen + [f], Into(nodes, fileOf, decimal, r, l, FrameMicros()))
  {
    hide ResolveFrame, GroupTotals, GroupsDistinct, RecordDrop, DropLabel, Sum;
    var reason := ResolveFrame(nodes, fileOf, f).reason;
    RecordDropTotals(groups, f, reason, DropLabel(f, reason, decimal), r, l);
    SumAppend(seen, f, Into(nodes, fileOf, decimal, r, l, FrameSamples()));
    SumAppend(seen, f, Into(nodes, fileOf, decimal, r, l, FrameMicros()));
  }

  /** A dropped frame charges no node. */
  lemma DroppedCharges(nodes: seq<TargetNode>, fileOf: string -> Option<string>, seen: seq<FrameSample>, f: FrameSample,
                       attributions: map<string, Attribution>)
    requires AttributionsRight(nodes, fileOf, seen, attributions) && ResolveFrame(nodes, fileOf, f).Dropped?
    ensures AttributionsRight(nodes, fileOf, seen + [f], attributions)
  {
    hide ResolveFrame, AttributionOf, Sum;
    forall id
      ensures AttributionOf(attributions, id).samples == Sum(seen + [f], Onto(nodes, fileOf, id, FrameSamples()))
      ensures AttributionOf(attributions, id).selfMicros == Sum(seen + [f], Onto(nodes, fileOf, id, FrameMicros()))
    {
      SumAppend(seen, f, Onto(nodes, fileOf, id, FrameSamples()));
      SumAppend(seen, f, Onto(nodes, fileOf, id, FrameMicros()));
    }
  }

  lemma JoinDropped(nodes: seq<TargetNode>, fileOf: string -> Option<string>, decimal: int -> string,
                    seen: seq<FrameSample>, f: FrameSample, j: JoinResult)
    requires Joined(nodes, fileOf, decimal, seen, j) && ResolveFrame(nodes, fileOf, f).Dropped?
    ensures var reason := ResolveFrame(nodes, fileOf, f).reason;
            Joined(nodes, fileOf, decimal, seen + [f], CountDropped(j, f, reason, DropLabel(f, reason, decimal)))
  {
    hide ResolveFrame, GroupTotals, GroupsDistinct, TotalsRight, AttributionsRight, RecordDrop, DropLabel, Sum, Into;
    var reason := ResolveFrame(nodes, fileOf, f).reason;
    var caption := DropLabel(f, reason, decimal);
    DroppedTotals(nodes, fileOf, seen, f, j, caption);
    DroppedCharges(nodes, fileOf, seen, f, j.attributions);
    RecordDropDistinct(j.dropped, f, reason, caption);
    RecordDropSums(j.dropped, f, reason, caption);
    forall r, l
      ensures var after := GroupTotals(RecordDrop(j.dropped, f, reason, caption), r, l);
              && after.samples == Sum(seen + [f], Into(nodes, fileOf, decimal, r, l, FrameSamples()))
              && after.selfMicros == Sum(seen + [f], Into(nodes, fileOf, decimal, r, l, FrameMicros()))
    {
      DropStep(nodes, fileOf, decimal, seen, f, j.dropped, r, l);
    }
  }

  lemma JoinNone(nodes: seq<TargetNode>, fileOf: string -> Option<string>, decimal: int -> string)
    ensures Joined(nodes, fileOf, decimal, [], JoinResult(map[], 0, 0.0, 0.0, 0, 0, 0, 0.0, 0.0, []))
  {
    hide Resolve;
  }

  // ---------- listing the groups ----------

  /** Each group occurs once, and no other group has its reason and caption. */
  lemma {:induction false} DistinctCounts(groups: seq<DroppedGroup>)
    requires GroupsDistinct(groups)
    ensures forall g :: multiset(groups)[g] <= 1
    ensures forall g, h :: g in groups && h in groups && g.reason == h.reason && g.caption == h.caption ==> g == h
  {
    if groups != [] {
      var rest, last := groups[..|groups| - 1], groups[|groups| - 1];
      assert groups == rest + [last];
      DistinctCounts(rest);
      forall g | g in rest ensures g.reason != last.reason || g.caption != last.caption {
        var i :| 0 <= i < |rest| && rest[i] == g;
        assert groups[i] == g;
      }
      assert last !in rest;
    }
  }

  lemma CountsDistinct(groups: seq<DroppedGroup>)
    requires forall g :: multiset(groups)[g] <= 1
    requires forall g, h :: g in groups && h in groups && g.reason == h.reason && g.caption == h.caption ==> g == h
    ensures GroupsDistinct(groups)
  {
    forall i, j | 0 <= i < j < |groups| ensures groups[i] != groups[j] {
      var g, left, right := groups[i], groups[..j], groups[j..];
      assert groups == left + right;
      assert left[i] == g && right[0] == groups[j];
      assert multiset(groups)[g] == multiset(left)[g] + multiset(right)[g] && multiset(left)[g] >= 1;
    }
  }

  lemma {:induction false} TotalsOfGroup(groups: seq<DroppedGroup>, r: DropReason, l: string)
    requires GroupsDistinct(groups)
    ensures forall g :: g in groups && g.reason == r && g.caption == l ==> GroupTotals(groups, r, l) == Attribution(g.samples, g.selfMicros)
    ensures (forall g :: g in groups ==> g.reason != r || g.caption != l) ==> GroupTotals(groups, r, l) == Attribution(0.0, 0.0)
  {
    if groups != [] {
      var rest, last := groups[..|groups| - 1], groups[|groups| - 1];
      assert groups == rest + [last];
      DistinctCounts(groups);
      TotalsOfGroup(rest, r, l);
      assert last in groups;
    }
  }

  /** Listing the groups in another order changes no group's totals. */
  lemma ReorderedGroups(groups: seq<DroppedGroup>, listed: seq<DroppedGroup>)
    requires GroupsDistinct(groups) && multiset(listed) == multiset(groups)
    ensures GroupsDistinct(listed)
    ensures forall r, l :: GroupTotals(listed, r, l) == GroupTotals(groups, r, l)
  {
    DistinctCounts(groups);
    assert forall g :: g in listed <==> g in groups by {
      forall g ensures g in listed <==> g in groups {
        assert g in multiset(listed) <==> g in multiset(groups);
      }
    }
    CountsDistinct(listed);
    forall r, l ensures GroupTotals(listed, r, l) == GroupTotals(groups, r, l) {
      TotalsOfGroup(groups, r, l);
      TotalsOfGroup(listed, r, l);
      hide GroupTotals, GroupsDistinct;
      if g :| g in groups && g.reason == r && g.caption == l {
        assert g in listed;
      }
    }
  }

  /** Sorting the drop groups by self time keeps everything that is said of them. */
  lemma SortKeepsJoin(nodes: seq<TargetNode>, fileOf: string -> Option<string>, decimal: int -> string,
                      frames: seq<FrameSample>, j: JoinResult)
    requires Joined(nodes, fileOf, decimal, frames, j)
    ensures Joined(nodes, fileOf, decimal, frames, j.(dropped := Sort(j.dropped, BySelfMicros())))
    ensures var listed := Sort(j.dropped, BySelfMicros());
            forall a, b :: 0 <= a < b < |listed| ==> listed[a].selfMicros >= listed[b].selfMicros
  {
    hide AttributionsRight, GroupTotals, Into, Sum, Sort;
    var listed := Sort(j.dropped, BySelfMicros());
    SortPermutes(j.dropped, BySelfMicros());
    SortSorts(j.dropped, BySelfMicros());
    ReorderedGroups(j.dropped, listed);
    SumPermutation(j.dropped, listed, GroupSamples());
    SumPermutation(j.dropped, listed, GroupMicros());
  }

  /** File first, then a node of that file. */
  method ResolveWith(ghost nodes: seq<TargetNode>, byFile: map<string, seq<TargetNode>>, fileOf: string -> Option<string>, frame: FrameSample)
    returns (resolution: Resolution)
    requires forall f :: Bucket(byFile, f) == InFile(nodes, f)
    ensures resolution == ResolveFrame(nodes, fileOf, frame)
  {
    hide ResolveIn;
    var filePath := fileOf(frame.url);
    if filePath.None? {
      return Dropped(NoFile);
    }
    resolution := ResolveNode(Bucket(byFile, filePath.value), frame.functionName, frame.line);
  }

  /**
   The join. Every frame is matched to exactly one node or dropped into exactly one group; each
   node's attribution and each group's totals are the sums over precisely those frames, and the
   groups are listed by self time.
   */
  method Join(nodes: seq<TargetNode>, frames: seq<FrameSample>, fileOf: string -> Option<string>, decimal: int -> string)
    returns (result: JoinResult)
    ensures Joined(nodes, fileOf, decimal, frames, result)
    ensures forall i, j :: 0 <= i < j < |result.dropped| ==> result.dropped[i].selfMicros >= result.dropped[j].selfMicros
  {
    hide *;
    var byFile := IndexByFile(nodes);
    result := JoinResult(map[], 0, 0.0, 0.0, 0, 0, 0, 0.0, 0.0, []);
    JoinNone(nodes, fileOf, decimal);
    assert frames[..0] == [];
    for i := 0 to |frames|
      invariant Joined(nodes, fileOf, decimal, frames[..i], result)
    {
      var frame := frames[i];
      assert frames[..i + 1] == frames[..i] + [frame];
      var resolution := ResolveWith(nodes, byFile, fileOf, frame);
      if resolution.Dropped? {
        JoinDropped(nodes, fileOf, decimal, frames[..i], frame, result);
        result := CountDropped(result, frame, resolution.reason, DropLabel(frame, resolution.reason, decimal));
      } else {
        JoinMatched(nodes, fileOf, decimal, frames[..i], frame, result);
        result := CountMatched(result, frame, resolution.node, resolution.via);
      }
    }
    assert frames[..|frames|] == frames;
    SortKeepsJoin(nodes, fileOf, decimal, frames, result);
    result := result.(dropped := Sort(result.dropped, BySelfMicros()));
  }

  // ---------- the balance ----------

  /** Matched plus dropped is everything, in frames, samples and self time; by name plus by range is matched. */
  lemma JoinBalances(nodes: seq<TargetNode>, fileOf: string -> Option<string>, frames: seq<FrameSample>, j: JoinResult)
    requires TotalsRight(nodes, fileOf, frames, j)
    ensures j.matchedFrames + j.droppedFrames == |frames|
    ensures j.matchedSamples + j.droppedSamples == Sum(frames, FrameSamples())
    ensures j.matchedSelfMicros + j.droppedSelfMicros == Sum(frames, FrameMicros())
    ensures j.matchedByName + j.matchedByRange == j.matchedFrames
  {
    SumAdd(frames, OntoAny(nodes, fileOf, One()), IntoAny(nodes, fileOf, One()), One());
    CountAsSum(frames);
    SumAdd(frames, OntoAny(nodes, fileOf, FrameSamples()), IntoAny(nodes, fileOf, FrameSamples()), FrameSamples());
    SumAdd(frames, OntoAny(nodes, fileOf, FrameMicros()), IntoAny(nodes, fileOf, FrameMicros()), FrameMicros());
    SumAdd(frames, OneVia(nodes, fileOf, ByName), OneVia(nodes, fileOf, ByRange), OntoAny(nodes, fileOf, One()));
  }

  lemma {:induction false} CountAsSum(frames: seq<FrameSample>)
    ensures Sum(frames, One()) == |frames| as real
  {
    if frames != [] {
      CountAsSum(frames[..|frames| - 1]);
    }
  }

  ghost function ChargedSamples(attributions: map<string, Attribution>): string -> real {
    (id: string) => AttributionOf(attributions, id).samples
  }

  ghost function ChargedMicros(attributions: map<string, Attribution>): string -> real {
    (id: string) => AttributionOf(attributions, id).selfMicros
  }

  /** Summed over ids that list every node once, what lands on each node is what lands on any. */
  lemma OntoSums(nodes: seq<TargetNode>, fileOf: string -> Option<string>, frames: seq<FrameSample>, ids: seq<string>,
                 weigh: FrameSample -> real, charged: string -> real)
    requires forall a, b :: 0 <= a < b < |ids| ==> ids[a] != ids[b]
    requires forall n :: n in nodes ==> n.id in ids
    requires forall id :: charged(id) == Sum(frames, Onto(nodes, fileOf, id, weigh))
    ensures Sum(ids, charged) == Sum(frames, OntoAny(nodes, fileOf, weigh))
  {
    var m: (string, FrameSample) -> real := (id, f) => Onto(nodes, fileOf, id, weigh)(f);
    var columns := OntoAny(nodes, fileOf, weigh);
    forall id | id in ids ensures charged(id) == Sum(frames, Row(m, id)) {
      SumCongruent(frames, Onto(nodes, fileOf, id, weigh), Row(m, id));
    }
    forall f | f in frames ensures columns(f) == Sum(ids, Column(m, f)) {
      var r := ResolveFrame(nodes, fileOf, f);
      if r.Matched? {
        MatchIsSound(nodes, fileOf, f.functionName, f.url, f.line);
        var k :| 0 <= k < |ids| && ids[k] == r.node.id;
        forall i | 0 <= i < |ids| ensures Column(m, f)(ids[i]) == if i == k then weigh(f) else 0.0 {
          assert Column(m, f)(ids[i]) == Onto(nodes, fileOf, ids[i], weigh)(f);
        }
        SumAtMostOne(ids, Column(m, f), weigh(f), k);
      } else {
        SumZero(ids, Column(m, f));
      }
    }
    SumSwap(ids, frames, m, charged, columns);
  }

  /** Over any listing of ids that has every node once, the attributions sum to what was matched. */
  lemma AttributionsSumToMatched(nodes: seq<TargetNode>, fileOf: string -> Option<string>, frames: seq<FrameSample>, j: JoinResult, ids: seq<string>)
    requires TotalsRight(nodes, fileOf, frames, j) && AttributionsRight(nodes, fileOf, frames, j.attributions)
    requires forall a, b :: 0 <= a < b < |ids| ==> ids[a] != ids[b]
    requires forall n :: n in nodes ==> n.id in ids
    ensures Sum(ids, ChargedSamples(j.attributions)) == j.matchedSamples
    ensures Sum(ids, ChargedMicros(j.attributions)) == j.matchedSelfMicros
  {
    hide AttributionOf, Onto, OntoAny, Sum;
    OntoSums(nodes, fileOf, frames, ids, FrameSamples(), ChargedSamples(j.attributions));
    OntoSums(nodes, fileOf, frames, ids, FrameMicros(), ChargedMicros(j.attributions));
  }

  /**
   End to end: aggregating a profile and joining its frames, matched plus dropped samples are the
   profile's total exactly when every tick names a listed node (or no hit count is negative). Matched
   plus dropped self time is the sum of all deltas, plus the size of the negative ones before ticks,
   less those before unlisted ticks and beyond the last; without negative deltas it is the plain sum
   exactly when every positive delta stands before a tick that names a listed node.
   */
  lemma ProfileBalances(profile: Profile, nodes: seq<TargetNode>, fileOf: string -> Option<string>, j: JoinResult)
    requires DistinctNodeIds(profile.nodes)
    requires TotalsRight(nodes, fileOf, FramesOf(profile.nodes, SampleCounts(profile), Micros(profile)), j)
    ensures j.matchedSamples + j.droppedSamples == TotalSamples(profile) <==> EveryTickKnown(profile)
    ensures j.matchedSelfMicros + j.droppedSelfMicros == TimeKept(profile)
    ensures (forall d :: d in Deltas(profile) ==> d >= 0.0) ==>
              (j.matchedSelfMicros + j.droppedSelfMicros == TotalTime(profile)
               <==> TimeLands(profile.nodes, Ticks(profile), Deltas(profile)))
  {
    JoinBalances(nodes, fileOf, FramesOf(profile.nodes, SampleCounts(profile), Micros(profile)), j);
    FramesAccountForSamples(profile);
    TimeDifference(profile);
    if forall d :: d in Deltas(profile) ==> d >= 0.0 {
      FramesAccountForTime(profile);
    }
  }

  // ---------- joining call edges ----------

  datatype RuntimeEdge = RuntimeEdge(from: string, to: string, samples: real)

  /** The aggregation key of a node pair. */
  function Key(from: string, to: string): string {
    from + "->" + to
  }

  /** Adds samples to the entry with the pair's key, opening it if the key is new. */
  function AddEdge(entries: seq<RuntimeEdge>, from: string, to: string, samples: real): seq<RuntimeEdge> {
    if entries == [] then [RuntimeEdge(from, to, samples)] else
      var rest, e := entries[..|entries| - 1], entries[|entries| - 1];
      if Key(e.from, e.to) == Key(from, to) then rest + [e.(samples := e.samples + samples)]
      else AddEdge(rest, from, to, samples) + [e]
  }

  ghost function ResolveRef(nodes: seq<TargetNode>, fileOf: string -> Option<string>, ref: FrameRef): Resolution {
    Resolve(nodes, fileOf, ref.functionName, ref.url, ref.line)
  }

  /** Both ends resolve, to different nodes. */
  ghost predicate Lands(nodes: seq<TargetNode>, fileOf: string -> Option<string>, e: RuntimeCallEdge) {
    var a, b := ResolveRef(nodes, fileOf, e.caller), ResolveRef(nodes, fileOf, e.callee);
    a.Matched? && b.Matched? && a.node.id != b.node.id
  }

  ghost function FromId(nodes: seq<TargetNode>, fileOf: string -> Option<string>, e: RuntimeCallEdge): string
    requires Lands(nodes, fileOf, e)
  {
    ResolveRef(nodes, fileOf, e.caller).node.id
  }

  ghost function ToId(nodes: seq<TargetNode>, fileOf: string -> Option<string>, e: RuntimeCallEdge): string
    requires Lands(nodes, fileOf, e)
  {
    ResolveRef(nodes, fileOf, e.callee).node.id
  }

  ghost function FlowAt(nodes: seq<TargetNode>, fileOf: string -> Option<string>, key: string): RuntimeCallEdge -> real {
    (e: RuntimeCallEdge) =>
      if Lands(nodes, fileOf, e) && Key(FromId(nodes, fileOf, e), ToId(nodes, fileOf, e)) == key then e.samples else 0.0
  }

  ghost function FlowBetween(nodes: seq<TargetNode>, fileOf: string -> Option<string>, from: string, to: string): RuntimeCallEdge -> real {
    (e: RuntimeCallEdge) =>
      if Lands(nodes, fileOf, e) && FromId(nodes, fileOf, e) == from && ToId(nodes, fileOf, e) == to then e.samples else 0.0
  }

  ghost function EntrySamples(): RuntimeEdge -> real {
    (e: RuntimeEdge) => e.samples
  }

  /** Samples recorded under a key. */
  ghost function KeyTotal(entries: seq<RuntimeEdge>, key: string): real {
    if entries == [] then 0.0 else
      var e := entries[|entries| - 1];
      if Key(e.from, e.to) == key then e.samples else KeyTotal(entries[..|entries| - 1], key)
  }

  ghost predicate KeysDistinct(entries: seq<RuntimeEdge>) {
    forall i, j :: 0 <= i < j < |entries| ==> Key(entries[i].from, entries[i].to) != Key(entries[j].from, entries[j].to)
  }

  lemma {:induction false} AddEdgeKeepsKeys(entries: seq<RuntimeEdge>, from: string, to: string, samples: real)
    requires KeysDistinct(entries)
    ensures KeysDistinct(AddEdge(entries, from, to, samples))
    ensures forall e :: e in AddEdge(entries, from, to, samples) ==>
              (e.from == from && e.to == to) || exists d :: d in entries && d.from == e.from && d.to == e.to
    ensures exists e :: e in AddEdge(entries, from, to, samples) && Key(e.from, e.to) == Key(from, to)
  {
    var after := AddEdge(entries, from, to, samples);
    if entries == [] {
      assert after[0] in after;
    } else {
      var rest, e := entries[..|entries| - 1], entries[|entries| - 1];
      assert entries == rest + [e];
      assert after[|after| - 1] in after;
      if Key(e.from, e.to) != Key(from, to) {
        AddEdgeKeepsKeys(rest, from, to, samples);
        var before := AddEdge(rest, from, to, samples);
        forall i | 0 <= i < |before| ensures Key(before[i].from, before[i].to) != Key(e.from, e.to) {
          assert before[i] in before;
          if !(before[i].from == from && before[i].to == to) {
            var d :| d in rest && d.from == before[i].from && d.to == before[i].to;
          }
        }
        var hit :| hit in before && Key(hit.from, hit.to) == Key(from, to);
        assert hit in after;
      }
    }
  }

  lemma {:induction false} AddEdgeSums(entries: seq<RuntimeEdge>, from: string, to: string, samples: real)
    ensures Sum(AddEdge(entries, from, to, samples), EntrySamples()) == Sum(entries, EntrySamples()) + samples
  {
    hide Key;
    var after := AddEdge(entries, from, to, samples);
    if entries == [] {
      assert after[..0] == [];
    } else {
      var rest := entries[..|entries| - 1];
      AddEdgeSums(rest, from, to, samples);
      assert after[..|after| - 1] == rest || after[..|after| - 1] == AddEdge(rest, from, to, samples);
    }
  }

  lemma {:induction false} AddEdgeTotals(entries: seq<RuntimeEdge>, from: string, to: string, samples: real, key: string)
    ensures KeyTotal(AddEdge(entries, from, to, samples), key) ==
            if key == Key(from, to) then KeyTotal(entries, key) + samples else KeyTotal(entries, key)
  {
    hide Key;
    var after := AddEdge(entries, from, to, samples);
    if entries == [] {
      assert after[..0] == [];
    } else {
      var rest := entries[..|entries| - 1];
      AddEdgeTotals(rest, from, to, samples, key);
      assert after[..|after| - 1] == rest || after[..|after| - 1] == AddEdge(rest, from, to, samples);
    }
  }

  datatype CallJoinResult = CallJoinResult(edges: seq<RuntimeEdge>, matchedEdges: nat, droppedEdges: nat, droppedSamples: real)

  ghost function LandedOne(nodes: seq<TargetNode>, fileOf: string -> Option<string>): RuntimeCallEdge -> real {
    (e: RuntimeCallEdge) => if Lands(nodes, fileOf, e) then 1.0 else 0.0
  }

  /** The running result after the call edges in `seen`. */
  ghost predicate CallsJoined(nodes: seq<TargetNode>, fileOf: string -> Option<string>, seen: seq<RuntimeCallEdge>, j: CallJoinResult) {
    && j.matchedEdges as real == Sum(seen, LandedOne(nodes, fileOf))
    && j.matchedEdges + j.droppedEdges == |seen|
    && Sum(j.edges, EntrySamples()) + j.droppedSamples == Sum(seen, Flow())
    && KeysDistinct(j.edges)
    && (forall e {:trigger FromSome(nodes, fileOf, seen, e)} :: e in j.edges ==> FromSome(nodes, fileOf, seen, e))
    && (forall key :: KeyTotal(j.edges, key) == Sum(seen, FlowAt(nodes, fileOf, key)))
    && (forall c :: c in seen && Lands(nodes, fileOf, c) ==> HasKey(j.edges, Key(FromId(nodes, fileOf, c), ToId(nodes, fileOf, c))))
  }

  /** The entry joins the two different nodes of some call edge that was seen. */
  ghost predicate FromSome(nodes: seq<TargetNode>, fileOf: string -> Option<string>, seen: seq<RuntimeCallEdge>, e: RuntimeEdge) {
    && e.from != e.to
    && exists c :: c in seen && Lands(nodes, fileOf, c) && FromId(nodes, fileOf, c) == e.from && ToId(nodes, fileOf, c) == e.to
  }

  ghost predicate HasKey(entries: seq<RuntimeEdge>, key: string) {
    exists e :: e in entries && Key(e.from, e.to) == key
  }

  lemma AddEdgeHasKey(entries: seq<RuntimeEdge>, from: string, to: string, samples: real, key: string)
    requires KeysDistinct(entries) && (HasKey(entries, key) || key == Key(from, to))
    ensures HasKey(AddEdge(entries, from, to, samples), key)
    decreases |entries|
  {
    AddEdgeKeepsKeys(entries, from, to, samples);
    if key != Key(from, to) {
      var e :| e in entries && Key(e.from, e.to) == key;
      AddEdgeKeepsOthers(entries, from, to, samples, e);
    }
  }

  lemma {:induction false} AddEdgeKeepsOthers(entries: seq<RuntimeEdge>, from: string, to: string, samples: real, e: RuntimeEdge)
    requires e in entries && Key(e.from, e.to) != Key(from, to)
    ensures e in AddEdge(entries, from, to, samples)
  {
    var rest, last := entries[..|entries| - 1], entries[|entries| - 1];
    assert entries == rest + [last];
    if Key(last.from, last.to) != Key(from, to) && e in rest {
      AddEdgeKeepsOthers(rest, from, to, samples, e);
    }
  }

  lemma LandedTotals(nodes: seq<TargetNode>, fileOf: string -> Option<string>, seen: seq<RuntimeCallEdge>, c: RuntimeCallEdge,
                     entries: seq<RuntimeEdge>, key: string)
    requires Lands(nodes, fileOf, c) && KeyTotal(entries, key) == Sum(seen, FlowAt(nodes, fileOf, key))
    ensures KeyTotal(AddEdge(entries, FromId(nodes, fileOf, c), ToId(nodes, fileOf, c), c.samples), key)
         == Sum(seen + [c], FlowAt(nodes, fileOf, key))
  {
    hide Key, Resolve, KeyTotal, AddEdge, Sum;
    AddEdgeTotals(entries, FromId(nodes, fileOf, c), ToId(nodes, fileOf, c), c.samples, key);
    SumAppend(seen, c, FlowAt(nodes, fileOf, key));
  }

  lemma LandedSources(nodes: seq<TargetNode>, fileOf: string -> Option<string>, seen: seq<RuntimeCallEdge>, c: RuntimeCallEdge,
                      entries: seq<RuntimeEdge>, e: RuntimeEdge)
    requires Lands(nodes, fileOf, c) && KeysDistinct(entries)
    requires forall d :: d in entries ==> FromSome(nodes, fileOf, seen, d)
    requires e in AddEdge(entries, FromId(nodes, fileOf, c), ToId(nodes, fileOf, c), c.samples)
    ensures FromSome(nodes, fileOf, seen + [c], e)
  {
    var from, to := FromId(nodes, fileOf, c), ToId(nodes, fileOf, c);
    AddEdgeKeepsKeys(entries, from, to, c.samples);
    hide Key, Resolve, AddEdge;
    if e.from == from && e.to == to {
      assert c in seen + [c];
    } else {
      var d :| d in entries && d.from == e.from && d.to == e.to;
      FromSomeGrows(nodes, fileOf, seen, c, d);
    }
  }

  lemma LandedStep(nodes: seq<TargetNode>, fileOf: string -> Option<string>, seen: seq<RuntimeCallEdge>, c: RuntimeCallEdge)
    ensures Sum(seen + [c], LandedOne(nodes, fileOf)) == Sum(seen, LandedOne(nodes, fileOf)) + if Lands(nodes, fileOf, c) then 1.0 else 0.0
  {
    SumAppend(seen, c, LandedOne(nodes, fileOf));
    hide Sum, ResolveRef;
  }

  lemma CallLanded(nodes: seq<TargetNode>, fileOf: string -> Option<string>, seen: seq<RuntimeCallEdge>, c: RuntimeCallEdge, j: CallJoinResult)
    requires CallsJoined(nodes, fileOf, seen, j) && Lands(nodes, fileOf, c)
    ensures CallsJoined(nodes, fileOf, seen + [c], j.(
      edges := AddEdge(j.edges, FromId(nodes, fileOf, c), ToId(nodes, fileOf, c), c.samples), matchedEdges := j.matchedEdges + 1))
  {
    hide Key, AddEdge, Resolve, KeyTotal, FromSome, HasKey, Sum;
    var from, to := FromId(nodes, fileOf, c), ToId(nodes, fileOf, c);
    var edges' := AddEdge(j.edges, from, to, c.samples);
    AddEdgeKeepsKeys(j.edges, from, to, c.samples);
    SumAppend(seen, c, Flow());
    LandedStep(nodes, fileOf, seen, c);
    AddEdgeSums(j.edges, from, to, c.samples);
    hide KeysDistinct, Lands;
    forall key ensures KeyTotal(edges', key) == Sum(seen + [c], FlowAt(nodes, fileOf, key)) {
      LandedTotals(nodes, fileOf, seen, c, j.edges, key);
    }
    forall e | e in edges' ensures FromSome(nodes, fileOf, seen + [c], e) {
      LandedSources(nodes, fileOf, seen, c, j.edges, e);
    }
    forall x | x in seen + [c] && Lands(nodes, fileOf, x)
      ensures HasKey(edges', Key(FromId(nodes, fileOf, x), ToId(nodes, fileOf, x)))
    {
      AddEdgeHasKey(j.edges, from, to, c.samples, Key(FromId(nodes, fileOf, x), ToId(nodes, fileOf, x)));
    }
  }

  lemma CallDropped(nodes: seq<TargetNode>, fileOf: string -> Option<string>, seen: seq<RuntimeCallEdge>, c: RuntimeCallEdge, j: CallJoinResult)
    requires CallsJoined(nodes, fileOf, seen, j) && !Lands(nodes, fileOf, c)
    ensures CallsJoined(nodes, fileOf, seen + [c], j.(droppedEdges := j.droppedEdges + 1, droppedSamples := j.droppedSamples + c.samples))
  {
    hide Key, Resolve, KeyTotal, KeysDistinct, Lands, FromId, ToId, FromSome, HasKey, Sum;
    SumAppend(seen, c, Flow());
    LandedStep(nodes, fileOf, seen, c);
    forall key ensures KeyTotal(j.edges, key) == Sum(seen + [c], FlowAt(nodes, fileOf, key)) {
      SumAppend(seen, c, FlowAt(nodes, fileOf, key));
    }
    forall e | e in j.edges ensures FromSome(nodes, fileOf, seen + [c], e) {
      FromSomeGrows(nodes, fileOf, seen, c, e);
    }
  }

  lemma FromSomeGrows(nodes: seq<TargetNode>, fileOf: string -> Option<string>, seen: seq<RuntimeCallEdge>, c: RuntimeCallEdge, e: RuntimeEdge)
    requires FromSome(nodes, fileOf, seen, e)
    ensures FromSome(nodes, fileOf, seen + [c], e)
  {
    hide Lands, FromId, ToId;
  }

  method ResolveFrameRef(ghost nodes: seq<TargetNode>, byFile: map<string, seq<TargetNode>>, fileOf: string -> Option<string>, ref: FrameRef)
    returns (resolution: Resolution)
    requires forall f :: Bucket(byFile, f) == InFile(nodes, f)
    ensures resolution == ResolveRef(nodes, fileOf, ref)
  {
    hide ResolveIn;
    var filePath := fileOf(ref.url);
    if filePath.None? {
      return Dropped(NoFile);
    }
    resolution := ResolveNode(Bucket(byFile, filePath.value), ref.functionName, ref.line);
  }

  /**
   Joins call edges by node pair: samples are split between entries and drops with none lost, no
   entry is a self-call, and every key carries the samples of exactly the edges that resolve to it.
   */
  method JoinCallEdges(nodes: seq<TargetNode>, callEdges: seq<RuntimeCallEdge>, fileOf: string -> Option<string>)
    returns (result: CallJoinResult)
    ensures CallsJoined(nodes, fileOf, callEdges, result)
  {
    hide Resolve, Key, AddEdge;
    var byFile := IndexByFile(nodes);
    result := CallJoinResult([], 0, 0, 0.0);
    for i := 0 to |callEdges|
      invariant CallsJoined(nodes, fileOf, callEdges[..i], result)
    {
      hide CallsJoined;
      var edge := callEdges[i];
      assert callEdges[..i + 1] == callEdges[..i] + [edge];
      var from := ResolveFrameRef(nodes, byFile, fileOf, edge.caller);
      var to := ResolveFrameRef(nodes, byFile, fileOf, edge.callee);
      if from.Dropped? || to.Dropped? || from.node.id == to.node.id {
        CallDropped(nodes, fileOf, callEdges[..i], edge, result);
        result := result.(droppedEdges := result.droppedEdges + 1, droppedSamples := result.droppedSamples + edge.samples);
        continue;
      }
      CallLanded(nodes, fileOf, callEdges[..i], edge, result);
      result := result.(edges := AddEdge(result.edges, from.node.id, to.node.id, edge.samples), matchedEdges := result.matchedEdges + 1);
    }
    assert callEdges[..|callEdges|] == callEdges;
  }

  // ---------- when a key stands for one pair ----------

  /** Call edges with one key join one pair of nodes. */
  ghost predicate KeysSeparate(nodes: seq<TargetNode>, fileOf: string -> Option<string>, edges: seq<RuntimeCallEdge>) {
    forall c, d :: c in edges && d in edges && Lands(nodes, fileOf, c) && Lands(nodes, fileOf, d)
      && Key(FromId(nodes, fileOf, c), ToId(nodes, fileOf, c)) == Key(FromId(nodes, fileOf, d), ToId(nodes, fileOf, d))
      ==> FromId(nodes, fileOf, c) == FromId(nodes, fileOf, d) && ToId(nodes, fileOf, c) == ToId(nodes, fileOf, d)
  }

  ghost predicate HasArrow(s: string) {
    exists i :: 0 <= i < |s| - 1 && s[i] == '-' && s[i + 1] == '>'
  }

  /** Where two pairs share a key, the longer first id contains the other's separator. */
  lemma ArrowInside(a: string, b: string, c: string, d: string)
    requires Key(a, b) == Key(c, d) && |a| < |c|
    ensures HasArrow(c)
  {
    var k := Key(a, b);
    assert k[|a|] == '-' && k[|a| + 1] == '>';
    assert k[|c|] == '-';
    assert |a| + 1 != |c|;
    assert c[|a|] == k[|a|] && c[|a| + 1] == k[|a| + 1];
  }

  /** Ids without "->" give every pair its own key. */
  lemma KeyIsInjective(a: string, b: string, c: string, d: string)
    requires !HasArrow(a) && !HasArrow(c) && Key(a, b) == Key(c, d)
    ensures a == c && b == d
  {
    if |a| < |c| {
      ArrowInside(a, b, c, d);
    } else if |c| < |a| {
      ArrowInside(c, d, a, b);
    } else {
      var k := Key(a, b);
      assert a == k[..|a|] && c == k[..|c|];
      assert b == k[|a| + 2..] && d == k[|c| + 2..];
    }
  }

  /** Node ids without "->" keep every pair apart. */
  lemma NoArrowsSeparate(nodes: seq<TargetNode>, fileOf: string -> Option<string>, edges: seq<RuntimeCallEdge>)
    requires forall n :: n in nodes ==> !HasArrow(n.id)
    ensures KeysSeparate(nodes, fileOf, edges)
  {
    hide Key, HasArrow;
    forall c, d | c in edges && d in edges && Lands(nodes, fileOf, c) && Lands(nodes, fileOf, d)
                  && Key(FromId(nodes, fileOf, c), ToId(nodes, fileOf, c)) == Key(FromId(nodes, fileOf, d), ToId(nodes, fileOf, d))
      ensures FromId(nodes, fileOf, c) == FromId(nodes, fileOf, d) && ToId(nodes, fileOf, c) == ToId(nodes, fileOf, d)
    {
      MatchIsSound(nodes, fileOf, c.caller.functionName, c.caller.url, c.caller.line);
      MatchIsSound(nodes, fileOf, d.caller.functionName, d.caller.url, d.caller.line);
      KeyIsInjective(FromId(nodes, fileOf, c), ToId(nodes, fileOf, c), FromId(nodes, fileOf, d), ToId(nodes, fileOf, d));
    }
  }

  lemma {:induction false} KeyTotalOfEntry(entries: seq<RuntimeEdge>, e: RuntimeEdge)
    requires KeysDistinct(entries) && e in entries
    ensures KeyTotal(entries, Key(e.from, e.to)) == e.samples
  {
    var rest, last := entries[..|entries| - 1], entries[|entries| - 1];
    assert entries == rest + [last];
    if e != last {
      assert e in rest;
      var i :| 0 <= i < |rest| && rest[i] == e;
      assert entries[i] == e;
      KeyTotalOfEntry(rest, e);
    }
  }

  /** Where keys separate, each entry's samples are exactly those of the call edges between its two nodes. */
  lemma EntriesAreExact(nodes: seq<TargetNode>, fileOf: string -> Option<string>, callEdges: seq<RuntimeCallEdge>, j: CallJoinResult, e: RuntimeEdge)
    requires CallsJoined(nodes, fileOf, callEdges, j) && KeysSeparate(nodes, fileOf, callEdges) && e in j.edges
    ensures e.samples == Sum(callEdges, FlowBetween(nodes, fileOf, e.from, e.to))
  {
    KeyTotalOfEntry(j.edges, e);
    hide Resolve, Key, KeyTotal;
    assert FromSome(nodes, fileOf, callEdges, e);
    SumCongruent(callEdges, FlowAt(nodes, fileOf, Key(e.from, e.to)), FlowBetween(nodes, fileOf, e.from, e.to));
  }

  ghost predicate Listed(entries: seq<RuntimeEdge>, from: string, to: string) {
    exists e :: e in entries && e.from == from && e.to == to
  }

  /** Every joined call edge's pair of nodes has an entry of its own exactly when keys separate. */
  lemma EveryPairListedIff(nodes: seq<TargetNode>, fileOf: string -> Option<string>, callEdges: seq<RuntimeCallEdge>, j: CallJoinResult)
    requires CallsJoined(nodes, fileOf, callEdges, j)
    ensures (forall c :: c in callEdges && Lands(nodes, fileOf, c) ==> Listed(j.edges, FromId(nodes, fileOf, c), ToId(nodes, fileOf, c)))
            <==> KeysSeparate(nodes, fileOf, callEdges)
  {
    hide Key, KeyTotal, ResolveRef, Flow, FlowAt, Sum;
    if KeysSeparate(nodes, fileOf, callEdges) {
      forall c | c in callEdges && Lands(nodes, fileOf, c)
        ensures Listed(j.edges, FromId(nodes, fileOf, c), ToId(nodes, fileOf, c))
      {
        assert HasKey(j.edges, Key(FromId(nodes, fileOf, c), ToId(nodes, fileOf, c)));
        var e :| e in j.edges && Key(e.from, e.to) == Key(FromId(nodes, fileOf, c), ToId(nodes, fileOf, c));
        assert FromSome(nodes, fileOf, callEdges, e);
      }
    }
    if forall c :: c in callEdges && Lands(nodes, fileOf, c) ==> Listed(j.edges, FromId(nodes, fileOf, c), ToId(nodes, fileOf, c)) {
      forall c, d | c in callEdges && d in callEdges && Lands(nodes, fileOf, c) && Lands(nodes, fileOf, d)
                    && Key(FromId(nodes, fileOf, c), ToId(nodes, fileOf, c)) == Key(FromId(nodes, fileOf, d), ToId(nodes, fileOf, d))
        ensures FromId(nodes, fileOf, c) == FromId(nodes, fileOf, d) && ToId(nodes, fileOf, c) == ToId(nodes, fileOf, d)
      {
        var e :| e in j.edges && e.from == FromId(nodes, fileOf, c) && e.to == ToId(nodes, fileOf, c);
        var f :| f in j.edges && f.from == FromId(nodes, fileOf, d) && f.to == ToId(nodes, fileOf, d);
        OneEntryPerKey(j.edges, e, f);
      }
    }
  }

  lemma OneEntryPerKey(entries: seq<RuntimeEdge>, e: RuntimeEdge, f: RuntimeEdge)
    requires KeysDistinct(entries) && e in entries && f in entries && Key(e.from, e.to) == Key(f.from, f.to)
    ensures e == f
  {
    hide Key;
    var a :| 0 <= a < |entries| && entries[a] == e;
    var b :| 0 <= b < |entries| && entries[b] == f;
    assert !(a < b) && !(b < a);
  }

  // ---------- two pairs with one key ----------

  /** Two pairs of different ids with one key. */
  lemma KeyCanCollide()
    ensures Key("a", "b->c") == Key("a->b", "c")
  {
    assert Key("a", "b->c") == "a->b->c";
    assert Key("a->b", "c") == "a->b->c";
  }

  /** Four functions, each in a file of its own. */
  function Functions(): seq<TargetNode> {
    [TargetNode("a", "Function", "f", "1", 1, 1), TargetNode("b->c", "Function", "f", "2", 1, 1),
     TargetNode("a->b", "Function", "f", "3", 1, 1), TargetNode("c", "Function", "f", "4", 1, 1)]
  }

  /** Urls are file paths. */
  function UrlIsFile(): string -> Option<string> {
    (url: string) => Some(url)
  }

  /** A call from "a" to "b->c" and one from "a->b" to "c". */
  function CollidingCalls(): seq<RuntimeCallEdge> {
    [RuntimeCallEdge(FrameRef("f", "1", 1), FrameRef("f", "2", 1), 1.0),
     RuntimeCallEdge(FrameRef("f", "3", 1), FrameRef("f", "4", 1), 1.0)]
  }

  lemma PathsDiffer(i: nat, j: nat)
    requires i < 4 && j < 4 && i != j
    ensures Functions()[i].filePath != Functions()[j].filePath
  {
    var nodes := Functions();
    assert nodes[0].filePath[0] == '1' && nodes[1].filePath[0] == '2' && nodes[2].filePath[0] == '3' && nodes[3].filePath[0] == '4';
    assert nodes[i].filePath[0] != nodes[j].filePath[0];
  }

  /** A frame of the only function of a file resolves to it. */
  lemma ResolvesAlone(at: nat)
    requires at < 4
    ensures ResolveRef(Functions(), UrlIsFile(), FrameRef("f", Functions()[at].filePath, 1)) == Matched(Functions()[at], ByName)
  {
    var nodes := Functions();
    forall i: nat | i < 4 && i != at ensures nodes[i].filePath != nodes[at].filePath {
      PathsDiffer(i, at);
    }
    assert Names("f", nodes[at]);
    hide Names, ResolveIn, InFile;
    UniqueNameWins(nodes, UrlIsFile(), "f", nodes[at].filePath, 1, at);
  }

  lemma CollidingCallsLand()
    ensures forall k :: 0 <= k < 2 ==> Lands(Functions(), UrlIsFile(), CollidingCalls()[k])
    ensures FromId(Functions(), UrlIsFile(), CollidingCalls()[0]) == "a" && ToId(Functions(), UrlIsFile(), CollidingCalls()[0]) == "b->c"
    ensures FromId(Functions(), UrlIsFile(), CollidingCalls()[1]) == "a->b" && ToId(Functions(), UrlIsFile(), CollidingCalls()[1]) == "c"
  {
    hide ResolveRef;
    ResolvesAlone(0);
    ResolvesAlone(1);
    ResolvesAlone(2);
    ResolvesAlone(3);
    assert "a"[0] != "b->c"[0] && |"a->b"| != |"c"|;
  }

  /** Joining those two calls: their keys do not separate, and whatever is returned, one pair has no entry of its own. */
  lemma JoinedPairsCanMerge(j: CallJoinResult)
    requires CallsJoined(Functions(), UrlIsFile(), CollidingCalls(), j)
    ensures !KeysSeparate(Functions(), UrlIsFile(), CollidingCalls())
    ensures !Listed(j.edges, "a", "b->c") || !Listed(j.edges, "a->b", "c")
  {
    CollidingCallsLand();
    KeyCanCollide();
    var nodes, fileOf, calls := Functions(), UrlIsFile(), CollidingCalls();
    hide ResolveRef, Lands, FromId, ToId, Key, CallsJoined, Functions, UrlIsFile;
    assert calls[0] in calls && calls[1] in calls;
    assert |"a"| != |"a->b"|;
    assert !KeysSeparate(nodes, fileOf, calls);
    EveryPairListedIff(nodes, fileOf, calls, j);
  }
}

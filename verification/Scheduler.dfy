/** The list scheduler: dependency graph, critical path metrics and greedy issue order. */
module Scheduler {
  import opened Arithmetic
  import opened MachineIR
  import opened Sequences
  import opened Dags
  import opened DependencyGraph
  import opened GreedyOrder

  const INT_MAX := 0x7fff_ffff

  class SchedNode {
    ghost const id: nat  // position of the instruction in its block
    const inst: MachineInstr
    var predecessors: seq<SchedNode>
    var successors: seq<SchedNode>
    var earliestCycle: int
    var latestCycle: int
    var height: int
    var depth: int
    var scheduled: bool

    constructor (ghost id: nat, inst: MachineInstr)
      ensures this.id == id && this.inst == inst
      ensures predecessors == [] && successors == []
      ensures earliestCycle == 0 && latestCycle == INT_MAX
      ensures height == 0 && depth == 0 && !scheduled
    {
      this.id, this.inst := id, inst;
      predecessors, successors := [], [];
      earliestCycle, latestCycle := 0, INT_MAX;
      height, depth, scheduled := 0, 0, false;
    }
  }

  /** The list holds the nodes of the given positions, in that order. */
  ghost predicate Links(nodes: seq<SchedNode>, list: seq<SchedNode>, positions: seq<nat>) {
    && |list| == |positions|
    && forall k :: 0 <= k < |list| ==> positions[k] < |nodes| && list[k] == nodes[positions[k]]
  }

  ghost predicate Numbered(g: Dag, nodes: seq<SchedNode>) {
    && |nodes| == g.n
    && (forall i :: 0 <= i < g.n ==> nodes[i].id == i)
  }

  ghost predicate CostAt(g: Dag, nodes: seq<SchedNode>, i: nat)
    requires i < |nodes|
  {
    Latency(nodes[i].inst.opcode) == g.cost(i)
  }

  /** The costs of the graph are the latencies of the instructions. */
  ghost predicate Costed(g: Dag, nodes: seq<SchedNode>) {
    |nodes| == g.n && forall i: nat :: i < g.n ==> CostAt(g, nodes, i)
  }

  ghost predicate NodeWired(g: Dag, nodes: seq<SchedNode>, i: nat)
    requires i < |nodes|
    reads nodes`successors, nodes`predecessors
  {
    && Links(nodes, nodes[i].successors, Succs(g, i))
    && Links(nodes, nodes[i].predecessors, Preds(g, i))
  }

  /** The nodes carry exactly the edges of the graph. */
  ghost predicate Wired(g: Dag, nodes: seq<SchedNode>)
    reads nodes`successors, nodes`predecessors
  {
    Numbered(g, nodes) && forall i: nat :: i < g.n ==> NodeWired(g, nodes, i)
  }

  function Insts(nodes: seq<SchedNode>): (b: Block)
    ensures |b| == |nodes|
    ensures forall i :: 0 <= i < |b| ==> b[i] == nodes[i].inst
  {
    seq(|nodes|, i requires 0 <= i < |nodes| => nodes[i].inst)
  }

  // ---- Building the graph ----

  function SuccsSoFar(g: Dag, k: nat, i: nat, j: nat): seq<nat> {
    if k < i then Succs(g, k) else if k == i then SuccsUpTo(g, i, j) else []
  }

  function PredsSoFar(g: Dag, k: nat, i: nat, j: nat): seq<nat> {
    PredsUpTo(g, k, if k < j then i + 1 else i)
  }

  ghost predicate WiredAt(g: Dag, nodes: seq<SchedNode>, k: nat, i: nat, j: nat)
    requires k < |nodes|
    reads nodes`successors, nodes`predecessors
  {
    && Links(nodes, nodes[k].successors, SuccsSoFar(g, k, i, j))
    && Links(nodes, nodes[k].predecessors, PredsSoFar(g, k, i, j))
  }

  /** All pairs before (i, j) in the nested loops have been treated. */
  ghost predicate WiredUpTo(g: Dag, nodes: seq<SchedNode>, i: nat, j: nat)
    reads nodes`successors, nodes`predecessors
  {
    Numbered(g, nodes) && forall k: nat :: k < g.n ==> WiredAt(g, nodes, k, i, j)
  }

  lemma {:induction false} NoEarlySuccs(g: Dag, i: nat, bound: nat)
    requires bound <= i + 1
    ensures SuccsUpTo(g, i, bound) == []
  {
    if bound > 0 { NoEarlySuccs(g, i, bound - 1); }
  }

  lemma {:induction false} NoLatePreds(g: Dag, j: nat, bound: nat)
    requires j <= bound
    ensures PredsUpTo(g, j, bound) == PredsUpTo(g, j, j)
  {
    if bound > j { NoLatePreds(g, j, bound - 1); }
  }

  method BuildDependencyGraph(insts: Block) returns (nodes: seq<SchedNode>)
    ensures Wired(GraphOf(insts), nodes) && Costed(GraphOf(insts), nodes)
    ensures fresh(nodes) && Insts(nodes) == insts
    ensures forall i :: 0 <= i < |nodes| ==> nodes[i].height == 0 && nodes[i].depth == 0 && !nodes[i].scheduled
  {
    ghost var g := GraphOf(insts);
    nodes := [];
    for i := 0 to |insts|
      invariant |nodes| == i && fresh(nodes)
      invariant forall k :: 0 <= k < i ==> nodes[k].id == k && nodes[k].inst == insts[k]
      invariant forall k :: 0 <= k < i ==> nodes[k].successors == [] && nodes[k].predecessors == []
      invariant forall k :: 0 <= k < i ==> nodes[k].height == 0 && nodes[k].depth == 0 && !nodes[k].scheduled
    {
      var node := new SchedNode(i, insts[i]);
      nodes := nodes + [node];
    }
    assert Insts(nodes) == insts;
    forall i: nat | i < g.n ensures CostAt(g, nodes, i) { }
    AddEdges(g, insts, nodes);
  }

  method AddEdges(ghost g: Dag, insts: Block, nodes: seq<SchedNode>)
    requires Numbered(g, nodes) && IsGraphOf(g, insts)
    requires forall k :: 0 <= k < g.n ==> nodes[k].successors == [] && nodes[k].predecessors == []
    modifies nodes`successors, nodes`predecessors
    ensures Wired(g, nodes)
  {
    NothingYet(g, nodes);
    for i := 0 to |nodes|
      invariant WiredUpTo(g, nodes, i, i + 1)
    {
      AddEdgesFrom(g, insts, nodes, i);
      RowFinished(g, nodes, i);
    }
    AllRowsFinished(g, nodes);
  }

  method AddEdgesFrom(ghost g: Dag, insts: Block, nodes: seq<SchedNode>, i: nat)
    requires IsGraphOf(g, insts) && i < g.n && WiredUpTo(g, nodes, i, i + 1)
    modifies nodes`successors, nodes`predecessors
    ensures WiredUpTo(g, nodes, i, g.n)
  {
    for j := i + 1 to |nodes|
      invariant WiredUpTo(g, nodes, i, j)
    {
      TreatPair(g, insts, nodes, i, j);
    }
  }

  lemma RowsComplete(g: Dag, k: nat)
    requires k < g.n
    ensures SuccsSoFar(g, k, g.n, g.n + 1) == Succs(g, k)
    ensures PredsSoFar(g, k, g.n, g.n + 1) == Preds(g, k)
  {
    NoLatePreds(g, k, g.n);
    NoLatePreds(g, k, g.n + 1);
  }

  lemma AllRowsFinished(g: Dag, nodes: seq<SchedNode>)
    requires WiredUpTo(g, nodes, g.n, g.n + 1)
    ensures Wired(g, nodes)
  {
    ghost var n1 := g.n + 1;
    forall k: nat | k < g.n ensures NodeWired(g, nodes, k) {
      RowsComplete(g, k);
      assert WiredAt(g, nodes, k, g.n, n1);
    }
  }

  lemma PairExtends(g: Dag, k: nat, i: nat, j: nat)
    requires i < j < g.n && k < g.n
    ensures SuccsSoFar(g, k, i, j + 1) == SuccsSoFar(g, k, i, j) + if k == i && Edge(g, i, j) then [j] else []
    ensures PredsSoFar(g, k, i, j + 1) == PredsSoFar(g, k, i, j) + if k == j && Edge(g, i, j) then [i] else []
  {
  }

  /** The body of the inner loop: decide about the pair (i, j) and record the edge. */
  method TreatPair(ghost g: Dag, insts: Block, nodes: seq<SchedNode>, i: nat, j: nat)
    requires IsGraphOf(g, insts) && i < j < |insts| && WiredUpTo(g, nodes, i, j)
    modifies nodes`successors, nodes`predecessors
    ensures WiredUpTo(g, nodes, i, j + 1)
  {
    var hasDep := false;
    if HasDataDependency(insts[i], insts[j]) {
      hasDep := true;
    }
    if HasMemoryDependency(insts[i], insts[j]) {
      hasDep := true;
    }
    if insts[i].terminator || insts[j].terminator {
      hasDep := true;
    }
    assert hasDep <==> HasEdge(insts, i, j);
    if hasDep {
      nodes[i].successors := nodes[i].successors + [nodes[j]];
      nodes[j].predecessors := nodes[j].predecessors + [nodes[i]];
    }
    ghost var next := j + 1;
    assert nodes[i].id == i && nodes[j].id == j;
    forall k: nat | k < g.n ensures WiredAt(g, nodes, k, i, next) {
      assert old(WiredAt(g, nodes, k, i, j)) && nodes[k].id == k;
      PairExtends(g, k, i, j);
    }
  }

  lemma NothingYet(g: Dag, nodes: seq<SchedNode>)
    requires Numbered(g, nodes)
    requires forall k :: 0 <= k < g.n ==> nodes[k].successors == [] && nodes[k].predecessors == []
    ensures WiredUpTo(g, nodes, 0, 1)
  {
    NoEarlySuccs(g, 0, 1);
    NoLatePreds(g, 0, 1);
  }

  lemma RowFinished(g: Dag, nodes: seq<SchedNode>, i: nat)
    requires i < g.n && WiredUpTo(g, nodes, i, g.n)
    ensures WiredUpTo(g, nodes, i + 1, i + 2)
  {
    var i1, i2 := i + 1, i + 2;
    NoEarlySuccs(g, i1, i2);
    forall k: nat | k < g.n ensures WiredAt(g, nodes, k, i1, i2) {
      assert WiredAt(g, nodes, k, i, g.n);
      if k < i2 {
        NoLatePreds(g, k, i1);
        NoLatePreds(g, k, i2);
      }
    }
  }

  // ---- Critical path ----

  ghost predicate InOrder(g: Dag, line: seq<nat>, t: nat)
    requires t < |line|
  {
    AllDone(g, line[t], line[..t])
  }

  /**
    The worklist: line lists the queued positions in queueing order, of which the first
    taken have left the queue. Nothing outside the line waits only for nodes already taken,
    except for those the exempt list still has to examine.
   */
  ghost predicate WorklistOk(g: Dag, visited: seq<bool>, line: seq<nat>, taken: nat, exempt: seq<nat>) {
    && |visited| == g.n && taken <= |line|
    && Distinct(line) && InRange(line, g.n)
    && (forall x: nat :: x < g.n ==> (visited[x] <==> x in line))
    && (forall t: nat :: t < |line| ==> InOrder(g, line, t))
    && (forall x: nat :: x < g.n && x !in line && x !in exempt ==> !AllDone(g, x, line[..taken]))
  }

  lemma EnqueueKeepsWorklist(g: Dag, visited: seq<bool>, line: seq<nat>, taken: nat, exempt: seq<nat>)
    requires exempt != [] && exempt[0] < g.n
    requires WorklistOk(g, visited, line, taken, exempt)
    requires !visited[exempt[0]] && AllDone(g, exempt[0], line)
    ensures WorklistOk(g, visited[exempt[0] := true], line + [exempt[0]], taken, exempt[1..])
  {
    var x := exempt[0];
    var line' := line + [x];
    assert line'[..taken] == line[..taken];
    assert forall y :: y in line' <==> y in line || y == x;
    LineGrows(g, line, x);
    forall y: nat | y < g.n && y !in line' && y !in exempt[1..] ensures !AllDone(g, y, line[..taken]) {
      assert y !in exempt;
    }
  }

  lemma LineGrows(g: Dag, line: seq<nat>, x: nat)
    requires Distinct(line) && x !in line && AllDone(g, x, line)
    requires forall t: nat :: t < |line| ==> InOrder(g, line, t)
    ensures Distinct(line + [x])
    ensures forall t: nat :: t < |line + [x]| ==> InOrder(g, line + [x], t)
  {
    var line' := line + [x];
    forall t: nat | t < |line'| ensures InOrder(g, line', t) {
      assert line'[..t] == line[..t];
      if t == |line| {
        assert line[..t] == line;
      } else {
        assert InOrder(g, line, t);
      }
    }
  }

  lemma SkipKeepsWorklist(g: Dag, visited: seq<bool>, line: seq<nat>, taken: nat, exempt: seq<nat>)
    requires exempt != [] && exempt[0] < g.n
    requires WorklistOk(g, visited, line, taken, exempt)
    requires visited[exempt[0]] || !AllDone(g, exempt[0], line)
    ensures WorklistOk(g, visited, line, taken, exempt[1..])
  {
    assert forall y :: y in exempt <==> y == exempt[0] || y in exempt[1..];
    assert forall y :: y in line[..taken] ==> y in line;
  }

  lemma TakeKeepsWorklist(g: Dag, visited: seq<bool>, line: seq<nat>, taken: nat)
    requires WorklistOk(g, visited, line, taken, []) && taken < |line|
    ensures WorklistOk(g, visited, line, taken + 1, Succs(g, line[taken]))
  {
    var k := line[taken];
    assert line[..taken + 1] == line[..taken] + [k];
    forall x: nat | x < g.n && x !in line && x !in Succs(g, k) ensures !AllDone(g, x, line[..taken + 1]) {
      assert !AllDone(g, x, line[..taken]);
      var p :| p in Preds(g, x) && p !in line[..taken];
      PredsMembers(g, x);
      SuccsMembers(g, k);
      assert p != k;
    }
  }

  lemma MissingIsReady(g: Dag, line: seq<nat>) returns (x: nat)
    requires Distinct(line) && InRange(line, g.n) && |line| < g.n
    ensures IsReady(g, x, line)
  {
    x := FirstMissing(line, g.n);
    PredsMembers(g, x);
  }

  /** When the queue runs empty, everything has been through it, predecessors first. */
  lemma EmptyQueueMeansAllTaken(g: Dag, visited: seq<bool>, line: seq<nat>)
    requires WorklistOk(g, visited, line, |line|, [])
    ensures LinearExtension(g, line)
  {
    assert line[..|line|] == line;
    DistinctSize(line, g.n);
    if |line| < g.n {
      var x := MissingIsReady(g, line);
      assert false;
    }
    forall s, t | 0 <= s < t < |line| ensures !Edge(g, line[t], line[s]) {
      assert InOrder(g, line, s);
      PredsMembers(g, line[s]);
      assert line[t] !in line[..s];
    }
  }

  /** A node never precedes a predecessor in the line, so successors of the head are still queued or outside. */
  lemma SuccessorsNotTaken(g: Dag, visited: seq<bool>, line: seq<nat>, taken: nat, exempt: seq<nat>, y: nat)
    requires WorklistOk(g, visited, line, taken, exempt) && 0 < taken
    requires Edge(g, line[taken - 1], y)
    ensures y !in line[..taken]
  {
    PredsMembers(g, y);
    forall t | 0 <= t < taken ensures line[t] != y {
      assert InOrder(g, line, t);
      assert line[taken - 1] !in line[..t];
    }
  }

  ghost predicate Attained(g: Dag, i: nat, d: int) {
    exists p :: Path(g, p) && Last(p) == i && Total(g, p[..|p| - 1]) == d
  }

  lemma AttainedFurther(g: Dag, i: nat, j: nat, d: int)
    requires Attained(g, i, d) && Edge(g, i, j)
    ensures Attained(g, j, d + g.cost(i))
  {
    var p :| Path(g, p) && Last(p) == i && Total(g, p[..|p| - 1]) == d;
    PathAppend(g, p, j);
  }

  lemma AttainedAtOnce(g: Dag, i: nat)
    requires i < g.n
    ensures Attained(g, i, 0)
  {
    var p: seq<nat> := [i];
    assert Path(g, p) && Last(p) == i && p[..|p| - 1] == [];
  }

  lemma {:induction false} RelaxedBoundsPaths(g: Dag, depths: seq<int>, p: seq<nat>)
    requires |depths| == g.n && Path(g, p)
    requires forall i :: 0 <= i < g.n ==> depths[i] >= 0
    requires forall i: nat, j: nat :: Edge(g, i, j) ==> depths[j] >= depths[i] + g.cost(i)
    ensures Total(g, p[..|p| - 1]) <= depths[Last(p)]
    decreases |p|
  {
    if |p| > 1 {
      var q := p[..|p| - 1];
      RelaxedBoundsPaths(g, depths, q);
      assert Edge(g, Last(q), Last(p));
    }
  }

  /** Position of a node, found by comparing addresses. */
  method IndexOf(ghost g: Dag, nodes: seq<SchedNode>, node: SchedNode) returns (i: nat)
    requires Numbered(g, nodes) && node in nodes
    ensures i < |nodes| && nodes[i] == node && i == node.id
  {
    i := 0;
    while nodes[i] != node
      invariant i < |nodes| && forall k :: 0 <= k < i ==> nodes[k] != node
      decreases |nodes| - i
    {
      i := i + 1;
    }
  }

  method AllVisited(ghost g: Dag, nodes: seq<SchedNode>, j: nat, visited: seq<bool>, ghost line: seq<nat>)
    returns (all: bool)
    requires Wired(g, nodes) && j < g.n && |visited| == g.n
    requires forall x: nat :: x < g.n ==> (visited[x] <==> x in line)
    ensures all <==> AllDone(g, j, line)
  {
    assert NodeWired(g, nodes, j);
    var preds := nodes[j].predecessors;
    for k := 0 to |preds|
      invariant forall t :: 0 <= t < k ==> Preds(g, j)[t] in line
    {
      var i := IndexOf(g, nodes, preds[k]);
      if !visited[i] {
        assert Preds(g, j)[k] in Preds(g, j);
        return false;
      }
    }
    return true;
  }

  ghost predicate DepthsAttained(g: Dag, nodes: seq<SchedNode>)
    reads nodes`depth
  {
    && Numbered(g, nodes)
    && forall x :: 0 <= x < g.n ==> nodes[x].depth >= 0 && Attained(g, x, nodes[x].depth)
  }

  ghost function Depths(nodes: seq<SchedNode>): (d: seq<int>)
    reads nodes
    ensures |d| == |nodes| && forall i :: 0 <= i < |d| ==> d[i] == nodes[i].depth
  {
    seq(|nodes|, i requires 0 <= i < |nodes| reads nodes => nodes[i].depth)
  }

  /** All edges leaving x carry its depth on to their targets. */
  ghost predicate RelaxedIn(g: Dag, depths: seq<int>, x: nat)
    requires |depths| == g.n && x < g.n
  {
    forall t :: 0 <= t < |Succs(g, x)| ==> depths[Succs(g, x)[t]] >= depths[x] + g.cost(x)
  }

  ghost predicate Relaxed(g: Dag, nodes: seq<SchedNode>, x: nat)
    requires Numbered(g, nodes) && x < g.n
    reads nodes
  {
    RelaxedIn(g, Depths(nodes), x)
  }

  /** Raises the depth of one successor if the path through idx is longer. */
  method RelaxEdge(ghost g: Dag, nodes: seq<SchedNode>, idx: nat, succ: SchedNode)
    requires Costed(g, nodes)
    requires Wired(g, nodes) && DepthsAttained(g, nodes)
    requires idx < g.n && succ.id in Succs(g, idx) && succ.id < g.n && succ == nodes[succ.id]
    modifies succ`depth
    ensures Wired(g, nodes) && DepthsAttained(g, nodes)
    ensures succ.depth == old(Max(succ.depth, nodes[idx].depth + g.cost(idx)))
  {
    assert CostAt(g, nodes, idx);
    assert Attained(g, succ.id, nodes[idx].depth + g.cost(idx)) by {
      SuccsMembers(g, idx);
      AttainedFurther(g, idx, succ.id, nodes[idx].depth);
    }
    var newDepth := nodes[idx].depth + Latency(nodes[idx].inst.opcode);
    if newDepth > succ.depth {
      succ.depth := newDepth;
    }
  }

  /** Queues the next successor unless it is queued already or still waits for another predecessor. */
  method Offer(ghost g: Dag, nodes: seq<SchedNode>, succ: SchedNode, visited0: seq<bool>, queue0: seq<nat>,
               ghost line0: seq<nat>, ghost taken: nat, ghost exempt: seq<nat>)
    returns (visited: seq<bool>, queue: seq<nat>, ghost line: seq<nat>)
    requires Wired(g, nodes) && exempt != [] && exempt[0] < g.n && succ == nodes[exempt[0]]
    requires WorklistOk(g, visited0, line0, taken, exempt) && queue0 == line0[taken..]
    ensures Wired(g, nodes)
    ensures WorklistOk(g, visited, line, taken, exempt[1..]) && queue == line[taken..] && line0 <= line
  {
    visited, queue, line := visited0, queue0, line0;
    var i := IndexOf(g, nodes, succ);
    if !visited[i] {
      var allPredsDone := AllVisited(g, nodes, i, visited, line);
      if allPredsDone {
        EnqueueKeepsWorklist(g, visited, line, taken, exempt);
        queue := queue + [i];
        visited := visited[i := true];
        line := line + [i];
        return;
      }
    }
    SkipKeepsWorklist(g, visited, line, taken, exempt);
  }

  /** Depths of settled nodes stayed, all others only grew, and idx passed its depth on to its first k successors. */
  ghost predicate Passed(g: Dag, before: seq<int>, now: seq<int>, idx: nat, settled: seq<nat>, k: nat) {
    && |before| == |now| == g.n && idx < g.n && InRange(settled, g.n) && k <= |Succs(g, idx)|
    && (forall x :: x in settled ==> now[x] == before[x])
    && (forall y :: 0 <= y < g.n ==> now[y] >= before[y])
    && (forall t :: 0 <= t < k ==> now[Succs(g, idx)[t]] >= before[idx] + g.cost(idx))
  }

  lemma PassOn(g: Dag, before: seq<int>, now: seq<int>, idx: nat, settled: seq<nat>, k: nat)
    requires Passed(g, before, now, idx, settled, k) && idx in settled
    requires k < |Succs(g, idx)| && Succs(g, idx)[k] !in settled
    ensures var y := Succs(g, idx)[k];
            Passed(g, before, now[y := Max(now[y], now[idx] + g.cost(idx))], idx, settled, k + 1)
  {
  }

  /** The body of the successor loop: the k-th successor of idx. */
  method VisitSuccessor(ghost g: Dag, nodes: seq<SchedNode>, idx: nat, succ: SchedNode,
                        visited0: seq<bool>, queue0: seq<nat>, ghost line0: seq<nat>, ghost taken: nat,
                        ghost settled: seq<nat>, ghost before: seq<int>, ghost k: nat)
    returns (visited: seq<bool>, queue: seq<nat>, ghost line: seq<nat>)
    requires Costed(g, nodes)
    requires Wired(g, nodes) && DepthsAttained(g, nodes)
    requires Passed(g, before, Depths(nodes), idx, settled, k) && idx in settled
    requires k < |Succs(g, idx)| && Succs(g, idx)[k] !in settled && succ == nodes[Succs(g, idx)[k]]
    requires WorklistOk(g, visited0, line0, taken, Succs(g, idx)[k..]) && queue0 == line0[taken..]
    modifies succ`depth
    ensures Wired(g, nodes) && DepthsAttained(g, nodes)
    ensures Passed(g, before, Depths(nodes), idx, settled, k + 1)
    ensures WorklistOk(g, visited, line, taken, Succs(g, idx)[k + 1..]) && queue == line[taken..] && line0 <= line
  {
    ghost var targets := Succs(g, idx);
    ghost var y := targets[k];
    assert y in targets && targets[k..][0] == y && targets[k..][1..] == targets[k + 1..];
    ghost var after := Depths(nodes)[y := Max(nodes[y].depth, nodes[idx].depth + g.cost(idx))];
    assert Passed(g, before, after, idx, settled, k + 1) by {
      PassOn(g, before, Depths(nodes), idx, settled, k);
    }
    RelaxEdge(g, nodes, idx, succ);
    assert Numbered(g, nodes) && nodes[y].id == y;
    assert Depths(nodes) == after;
    visited, queue, line := Offer(g, nodes, succ, visited0, queue0, line0, taken, targets[k..]);
  }

  /** Passes the depth of the node just taken on to its successors and queues those that became complete. */
  method VisitSuccessors(ghost g: Dag, nodes: seq<SchedNode>, idx: nat, visited0: seq<bool>, queue0: seq<nat>,
                         ghost line0: seq<nat>, ghost taken: nat)
    returns (visited: seq<bool>, queue: seq<nat>, ghost line: seq<nat>)
    requires Costed(g, nodes)
    requires Wired(g, nodes) && DepthsAttained(g, nodes)
    requires WorklistOk(g, visited0, line0, taken, Succs(g, idx)) && queue0 == line0[taken..]
    requires 0 < taken && idx == line0[taken - 1]
    modifies nodes`depth
    ensures DepthsAttained(g, nodes)
    ensures WorklistOk(g, visited, line, taken, []) && queue == line[taken..] && line0 <= line
    ensures Passed(g, old(Depths(nodes)), Depths(nodes), idx, line0[..taken], |Succs(g, idx)|)
  {
    visited, queue, line := visited0, queue0, line0;
    var succs := nodes[idx].successors;
    ghost var before := Depths(nodes);
    SettledApart(g, visited0, line0, taken);
    assert Succs(g, idx)[0..] == Succs(g, idx);
    assert NodeWired(g, nodes, idx);
    for k := 0 to |succs|
      invariant Wired(g, nodes) && DepthsAttained(g, nodes)
      invariant WorklistOk(g, visited, line, taken, Succs(g, idx)[k..]) && queue == line[taken..] && line0 <= line
      invariant Passed(g, before, Depths(nodes), idx, line0[..taken], k)
    {
      assert Succs(g, idx)[k] in Succs(g, idx);
      visited, queue, line :=
        VisitSuccessor(g, nodes, idx, succs[k], visited, queue, line, taken, line0[..taken], before, k);
    }
    assert Succs(g, idx)[|succs|..] == [];
  }

  lemma SettledApart(g: Dag, visited: seq<bool>, line: seq<nat>, taken: nat)
    requires 0 < taken <= |line| && WorklistOk(g, visited, line, taken, Succs(g, line[taken - 1]))
    ensures line[taken - 1] in line[..taken]
    ensures forall y :: y in Succs(g, line[taken - 1]) ==> y !in line[..taken]
  {
    assert line[..taken][taken - 1] == line[taken - 1];
    SuccsMembers(g, line[taken - 1]);
    forall y | y in Succs(g, line[taken - 1]) ensures y !in line[..taken] {
      SuccessorsNotTaken(g, visited, line, taken, Succs(g, line[taken - 1]), y);
    }
  }

  lemma StillRelaxed(g: Dag, before: seq<int>, after: seq<int>, x: nat)
    requires |before| == |after| == g.n && x < g.n && RelaxedIn(g, before, x)
    requires after[x] == before[x]
    requires forall y :: 0 <= y < g.n ==> after[y] >= before[y]
    ensures RelaxedIn(g, after, x)
  {
  }

  lemma VisitRelaxes(g: Dag, before: seq<int>, after: seq<int>, line: seq<nat>, taken: nat)
    requires |before| == g.n && 0 < taken <= |line| && InRange(line, g.n)
    requires forall x :: x in line[..taken - 1] ==> RelaxedIn(g, before, x)
    requires Passed(g, before, after, line[taken - 1], line[..taken], |Succs(g, line[taken - 1])|)
    ensures forall x :: x in line[..taken] ==> RelaxedIn(g, after, x)
  {
    forall x | x in line[..taken] ensures RelaxedIn(g, after, x) {
      if x != line[taken - 1] {
        assert x in line[..taken - 1];
        StillRelaxed(g, before, after, x);
      }
    }
  }

  /**
    Forward pass: every depth becomes the longest latency sum over the paths reaching the node.
    The worklist hands out every node, none before its predecessors.
   */
  method ComputeDepths(ghost g: Dag, nodes: seq<SchedNode>) returns (ghost line: seq<nat>)
    requires Costed(g, nodes)
    requires Wired(g, nodes)
    requires forall i :: 0 <= i < g.n ==> nodes[i].depth == 0
    modifies nodes`depth
    ensures forall i: nat :: i < g.n ==> IsDepth(g, i, nodes[i].depth)
    ensures LinearExtension(g, line)
  {
    for i := 0 to |nodes|
      invariant forall k :: 0 <= k < g.n ==> nodes[k].depth == 0
    {
      if nodes[i].predecessors == [] {
        nodes[i].depth := 0;
      }
    }
    var visited, queue;
    visited, queue, line := QueueRoots(g, nodes);
    ghost var taken := 0;
    StartDepths(g, nodes);
    while queue != []
      invariant DepthsAttained(g, nodes)
      invariant WorklistOk(g, visited, line, taken, []) && queue == line[taken..]
      invariant forall x :: x in line[..taken] ==> Relaxed(g, nodes, x)
      decreases g.n - taken
    {
      var idx := queue[0];
      queue := queue[1..];
      ghost var before, line0 := Depths(nodes), line;
      TakeKeepsWorklist(g, visited, line, taken);
      taken := taken + 1;
      DistinctSize(line, g.n);
      visited, queue, line := VisitSuccessors(g, nodes, idx, visited, queue, line, taken);
      VisitRelaxes(g, before, Depths(nodes), line0, taken);
      assert line[..taken] == line0[..taken];
    }
    assert line[..|line|] == line;
    EmptyQueueMeansAllTaken(g, visited, line);
    RelaxedEverywhere(g, nodes);
  }

  method QueueRoots(ghost g: Dag, nodes: seq<SchedNode>)
    returns (visited: seq<bool>, queue: seq<nat>, ghost line: seq<nat>)
    requires Wired(g, nodes)
    ensures WorklistOk(g, visited, line, 0, []) && queue == line
  {
    visited := seq(|nodes|, _ => false);
    queue := [];
    for i := 0 to |nodes|
      invariant |visited| == g.n
      invariant forall x: nat :: x < g.n ==> (visited[x] <==> x < i && Preds(g, x) == [])
      invariant queue == RootsUpTo(g, i)
    {
      assert NodeWired(g, nodes, i);
      if nodes[i].predecessors == [] {
        queue := queue + [i];
        visited := visited[i := true];
      }
    }
    line := queue;
    RootsStartWorklist(g, visited);
    assert line[0..] == line;
  }

  lemma RootsStartWorklist(g: Dag, visited: seq<bool>)
    requires |visited| == g.n
    requires forall x: nat :: x < g.n ==> (visited[x] <==> Preds(g, x) == [])
    ensures WorklistOk(g, visited, RootsUpTo(g, g.n), 0, [])
  {
    var line := RootsUpTo(g, g.n);
    RootsAreReady(g);
    RootsUpToMembers(g, g.n);
    assert line[..0] == [];
    forall t: nat | t < |line| ensures line[t] < g.n && InOrder(g, line, t) {
      assert line[t] in line;
      assert IsReady(g, line[t], []);
    }
  }

  lemma StartDepths(g: Dag, nodes: seq<SchedNode>)
    requires Numbered(g, nodes) && forall i :: 0 <= i < g.n ==> nodes[i].depth == 0
    ensures DepthsAttained(g, nodes)
  {
    forall x: nat | x < g.n ensures Attained(g, x, 0) {
      AttainedAtOnce(g, x);
    }
  }

  lemma RelaxedEverywhere(g: Dag, nodes: seq<SchedNode>)
    requires DepthsAttained(g, nodes)
    requires forall x: nat :: x < g.n ==> Relaxed(g, nodes, x)
    ensures forall i: nat :: i < g.n ==> IsDepth(g, i, nodes[i].depth)
  {
    var d := Depths(nodes);
    forall i: nat, j: nat | Edge(g, i, j) ensures d[j] >= d[i] + g.cost(i) {
      SuccsMembers(g, i);
      assert Relaxed(g, nodes, i);
    }
    forall i: nat | i < g.n ensures IsDepth(g, i, nodes[i].depth) {
      assert Attained(g, i, nodes[i].depth);
      forall p | Path(g, p) && Last(p) == i ensures Total(g, p[..|p| - 1]) <= d[i] {
        RelaxedBoundsPaths(g, d, p);
      }
    }
  }

  ghost predicate HeightAttained(g: Dag, i: nat, h: int) {
    exists p :: Path(g, p) && First(p) == i && Total(g, p) == h
  }

  lemma HeightOfOneNode(g: Dag, i: nat)
    requires i < g.n
    ensures HeightAttained(g, i, g.cost(i))
  {
    var p: seq<nat> := [i];
    assert p[..0] == [] && Path(g, p) && First(p) == i;
    assert Total(g, p) == Total(g, p[..0]) + g.cost(Last(p));
  }

  lemma HeightThroughSuccessor(g: Dag, i: nat, j: nat, h: int)
    requires HeightAttained(g, j, h) && Edge(g, i, j)
    ensures HeightAttained(g, i, h + g.cost(i))
  {
    var p :| Path(g, p) && First(p) == j && Total(g, p) == h;
    PathPrepend(g, i, p);
  }

  /** A height that dominates the node itself and every successor dominates every path. */
  lemma HeightFromSuccessors(g: Dag, i: nat, heights: seq<int>, h: int)
    requires i < g.n && |heights| == g.n
    requires forall j: nat :: i < j < g.n ==> IsHeight(g, j, heights[j])
    requires HeightAttained(g, i, h) && h >= g.cost(i)
    requires forall j: nat :: Edge(g, i, j) ==> h >= heights[j] + g.cost(i)
    ensures IsHeight(g, i, h)
  {
    forall p | Path(g, p) && First(p) == i ensures Total(g, p) <= h {
      assert p == [i] + p[1..];
      TotalPrepend(g, i, p[1..]);
      if |p| > 1 {
        assert Edge(g, p[0], p[1]);
        assert Path(g, p[1..]) && First(p[1..]) == p[1];
      }
    }
  }

  ghost function Heights(nodes: seq<SchedNode>): (h: seq<int>)
    reads nodes
    ensures |h| == |nodes| && forall i :: 0 <= i < |h| ==> h[i] == nodes[i].height
  {
    seq(|nodes|, i requires 0 <= i < |nodes| reads nodes => nodes[i].height)
  }

  /** Backward pass for one node whose successors already have their heights. */
  method ComputeHeight(ghost g: Dag, nodes: seq<SchedNode>, ghost i: nat, node: SchedNode)
    requires Costed(g, nodes)
    requires Wired(g, nodes) && i < g.n && node == nodes[i]
    requires forall j: nat :: i < j < g.n ==> IsHeight(g, j, nodes[j].height)
    requires nodes[i].height == 0 || nodes[i].height == g.cost(i)
    modifies node`height
    ensures IsHeight(g, i, nodes[i].height)
  {
    assert CostAt(g, nodes, i) && NodeWired(g, nodes, i);
    ghost var heights, targets := Heights(nodes), Succs(g, i);
    SuccsMembers(g, i);
    HeightOfOneNode(g, i);
    var latency := Latency(node.inst.opcode);
    for t := 0 to |node.successors|
      invariant node.height == 0 || HeightAttained(g, i, node.height)
      invariant forall u :: 0 <= u < t ==> node.height >= heights[targets[u]] + latency
    {
      ghost var j := targets[t];
      assert j in targets && nodes[j].id == j && nodes[i].id == i;
      assert IsHeight(g, j, heights[j]);
      HeightThroughSuccessor(g, i, j, heights[j]);
      var newHeight := node.successors[t].height + latency;
      if newHeight > node.height {
        node.height := newHeight;
      }
    }
    if node.height < latency {
      node.height := latency;
    }
    HeightFromSuccessors(g, i, heights, node.height);
  }

  /** Backward pass: every height becomes the longest latency sum over the paths leaving the node. */
  method ComputeHeights(ghost g: Dag, nodes: seq<SchedNode>)
    requires Costed(g, nodes)
    requires Wired(g, nodes)
    requires forall i :: 0 <= i < g.n ==> nodes[i].height == 0
    modifies nodes`height
    ensures AreHeights(g, Heights(nodes))
  {
    for i := 0 to |nodes|
      invariant forall k :: 0 <= k < g.n ==> nodes[k].height == 0 || nodes[k].height == g.cost(k)
    {
      assert CostAt(g, nodes, i);
      if nodes[i].successors == [] {
        nodes[i].height := Latency(nodes[i].inst.opcode);
      }
    }
    for i := |nodes| downto 0
      invariant forall k :: 0 <= k < i ==> nodes[k].height == 0 || nodes[k].height == g.cost(k)
      invariant forall j: nat :: i <= j < g.n ==> IsHeight(g, j, nodes[j].height)
    {
      assert forall k :: 0 <= k < g.n ==> nodes[k].id == k;
      ComputeHeight(g, nodes, i, nodes[i]);
    }
  }

  /** Longest path metrics in both directions. */
  method ComputeCriticalPath(ghost g: Dag, nodes: seq<SchedNode>)
    returns (ghost visits: seq<nat>, ghost heights: seq<int>)
    requires Costed(g, nodes)
    requires Wired(g, nodes)
    requires forall i :: 0 <= i < g.n ==> nodes[i].depth == 0 && nodes[i].height == 0
    modifies nodes`depth, nodes`height
    ensures forall i: nat :: i < g.n ==> IsDepth(g, i, nodes[i].depth)
    ensures AreHeights(g, heights) && HaveHeights(nodes, heights)
    ensures LinearExtension(g, visits)
  {
    visits := ComputeDepths(g, nodes);
    ComputeHeights(g, nodes);
    heights := Heights(nodes);
  }

  // ---- List scheduling ----

  /** The nodes marked as scheduled are those of the positions in done. */
  ghost predicate Marked(g: Dag, nodes: seq<SchedNode>, done: seq<nat>)
    requires |nodes| == g.n
    reads nodes`scheduled
  {
    forall x: nat :: x < g.n ==> (nodes[x].scheduled <==> x in done)
  }

  ghost predicate HaveHeights(nodes: seq<SchedNode>, heights: seq<int>)
    reads nodes`height
  {
    |heights| == |nodes| && forall i :: 0 <= i < |nodes| ==> nodes[i].height == heights[i]
  }

  /** Highest critical path first, higher latency among equals, the earliest listed among those. */
  method SelectNext(ghost g: Dag, ghost heights: seq<int>, nodes: seq<SchedNode>,
                    readyList: seq<SchedNode>, ghost ids: seq<nat>)
    returns (best: SchedNode?)
    requires Costed(g, nodes)
    requires Numbered(g, nodes) && HaveHeights(nodes, heights) && Links(nodes, readyList, ids)
    ensures best == null <==> readyList == []
    ensures best != null ==> best.id < g.n && best == nodes[best.id] && best.id in ids
                             && IsBest(g, heights, ids, best.id)
  {
    if readyList == [] {
      return null;
    }
    best := readyList[0];
    var bestPriority := best.height;
    ghost var at := 0;
    assert best == nodes[ids[0]] && CostAt(g, nodes, ids[0]);
    for i := 1 to |readyList|
      invariant at < i && best == readyList[at] && bestPriority == best.height
      invariant best.id == ids[at] && best.id < g.n
      invariant forall j :: 0 <= j < i ==> !Better(g, heights, ids[j], best.id)
      invariant forall j :: 0 <= j < at ==> Better(g, heights, best.id, ids[j])
    {
      var candidate := readyList[i];
      assert candidate.id == ids[i] && candidate == nodes[ids[i]];
      assert CostAt(g, nodes, ids[i]) && CostAt(g, nodes, best.id);
      var priority := candidate.height;
      if priority > bestPriority {
        best := candidate;
        bestPriority := priority;
        at := i;
      } else if priority == bestPriority {
        if Latency(candidate.inst.opcode) > Latency(best.inst.opcode) {
          best := candidate;
          at := i;
        }
      }
    }
    assert ids[at] in ids;
  }

  lemma {:induction false} WithoutAt(s: seq<nat>, k: nat, i: nat)
    requires i < |s| && s[i] == k && k !in s[..i]
    ensures Without(s, k) == s[..i] + s[i + 1..]
  {
    if i > 0 {
      assert s[0] in s[..i];
      assert s[1..][..i - 1] == s[..i][1..];
      WithoutAt(s[1..], k, i - 1);
    }
  }

  /** Finds a listed node and erases it. */
  method Erase(nodes: seq<SchedNode>, readyList: seq<SchedNode>, node: SchedNode, ghost ids: seq<nat>, ghost k: nat)
    returns (rest: seq<SchedNode>)
    requires Links(nodes, readyList, ids) && k in ids && k < |nodes| && node == nodes[k]
    requires forall i :: 0 <= i < |nodes| ==> nodes[i].id == i
    ensures Links(nodes, rest, Without(ids, k))
  {
    var i := 0;
    ghost var t :| 0 <= t < |ids| && ids[t] == k;
    while readyList[i] != node
      invariant i <= t < |readyList| && k !in ids[..i]
      decreases |readyList| - i
    {
      assert nodes[ids[i]].id == ids[i];
      i := i + 1;
    }
    assert nodes[ids[i]].id == ids[i] == k;
    WithoutAt(ids, k, i);
    rest := readyList[..i] + readyList[i + 1..];
  }

  method AllScheduled(ghost g: Dag, nodes: seq<SchedNode>, ghost j: nat, node: SchedNode, ghost done: seq<nat>)
    returns (all: bool)
    requires Wired(g, nodes) && Marked(g, nodes, done) && j < g.n && node == nodes[j]
    ensures all <==> AllDone(g, j, done)
  {
    assert NodeWired(g, nodes, j);
    for k := 0 to |node.predecessors|
      invariant forall t :: 0 <= t < k ==> Preds(g, j)[t] in done
    {
      assert Preds(g, j)[k] in Preds(g, j);
      if !node.predecessors[k].scheduled {
        return false;
      }
    }
    return true;
  }

  /** Lists the successors of the node just scheduled that wait for nothing else. */
  method UpdateReadyList(ghost g: Dag, nodes: seq<SchedNode>, readyList: seq<SchedNode>, ghost ids: seq<nat>,
                         ghost k: nat, node: SchedNode, ghost done: seq<nat>)
    returns (ready: seq<SchedNode>, ghost readyIds: seq<nat>)
    requires Wired(g, nodes) && Marked(g, nodes, done) && Links(nodes, readyList, ids)
    requires k < g.n && node == nodes[k]
    ensures Links(nodes, ready, readyIds) && readyIds == AddReady(g, ids, done, Succs(g, k))
  {
    ready, readyIds := readyList, ids;
    assert NodeWired(g, nodes, k);
    ghost var targets := Succs(g, k);
    for i := 0 to |node.successors|
      invariant Links(nodes, ready, readyIds) && readyIds == AddReady(g, ids, done, targets[..i])
    {
      var succ := node.successors[i];
      ghost var y := targets[i];
      assert targets[..i + 1][..i] == targets[..i];
      if !succ.scheduled {
        var allPredsDone := AllScheduled(g, nodes, y, succ, done);
        if allPredsDone {
          ListedById(g, nodes, ready, readyIds, y);
          if succ !in ready {
            ready := ready + [succ];
            readyIds := readyIds + [y];
          }
        }
      }
    }
    assert targets[..|node.successors|] == targets;
  }

  lemma ListedById(g: Dag, nodes: seq<SchedNode>, list: seq<SchedNode>, ids: seq<nat>, y: nat)
    requires Numbered(g, nodes) && Links(nodes, list, ids) && y < g.n
    ensures nodes[y] in list <==> y in ids
  {
    if nodes[y] in list {
      var t :| 0 <= t < |list| && list[t] == nodes[y];
      assert nodes[ids[t]].id == ids[t] && nodes[y].id == y;
      assert ids[t] in ids;
    }
  }

  method CollectRoots(ghost g: Dag, nodes: seq<SchedNode>) returns (ready: seq<SchedNode>)
    requires Wired(g, nodes)
    ensures Links(nodes, ready, RootsUpTo(g, g.n))
  {
    ready := [];
    for i := 0 to |nodes|
      invariant Links(nodes, ready, RootsUpTo(g, i))
    {
      assert NodeWired(g, nodes, i);
      if nodes[i].predecessors == [] {
        ready := ready + [nodes[i]];
      }
    }
  }

  /** What holds between two picks: the list is the ready list of the order issued so far. */
  ghost predicate Scheduling(g: Dag, heights: seq<int>, nodes: seq<SchedNode>, order: seq<nat>,
                             readyList: seq<SchedNode>, scheduled: seq<MachineInstr>)
    reads nodes`successors, nodes`predecessors, nodes`height, nodes`scheduled
  {
    && Wired(g, nodes) && HaveHeights(nodes, heights)
    && IsGreedyPrefix(g, heights, order)
    && Marked(g, nodes, order)
    && Links(nodes, readyList, ReadyAfter(g, order))
    && scheduled == Pick(Insts(nodes), order)
  }

  /** One round: pick a node, append its instruction, and bring the ready list up to date. */
  method IssueNext(ghost g: Dag, ghost heights: seq<int>, nodes: seq<SchedNode>, ghost order: seq<nat>,
                   readyList: seq<SchedNode>, scheduled: seq<MachineInstr>, currentCycle: int)
    returns (ready: seq<SchedNode>, out: seq<MachineInstr>, best: SchedNode)
    requires Costed(g, nodes)
    requires Scheduling(g, heights, nodes, order, readyList, scheduled) && |order| < g.n
    modifies nodes`scheduled, nodes`earliestCycle
    ensures Scheduling(g, heights, nodes, order + [best.id], ready, out)
    ensures best.id < g.n && best == nodes[best.id] && best.earliestCycle == currentCycle
    ensures forall x: nat :: x < g.n && x != best.id ==> nodes[x].earliestCycle == old(nodes[x].earliestCycle)
  {
    best := ChooseNext(g, heights, nodes, order, readyList);
    out := scheduled + [best.inst];
    PickOneMore(Insts(nodes), order, best.id);
    MarkOne(g, heights, nodes, order, best, currentCycle);
    ready := Refresh(g, heights, nodes, order, readyList, best);
  }

  /** Takes the issued node off the list and adds what it made ready. */
  method Refresh(ghost g: Dag, ghost heights: seq<int>, nodes: seq<SchedNode>, ghost order: seq<nat>,
                 readyList: seq<SchedNode>, best: SchedNode)
    returns (ready: seq<SchedNode>)
    requires Wired(g, nodes) && HaveHeights(nodes, heights) && InRange(order, g.n)
    requires best.id < g.n && best == nodes[best.id]
    requires Links(nodes, readyList, ReadyAfter(g, order)) && best.id in ReadyAfter(g, order)
    requires Marked(g, nodes, order + [best.id])
    ensures Wired(g, nodes) && HaveHeights(nodes, heights) && Marked(g, nodes, order + [best.id])
    ensures Links(nodes, ready, ReadyAfter(g, order + [best.id]))
  {
    ghost var k, longer := best.id, order + [best.id];
    assert longer[..|order|] == order;
    ready := Erase(nodes, readyList, best, ReadyAfter(g, order), k);
    ghost var readyIds;
    ready, readyIds := UpdateReadyList(g, nodes, ready, Without(ReadyAfter(g, order), k), k, best, longer);
  }

  /** The pick of one round: while work remains the ready list is never empty. */
  method ChooseNext(ghost g: Dag, ghost heights: seq<int>, nodes: seq<SchedNode>, ghost order: seq<nat>,
                    readyList: seq<SchedNode>)
    returns (best: SchedNode)
    requires Costed(g, nodes)
    requires Numbered(g, nodes) && HaveHeights(nodes, heights)
    requires IsGreedyPrefix(g, heights, order) && |order| < g.n
    requires Links(nodes, readyList, ReadyAfter(g, order))
    ensures best.id < g.n && best == nodes[best.id] && best.id in ReadyAfter(g, order)
    ensures IsGreedyPrefix(g, heights, order + [best.id])
  {
    SomethingIsReady(g, heights, order);
    var candidate := SelectNext(g, heights, nodes, readyList, ReadyAfter(g, order));
    best := candidate;
    LongerOrder(g, heights, order, best.id);
  }

  lemma LongerOrder(g: Dag, heights: seq<int>, order: seq<nat>, k: nat)
    requires IsGreedyPrefix(g, heights, order) && IsBest(g, heights, ReadyAfter(g, order), k) && k < g.n
    ensures IsGreedyPrefix(g, heights, order + [k])
  {
    assert (order + [k])[..|order|] == order;
  }

  method MarkOne(ghost g: Dag, ghost heights: seq<int>, nodes: seq<SchedNode>, ghost order: seq<nat>,
                 best: SchedNode, currentCycle: int)
    requires Wired(g, nodes) && HaveHeights(nodes, heights) && Marked(g, nodes, order)
    requires best.id < g.n && best == nodes[best.id]
    modifies best`scheduled, best`earliestCycle
    ensures Wired(g, nodes) && HaveHeights(nodes, heights)
    ensures Marked(g, nodes, order + [best.id]) && best.earliestCycle == currentCycle
    ensures forall x: nat :: x < g.n && x != best.id ==> nodes[x].earliestCycle == old(nodes[x].earliestCycle)
  {
    best.scheduled := true;
    best.earliestCycle := currentCycle;
    assert forall x: nat :: x < g.n ==> nodes[x].id == x;
    assert forall x :: x in order + [best.id] <==> x in order || x == best.id;
  }

  /**
    Issues the whole block. Some node is ready as long as work remains, so there is never a round that
    has to advance the cycle and search again: every node is issued in cycle 0.
   */
  method ListScheduling(ghost g: Dag, ghost heights: seq<int>, nodes: seq<SchedNode>)
    returns (scheduled: seq<MachineInstr>, ghost order: seq<nat>)
    requires Costed(g, nodes)
    requires Wired(g, nodes) && HaveHeights(nodes, heights)
    requires forall i :: 0 <= i < g.n ==> !nodes[i].scheduled
    modifies nodes`scheduled, nodes`earliestCycle
    ensures IsGreedy(g, heights, order)
    ensures scheduled == Pick(Insts(nodes), order)
    ensures forall i: nat :: i < g.n ==> nodes[i].scheduled && nodes[i].earliestCycle == 0
  {
    scheduled, order := [], [];
    var readyList := CollectRoots(g, nodes);
    var currentCycle := 0;
    while |scheduled| < |nodes|
      invariant Scheduling(g, heights, nodes, order, readyList, scheduled) && |order| <= g.n
      invariant forall x: nat :: x < g.n && x in order ==> nodes[x].earliestCycle == 0
    {
      var best;
      readyList, scheduled, best := IssueNext(g, heights, nodes, order, readyList, scheduled, currentCycle);
      order := order + [best.id];
    }
    GreedyIsLegal(g, heights, order);
  }

  // ---- The pass ----

  method ScheduleBlock(insts: Block) returns (scheduled: Block)
    ensures IsScheduleOf(insts, scheduled)
  {
    ghost var g := GraphOf(insts);
    var nodes := BuildDependencyGraph(insts);
    ghost var visits, heights := ComputeCriticalPath(g, nodes);
    ghost var order;
    scheduled, order := ListScheduling(g, heights, nodes);
  }

  /** Schedules every block on its own; empty blocks and all names stay as they are. */
  method Schedule(fn: MachineFunction) returns (result: MachineFunction)
    ensures result.name == fn.name && |result.blocks| == |fn.blocks|
    ensures forall i :: 0 <= i < |fn.blocks| ==>
              && result.blocks[i].name == fn.blocks[i].name
              && IsScheduleOf(fn.blocks[i].instructions, result.blocks[i].instructions)
  {
    result := fn;
    for i := 0 to |result.blocks|
      invariant result.name == fn.name && |result.blocks| == |fn.blocks|
      invariant forall k :: i <= k < |fn.blocks| ==> result.blocks[k] == fn.blocks[k]
      invariant forall k :: 0 <= k < i ==>
                  && result.blocks[k].name == fn.blocks[k].name
                  && IsScheduleOf(fn.blocks[k].instructions, result.blocks[k].instructions)
    {
      var block := result.blocks[i];
      if block.instructions == [] {
        EmptyBlockIsScheduled();
        continue;
      }
      var scheduled := ScheduleBlock(block.instructions);
      result := result.(blocks := result.blocks[i := block.(instructions := scheduled)]);
    }
  }

  lemma EmptyBlockIsScheduled()
    ensures IsScheduleOf([], [])
  {
    var heights: seq<int>, order: seq<nat> := [], [];
    assert AreHeights(GraphOf([]), heights) && IsGreedy(GraphOf([]), heights, order) &&
      [] == Pick<MachineInstr>([], order);
  }
}

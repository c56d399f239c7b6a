/**
  Blocks the scheduler gets wrong. The graph has no edge from a read to a later write of the same
  register and none between calls and memory accesses, so outside covered blocks the meaning can change.
 */
module Hazards {
  import opened Options
  import opened MachineIR
  import opened Meaning
  import opened Sequences
  import opened Dags
  import opened DependencyGraph
  import opened GreedyOrder
  import opened Exchanges

  lemma PathStart(g: Dag, p: seq<nat>) returns (j: nat)
    requires Path(g, p) && |p| > 1
    ensures Edge(g, First(p), j)
  {
    j := p[1];
    assert p[1 - 1] == First(p);
  }

  lemma LoneHeight(g: Dag, i: nat, h: int)
    requires i < g.n && IsHeight(g, i, h)
    requires forall j: nat :: !Edge(g, i, j)
    ensures h == g.cost(i)
  {
    var p :| Path(g, p) && First(p) == i && Total(g, p) == h;
    if |p| > 1 {
      var j := PathStart(g, p);
      assert false;
    }
    assert p == [i] && p[..0] == [];
    assert Total(g, p) == Total(g, p[..0]) + g.cost(Last(p));
  }

  lemma {:induction false} NoEdgesNoPreds(g: Dag, i: nat, bound: nat)
    requires forall j: nat :: !Edge(g, j, i)
    ensures PredsUpTo(g, i, bound) == []
  {
    if bound > 0 { NoEdgesNoPreds(g, i, bound - 1); }
  }

  lemma CostlierNodeFirst(g: Dag, heights: seq<int>, order: seq<nat>)
    requires g.n == 2 && (forall i: nat, j: nat :: !Edge(g, i, j)) && g.cost(0) < g.cost(1)
    requires AreHeights(g, heights) && IsGreedy(g, heights, order)
    ensures order == [1, 0]
  {
    assert heights[1] > heights[0] by {
      LoneHeight(g, 0, heights[0]);
      LoneHeight(g, 1, heights[1]);
    }
    BothAreRoots(g);
    assert order[0] == 1 by {
      GreedyAt(g, heights, order, 0);
      assert order[..0] == [];
      BestIsNotWorse(g, heights, ReadyAfter(g, []), order[0], 1);
    }
    assert order[1] == 0 by {
      GreedyIsLegal(g, heights, order);
    }
  }

  lemma BothAreRoots(g: Dag)
    requires g.n == 2 && forall i: nat, j: nat :: !Edge(g, i, j)
    ensures 1 in ReadyAfter(g, [])
  {
    NoEdgesNoPreds(g, 1, 2);
    RootsUpToMembers(g, 2);
  }

  lemma BestIsNotWorse(g: Dag, heights: seq<int>, ready: seq<nat>, x: nat, y: nat)
    requires |heights| == g.n && IsBest(g, heights, ready, x) && x < g.n && y in ready && y < g.n
    ensures !Better(g, heights, y, x)
  {
  }

  /** Two unrelated instructions of which the second has the higher latency are always exchanged. */
  lemma SlowerInstructionGoesFirst(b: Block, out: seq<MachineInstr>)
    requires FreePair(b)
    requires IsScheduleOf(b, out)
    ensures out == [b[1], b[0]]
  {
    var g := GraphOf(b);
    var heights, order :| AreHeights(g, heights) && IsGreedy(g, heights, order) && out == Pick(b, order);
    assert order == [1, 0] by { OrderIsExchange(b, g, heights, order); }
    PickExchange(b, order);
  }

  lemma PickExchange(b: Block, order: seq<nat>)
    requires |b| == 2 && order == [1, 0]
    ensures Pick(b, order) == [b[1], b[0]]
  {
  }

  lemma OrderIsExchange(b: Block, g: Dag, heights: seq<int>, order: seq<nat>)
    requires |b| == 2 && !HasEdge(b, 0, 1) && Latency(b[0].opcode) < Latency(b[1].opcode)
    requires g == GraphOf(b) && AreHeights(g, heights) && IsGreedy(g, heights, order)
    ensures order == [1, 0]
  {
    NoEdgeAtAll(b);
    CostlierNodeFirst(g, heights, order);
  }

  lemma NoEdgeAtAll(b: Block)
    requires |b| == 2 && !HasEdge(b, 0, 1)
    ensures forall i: nat, j: nat :: !Edge(GraphOf(b), i, j)
  {
    forall i: nat, j: nat ensures !Edge(GraphOf(b), i, j) {
      assert i < j < 2 ==> i == 0 && j == 1;
    }
  }

  /** Additions, products and loads as usual; a call stores 1 at address 0. */
  function ExampleMachine(): Machine {
    Machine(
      (i: MachineInstr) => i.opcode == Load,
      (i: MachineInstr) => i.opcode == Call,
      (i: MachineInstr, v: seq<int>, mem: Option<Memory>) =>
        if i.opcode == Add && |v| >= 2 then v[0] + v[1]
        else if i.opcode == Mul && |v| >= 2 then v[0] * v[1]
        else if i.opcode == Load && |v| >= 1 && mem.Some? then Get(mem.value, v[0])
        else 0,
      (i: MachineInstr, v: seq<int>, mem: Memory) => mem[0 := 1],
      (i: MachineInstr, v: seq<int>, mem: Option<Memory>) => None)
  }

  /** r1 := r0 + r2; r0 := r2 * r2 */
  function WriteAfterRead(): Block {
    [MachineInstr(Add, 1, [0, 2], [], false), MachineInstr(Mul, 0, [2, 2], [], false)]
  }

  /** Nothing ties the first instruction to the second, which is the slower one. */
  predicate FreePair(b: Block) {
    |b| == 2 && !HasEdge(b, 0, 1) && Latency(b[0].opcode) < Latency(b[1].opcode)
  }

  lemma ExamplesAreFree(b: Block)
    requires b == WriteAfterRead() || b == CallThenLoad()
    ensures FreePair(b)
  {
  }

  lemma WriteAfterReadIsBroken(m: Machine, b: Block, out: seq<MachineInstr>, s: State)
    requires m == ExampleMachine() && b == WriteAfterRead() && s == State(map[0 := 5, 2 := 7], map[], None)
    requires IsScheduleOf(b, out)
    ensures Run(m, out, s) != Run(m, b, s)
  {
    assert out == [b[1], b[0]] by {
      ExamplesAreFree(b);
      SlowerInstructionGoesFirst(b, out);
    }
    assert Step(m, b[1], Step(m, b[0], s)) != Step(m, b[0], Step(m, b[1], s)) by {
      OriginalSum(s);
      ScheduledSum(s);
    }
    ExchangeShows(m, b, out, s);
  }

  lemma ExchangeShows(m: Machine, b: Block, out: Block, s: State)
    requires |b| == 2 && out == [b[1], b[0]]
    requires Step(m, b[1], Step(m, b[0], s)) != Step(m, b[0], Step(m, b[1], s))
    ensures Run(m, out, s) != Run(m, b, s)
  {
    RunTwo(m, b[0], b[1], s);
    RunTwo(m, b[1], b[0], s);
    assert b == [b[0], b[1]];
  }

  lemma OriginalSum(s: State)
    requires s == State(map[0 := 5, 2 := 7], map[], None)
    ensures var first := Step(ExampleMachine(), WriteAfterRead()[0], s);
            1 in first.regs && first.regs[1] == 12 && first.exit.None?
    ensures var both := Step(ExampleMachine(), WriteAfterRead()[1], Step(ExampleMachine(), WriteAfterRead()[0], s));
            1 in both.regs && both.regs[1] == 12
  {
    assert Inputs(WriteAfterRead()[0], s.regs) == [5, 7];
  }

  lemma ScheduledSum(s: State)
    requires s == State(map[0 := 5, 2 := 7], map[], None)
    ensures var both := Step(ExampleMachine(), WriteAfterRead()[0], Step(ExampleMachine(), WriteAfterRead()[1], s));
            1 in both.regs && both.regs[1] == 56
  {
    assert Inputs(WriteAfterRead()[1], s.regs) == [7, 7];
    var first := Step(ExampleMachine(), WriteAfterRead()[1], s);
    assert first.regs == s.regs[0 := 49];
    assert Inputs(WriteAfterRead()[0], first.regs) == [49, 7];
  }

  /** call; r1 := [r0] */
  function CallThenLoad(): Block {
    [MachineInstr(Call, -1, [], [], false), MachineInstr(Load, 1, [0], [], false)]
  }

  lemma CallThenLoadIsBroken(m: Machine, b: Block, out: seq<MachineInstr>, s: State)
    requires m == ExampleMachine() && b == CallThenLoad() && s == State(map[], map[], None)
    requires IsScheduleOf(b, out)
    ensures SingleAssignment(b) && Run(m, out, s) != Run(m, b, s)
  {
    CallThenLoadIsSingleAssignment(b);
    assert out == [b[1], b[0]] by {
      ExamplesAreFree(b);
      SlowerInstructionGoesFirst(b, out);
    }
    assert Step(m, b[1], Step(m, b[0], s)) != Step(m, b[0], Step(m, b[1], s)) by {
      LoadedValues(s);
    }
    ExchangeShows(m, b, out, s);
  }

  lemma CallThenLoadIsSingleAssignment(b: Block)
    requires b == CallThenLoad()
    ensures SingleAssignment(b)
  {
  }

  lemma LoadedValues(s: State)
    requires s == State(map[], map[], None)
    ensures Step(ExampleMachine(), CallThenLoad()[1], Step(ExampleMachine(), CallThenLoad()[0], s)) !=
            Step(ExampleMachine(), CallThenLoad()[0], Step(ExampleMachine(), CallThenLoad()[1], s))
  {
    assert Inputs(CallThenLoad()[1], s.regs) == [0];
    assert Step(ExampleMachine(), CallThenLoad()[0], s) == State(map[], map[0 := 1], None);
    assert Step(ExampleMachine(), CallThenLoad()[1], s) == State(map[1 := 0], map[], None);
    assert Step(ExampleMachine(), CallThenLoad()[1], State(map[], map[0 := 1], None)).regs[1] == 1;
    assert Step(ExampleMachine(), CallThenLoad()[0], State(map[1 := 0], map[], None)).regs[1] == 0;
  }

  lemma RunTwo(m: Machine, x: MachineInstr, y: MachineInstr, s: State)
    ensures Run(m, [x, y], s) == Step(m, y, Step(m, x, s))
  {
    assert [x, y][..1] == [x] && [x][..0] == [];
    assert Run(m, [x], s) == Step(m, x, Run(m, [x][..0], s));
  }

  lemma PairRuns(m: Machine, b: Block, out: Block, s: State)
    requires |b| == 2 && out == [b[1], b[0]]
    ensures Run(m, out, s) == Run(m, b, s) <==> Commutes(m, b[0], b[1], s)
  {
    RunTwo(m, b[0], b[1], s);
    RunTwo(m, b[1], b[0], s);
    assert b == [b[0], b[1]];
  }

  lemma ExchangeKeepsMeaning(m: Machine, b: Block, out: Block)
    requires |b| == 2 && out == [b[1], b[0]]
    ensures KeepsMeaning(m, b, out) <==> !Distinguishable(m, b[0], b[1])
  {
    if Distinguishable(m, b[0], b[1]) {
      var m', s :| SameAccess(m, m') && !Commutes(m', b[0], b[1], s);
      PairRuns(m', b, out, s);
    } else {
      forall m', s | SameAccess(m, m') ensures Run(m', out, s) == Run(m', b, s) {
        PairRuns(m', b, out, s);
      }
    }
  }

  /** What the scheduler does to a free pair is right, for every machine of these memory accesses, exactly when the
      two instructions do not conflict. */
  lemma FreePairIsExact(m: Machine, b: Block, out: Block)
    requires FreePair(b) && IsScheduleOf(b, out)
    ensures KeepsMeaning(m, b, out) <==> !Conflicts(m, b[0], b[1])
  {
    assert out == [b[1], b[0]] by { SlowerInstructionGoesFirst(b, out); }
    ExchangeKeepsMeaning(m, b, out);
    CommutingIsExact(m, b[0], b[1]);
  }
}

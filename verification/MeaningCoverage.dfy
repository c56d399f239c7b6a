/**
  For blocks that define no register twice, coverage is exact for the meaning itself: if the graph leaves one
  conflicting pair open, some order that respects the graph computes something else on some machine.
 */
module MeaningCoverage {
  import opened Options
  import opened MachineIR
  import opened Meaning
  import opened Sequences
  import opened Dags
  import opened DependencyGraph
  import opened Exchanges

  ghost predicate SingleDefs(b: Block) {
    forall i, j :: 0 <= i < j < |b| && b[i].def >= 0 ==> b[i].def != b[j].def
  }

  /** How often an instruction is among the listed positions. */
  function Tally(b: Block, q: seq<nat>, x: MachineInstr): nat
    requires InRange(q, |b|)
  {
    multiset(Pick(b, q))[x]
  }

  lemma TallyOneMore(b: Block, q: seq<nat>, k: nat, x: MachineInstr)
    requires InRange(q, |b|) && k < |b|
    ensures Tally(b, q + [k], x) == Tally(b, q, x) + if b[k] == x then 1 else 0
  {
    PickOneMore(b, q, k);
  }

  lemma TallyOfLast(b: Block, q: seq<nat>, x: MachineInstr)
    requires InRange(q, |b|) && q != []
    ensures Tally(b, q, x) == Tally(b, q[..|q| - 1], x) + if b[q[|q| - 1]] == x then 1 else 0
  {
    TallyOneMore(b, q[..|q| - 1], q[|q| - 1], x);
    assert q == q[..|q| - 1] + [q[|q| - 1]];
  }

  lemma TallyAppend(b: Block, p: seq<nat>, q: seq<nat>, x: MachineInstr)
    requires InRange(p, |b|) && InRange(q, |b|)
    ensures Tally(b, p + q, x) == Tally(b, p, x) + Tally(b, q, x)
  {
    PickAppend(b, p, q);
  }

  // ---- A machine that notices what one instruction saw ----

  /** What an instruction sees: that a register was set, or how often the writer has stored. */
  function Seen(regs: bool, ins: seq<int>, mem: Option<Memory>): int {
    if regs then (if SomeNonzero(ins) then 1 else 0)
    else if mem.Some? then Get(mem.value, 1) else 0
  }

  /** Address 0 counts the watcher's stores, address 1 the writer's; address 2 keeps what the watcher saw at its
      store of the given number. */
  function Watched(watcher: MachineInstr, number: nat, writer: MachineInstr, regs: bool, i: MachineInstr,
                   ins: seq<int>, mem: Memory): Memory {
    if i == watcher then
      (if Get(mem, 0) == number then mem[2 := Seen(regs, ins, Some(mem))] else mem)[0 := Get(mem, 0) + 1]
    else if i == writer then mem[1 := Get(mem, 1) + 1]
    else mem
  }

  function WatchingMachine(m: Machine, watcher: MachineInstr, number: nat, writer: MachineInstr, regs: bool): Machine {
    Machine(m.loads, m.stores,
      (i: MachineInstr, ins: seq<int>, mem: Option<Memory>) =>
        if i == watcher then Seen(regs, ins, mem) else if i == writer then 1 else 0,
      (i: MachineInstr, ins: seq<int>, mem: Memory) => Watched(watcher, number, writer, regs, i, ins, mem),
      (i: MachineInstr, ins: seq<int>, mem: Option<Memory>) => None)
  }

  /** The state after the listed positions. */
  function After(m: Machine, b: Block, q: seq<nat>): State
    requires InRange(q, |b|)
  {
    Run(m, Pick(b, q), Start())
  }

  lemma AfterOneMore(m: Machine, b: Block, q: seq<nat>)
    requires InRange(q, |b|) && q != []
    ensures After(m, b, q) == Step(m, b[q[|q| - 1]], After(m, b, q[..|q| - 1]))
  {
    PickLast(b, q);
    RunLast(m, Pick(b, q[..|q| - 1]), b[q[|q| - 1]], Start());
  }

  /** The counts in memory are the tallies. */
  lemma {:induction false} MemoryCounts(m: Machine, b: Block, q: seq<nat>, watcher: MachineInstr, number: nat,
                                        writer: MachineInstr, regs: bool)
    requires InRange(q, |b|) && watcher != writer
    ensures var s := After(WatchingMachine(m, watcher, number, writer, regs), b, q);
            && s.exit.None?
            && Get(s.mem, 0) == (if m.stores(watcher) then Tally(b, q, watcher) else 0)
            && Get(s.mem, 1) == (if m.stores(writer) then Tally(b, q, writer) else 0)
  {
    if q != [] {
      MemoryCounts(m, b, q[..|q| - 1], watcher, number, writer, regs);
      AfterOneMore(WatchingMachine(m, watcher, number, writer, regs), b, q);
      TallyOfLast(b, q, watcher);
      TallyOfLast(b, q, writer);
    }
  }

  /** What the watcher leaves behind: its result, or what its stores recorded. */
  function Noticed(watcher: MachineInstr, s: State): int {
    if watcher.def >= 0 then Get(s.regs, watcher.def) else Get(s.mem, 2)
  }

  predicate Watches(m: Machine, b: Block, q: seq<nat>, t: nat, watcher: MachineInstr, number: nat)
    requires InRange(q, |b|) && t < |q|
  {
    b[q[t]] == watcher && (watcher.def >= 0 || (m.stores(watcher) && Tally(b, q[..t], watcher) == number))
  }

  function SeenAt(m: Machine, b: Block, q: seq<nat>, t: nat, watcher: MachineInstr, regs: bool, w: Machine): int
    requires InRange(q, |b|) && t < |q|
  {
    var s := After(w, b, q[..t]);
    Seen(regs, Inputs(watcher, s.regs), if m.Touches(watcher) then Some(s.mem) else None)
  }

  lemma NoticedAtOnce(m: Machine, b: Block, q: seq<nat>, watcher: MachineInstr, number: nat, writer: MachineInstr,
                      regs: bool)
    requires InRange(q, |b|) && q != [] && watcher != writer
    requires Watches(m, b, q, |q| - 1, watcher, number)
    ensures var w := WatchingMachine(m, watcher, number, writer, regs);
            Noticed(watcher, After(w, b, q)) == SeenAt(m, b, q, |q| - 1, watcher, regs, w)
  {
    MemoryCounts(m, b, q[..|q| - 1], watcher, number, writer, regs);
    AfterOneMore(WatchingMachine(m, watcher, number, writer, regs), b, q);
  }

  lemma {:induction false} TallyOfPrefix(b: Block, q: seq<nat>, t: nat, x: MachineInstr)
    requires InRange(q, |b|) && t < |q| && b[q[t]] == x
    ensures Tally(b, q, x) > Tally(b, q[..t], x)
  {
    TallyOfLast(b, q, x);
    if t < |q| - 1 {
      TallyOfPrefix(b, q[..|q| - 1], t, x);
      assert q[..|q| - 1][..t] == q[..t];
    }
  }

  /** Nothing executed later changes it. */
  lemma {:induction false} NoticedLasts(m: Machine, b: Block, q: seq<nat>, t: nat, watcher: MachineInstr, number: nat,
                                        writer: MachineInstr, regs: bool)
    requires SingleDefs(b) && Distinct(q) && InRange(q, |b|) && t < |q| && watcher != writer
    requires Watches(m, b, q, t, watcher, number)
    ensures var w := WatchingMachine(m, watcher, number, writer, regs);
            Noticed(watcher, After(w, b, q)) == SeenAt(m, b, q, t, watcher, regs, w)
    decreases |q|
  {
    var n := |q| - 1;
    if t == n {
      NoticedAtOnce(m, b, q, watcher, number, writer, regs);
    } else {
      var shorter := q[..n];
      assert shorter[..t] == q[..t];
      NoticedLasts(m, b, shorter, t, watcher, number, writer, regs);
      LaterStepIsHarmless(m, b, q, t, watcher, number, writer, regs);
    }
  }

  lemma LaterStepIsHarmless(m: Machine, b: Block, q: seq<nat>, t: nat, watcher: MachineInstr, number: nat,
                            writer: MachineInstr, regs: bool)
    requires SingleDefs(b) && Distinct(q) && InRange(q, |b|) && t < |q| - 1 && watcher != writer
    requires Watches(m, b, q, t, watcher, number)
    ensures var w := WatchingMachine(m, watcher, number, writer, regs);
            Noticed(watcher, After(w, b, q)) == Noticed(watcher, After(w, b, q[..|q| - 1]))
  {
    var n := |q| - 1;
    MemoryCounts(m, b, q[..n], watcher, number, writer, regs);
    AfterOneMore(WatchingMachine(m, watcher, number, writer, regs), b, q);
    TallyOfPrefix(b, q[..n], t, watcher);
    assert q[..n][..t] == q[..t];
    assert q[t] != q[n];
    if watcher.def >= 0 { DefsDiffer(b, q[t], q[n]); }
  }

  lemma DefsDiffer(b: Block, k: nat, l: nat)
    requires SingleDefs(b) && k < |b| && l < |b| && k != l && b[k].def >= 0
    ensures b[l].def != b[k].def
  {
    if l < k && b[l].def >= 0 { assert b[l].def != b[k].def; }
  }

  // ---- What the watcher sees ----

  lemma AllZeroInputs(inst: MachineInstr, regs: map<int, int>)
    requires forall r :: Get(regs, r) == 0
    ensures !SomeNonzero(Inputs(inst, regs))
  {
    var ins := Inputs(inst, regs);
    forall k | 0 <= k < |ins| ensures ins[k] == 0 {
      if k < |inst.uses| {
        assert ins[k] == Get(regs, inst.uses[k]);
      } else {
        assert ins[k] == OperandValue(inst.operands[k - |inst.uses|], regs);
      }
    }
  }

  lemma SeesNonzero(inst: MachineInstr, regs: map<int, int>, reg: int)
    requires Reads(inst, reg) && Get(regs, reg) != 0
    ensures SomeNonzero(Inputs(inst, regs))
  {
    var ins := Inputs(inst, regs);
    if reg in inst.uses {
      var k :| 0 <= k < |inst.uses| && inst.uses[k] == reg;
      assert ins[k] != 0;
    } else {
      var k :| 0 <= k < |inst.operands| && RegisterOperand(inst.operands[k], reg);
      assert ins[|inst.uses| + k] != 0;
    }
  }

  /** As long as the watcher sets no register, the writer's is the only one that is set. */
  lemma {:induction false} OnlyWriterSets(m: Machine, b: Block, q: seq<nat>, watcher: MachineInstr, number: nat, j: nat)
    requires SingleDefs(b) && InRange(q, |b|) && j < |b| && b[j].def >= 0 && watcher != b[j]
    requires watcher.def < 0 || forall u :: 0 <= u < |q| ==> b[q[u]] != watcher
    ensures var s := After(WatchingMachine(m, watcher, number, b[j], true), b, q);
            s.exit.None? && forall r :: Get(s.regs, r) == if r == b[j].def && j in q then 1 else 0
  {
    if q != [] {
      var n := |q| - 1;
      OnlyWriterSets(m, b, q[..n], watcher, number, j);
      AfterOneMore(WatchingMachine(m, watcher, number, b[j], true), b, q);
      assert j in q <==> j in q[..n] || q[n] == j;
      if q[n] != j { DefsDiffer(b, j, q[n]); }
      var w := WatchingMachine(m, watcher, number, b[j], true);
      var before, s := After(w, b, q[..n]), After(w, b, q);
      forall r ensures Get(s.regs, r) == if r == b[j].def && j in q then 1 else 0 {
        assert Get(before.regs, r) == if r == b[j].def && j in q[..n] then 1 else 0;
      }
    }
  }

  lemma SeesWrittenRegister(m: Machine, b: Block, q: seq<nat>, t: nat, watcher: MachineInstr, number: nat, j: nat)
    requires SingleDefs(b) && Distinct(q) && InRange(q, |b|) && t < |q| && j < |b| && b[j].def >= 0
    requires watcher != b[j] && b[q[t]] == watcher && Reads(watcher, b[j].def)
    ensures SeenAt(m, b, q, t, watcher, true, WatchingMachine(m, watcher, number, b[j], true))
            == if j in q[..t] then 1 else 0
  {
    var p := q[..t];
    forall u | watcher.def >= 0 && 0 <= u < |p| ensures b[p[u]] != watcher {
      if b[p[u]] == watcher { DefsDiffer(b, q[t], q[u]); }
    }
    OnlyWriterSets(m, b, p, watcher, number, j);
    var regs := After(WatchingMachine(m, watcher, number, b[j], true), b, p).regs;
    if j in p {
      SeesNonzero(watcher, regs, b[j].def);
    } else {
      AllZeroInputs(watcher, regs);
    }
  }

  lemma SeesStores(m: Machine, b: Block, q: seq<nat>, t: nat, watcher: MachineInstr, number: nat, writer: MachineInstr)
    requires InRange(q, |b|) && t < |q| && watcher != writer && m.Touches(watcher) && m.stores(writer)
    ensures SeenAt(m, b, q, t, watcher, false, WatchingMachine(m, watcher, number, writer, false))
            == Tally(b, q[..t], writer)
  {
    MemoryCounts(m, b, q[..t], watcher, number, writer, false);
  }

  /** Two orders that let the watcher see different things end in different states. */
  lemma DifferentSightsShow(m: Machine, b: Block, p: seq<nat>, u: nat, q: seq<nat>, t: nat, watcher: MachineInstr,
                            number: nat, writer: MachineInstr, regs: bool)
    requires SingleDefs(b) && watcher != writer
    requires Distinct(p) && InRange(p, |b|) && u < |p| && Watches(m, b, p, u, watcher, number)
    requires Distinct(q) && InRange(q, |b|) && t < |q| && Watches(m, b, q, t, watcher, number)
    requires var w := WatchingMachine(m, watcher, number, writer, regs);
             SeenAt(m, b, p, u, watcher, regs, w) != SeenAt(m, b, q, t, watcher, regs, w)
    ensures !KeepsMeaning(m, Pick(b, p), Pick(b, q))
  {
    var w := WatchingMachine(m, watcher, number, writer, regs);
    NoticedLasts(m, b, p, u, watcher, number, writer, regs);
    NoticedLasts(m, b, q, t, watcher, number, writer, regs);
    assert SameAccess(m, w);
    assert Run(w, Pick(b, p), Start()) != Run(w, Pick(b, q), Start());
  }

  // ---- The two orders ----

  /** The positions below bound of one kind, in increasing order. */
  function Those(kind: nat -> bool, bound: nat): (s: seq<nat>)
    ensures InRange(s, bound)
  {
    if bound == 0 then [] else Those(kind, bound - 1) + if kind(bound - 1) then [bound - 1] else []
  }

  ghost function Leads(g: Dag, j: nat, above: bool): nat -> bool {
    (k: nat) => Above(g, k, j) == above
  }

  lemma {:induction false} PartIsThose(g: Dag, j: nat, bound: nat, above: bool)
    ensures Part(g, j, bound, above) == Those(Leads(g, j, above), bound)
  {
    if bound > 0 { PartIsThose(g, j, bound - 1, above); }
  }

  lemma {:induction false} ThoseArePrefix(kind: nat -> bool, k: nat, bound: nat)
    requires k <= bound
    ensures Those(kind, k) <= Those(kind, bound)
    ensures k < bound && kind(k) ==>
              |Those(kind, k)| < |Those(kind, bound)| && Those(kind, bound)[|Those(kind, k)|] == k
    decreases bound
  {
    if k < bound { ThoseArePrefix(kind, k, bound - 1); }
  }

  lemma PartIsPrefix(g: Dag, j: nat, k: nat, bound: nat, above: bool)
    requires k <= bound
    ensures Part(g, j, k, above) <= Part(g, j, bound, above)
    ensures k < bound && Above(g, k, j) == above ==>
              |Part(g, j, k, above)| < |Part(g, j, bound, above)|
              && Part(g, j, bound, above)[|Part(g, j, k, above)|] == k
  {
    PartIsThose(g, j, k, above);
    PartIsThose(g, j, bound, above);
    ThoseArePrefix(Leads(g, j, above), k, bound);
  }

  lemma IdentityPrefix(n: nat, k: nat)
    requires k < n
    ensures Distinct(Identity(n)) && InRange(Identity(n), n)
    ensures Identity(n)[..k] == Identity(k) && Identity(n)[k] == k
  {
  }

  /** Where a position that does not lead to j ends up, and what is in front of it. */
  lemma RestInHoist(g: Dag, j: nat, i: nat)
    requires i < g.n && !Above(g, i, j)
    ensures var order, t := HoistOrder(g, j), |Part(g, j, g.n, true)| + |Part(g, j, i, false)|;
            && t < |order| && order[t] == i
            && order[..t] == Part(g, j, g.n, true) + Part(g, j, i, false)
  {
    PartIsPrefix(g, j, i, g.n, false);
    BehindPrefix(Part(g, j, g.n, true), Part(g, j, g.n, false), Part(g, j, i, false), i);
  }

  lemma BehindPrefix(up: seq<nat>, rest: seq<nat>, front: seq<nat>, i: nat)
    requires front <= rest && |front| < |rest| && rest[|front|] == i
    ensures var t := |up| + |front|;
            t < |up + rest| && (up + rest)[t] == i && (up + rest)[..t] == up + front
  {
  }

  lemma SelfInHoist(g: Dag, j: nat)
    requires j < g.n
    ensures var order, t := HoistOrder(g, j), |Part(g, j, j, true)|;
            t < |order| && order[t] == j && order[..t] == Part(g, j, j, true)
  {
    AboveItself(g, j);
    PartIsPrefix(g, j, j, g.n, true);
  }

  lemma AboveItself(g: Dag, j: nat)
    requires j < g.n
    ensures Above(g, j, j)
  {
    var p: seq<nat> := [j];
    assert Path(g, p) && First(p) == j && Last(p) == j;
  }

  /** How many copies are among the positions of one kind below bound. */
  function Copies(b: Block, kind: nat -> bool, bound: nat, x: MachineInstr): nat
    requires bound <= |b|
  {
    if bound == 0 then 0 else Copies(b, kind, bound - 1, x) + if kind(bound - 1) && b[bound - 1] == x then 1 else 0
  }

  lemma ThoseOneMore(kind: nat -> bool, k: nat)
    ensures Those(kind, k + 1) == if kind(k) then Those(kind, k) + [k] else Those(kind, k)
  {
  }

  lemma TallyStep(b: Block, p: seq<nat>, q: seq<nat>, k: nat, one: bool, x: MachineInstr)
    requires InRange(p, |b|) && k < |b| && q == if one then p + [k] else p
    ensures InRange(q, |b|) && Tally(b, q, x) == Tally(b, p, x) + if one && b[k] == x then 1 else 0
  {
    if one { TallyOneMore(b, p, k, x); }
  }

  lemma {:induction false} TallyOfThose(b: Block, kind: nat -> bool, bound: nat, x: MachineInstr)
    requires bound <= |b|
    ensures Tally(b, Those(kind, bound), x) == Copies(b, kind, bound, x)
  {
    if bound > 0 {
      TallyOfThose(b, kind, bound - 1, x);
      ThoseOneMore(kind, bound - 1);
      TallyStep(b, Those(kind, bound - 1), Those(kind, bound), bound - 1, kind(bound - 1), x);
    }
  }

  lemma TallyOfPart(g: Dag, b: Block, j: nat, bound: nat, above: bool, x: MachineInstr)
    requires g.n == |b| && bound <= |b|
    ensures InRange(Part(g, j, bound, above), |b|)
    ensures Tally(b, Part(g, j, bound, above), x) == Copies(b, Leads(g, j, above), bound, x)
  {
    PartIsThose(g, j, bound, above);
    TallyOfThose(b, Leads(g, j, above), bound, x);
  }

  lemma IdentityGrows(k: nat)
    ensures Identity(k + 1) == Identity(k) + [k]
  {
  }

  lemma {:induction false} TallyOfAll(b: Block, up: nat -> bool, rest: nat -> bool, k: nat, x: MachineInstr)
    requires k <= |b| && forall l: nat :: rest(l) == !up(l)
    ensures InRange(Identity(k), |b|)
    ensures Tally(b, Identity(k), x) == Copies(b, up, k, x) + Copies(b, rest, k, x)
  {
    if k > 0 {
      TallyOfAll(b, up, rest, k - 1, x);
      IdentityGrows(k - 1);
      TallyOneMore(b, Identity(k - 1), k - 1, x);
    }
  }

  /** No fewer copies below a higher bound, and one more if there is one at the lower bound. */
  lemma {:induction false} CopiesGrow(b: Block, kind: nat -> bool, k: nat, bound: nat, x: MachineInstr)
    requires k <= bound <= |b|
    ensures Copies(b, kind, k, x) <= Copies(b, kind, bound, x)
    ensures k < bound && kind(k) && b[k] == x ==> Copies(b, kind, k, x) < Copies(b, kind, bound, x)
    decreases bound
  {
    if k < bound { CopiesGrow(b, kind, k, bound - 1, x); }
  }

  lemma {:induction false} NoneBeyond(b: Block, kind: nat -> bool, k: nat, bound: nat, x: MachineInstr)
    requires k <= bound <= |b|
    requires forall l: nat :: k <= l < bound && kind(l) ==> b[l] != x
    ensures Copies(b, kind, bound, x) == Copies(b, kind, k, x)
    decreases bound
  {
    if k < bound { NoneBeyond(b, kind, k, bound - 1, x); }
  }

  // ---- The open pair ----

  /** The graph leaves the pair open, and no earlier copy of the first instruction is open against j. */
  ghost predicate Open(m: Machine, b: Block, i: nat, j: nat) {
    && i < j < |b| && Conflicts(m, b[i], b[j]) && !Reaches(GraphOf(b), i, j)
    && forall k: nat :: k < i && b[k] == b[i] ==> Reaches(GraphOf(b), k, j)
  }

  lemma FirstOpen(m: Machine, b: Block, i: nat, j: nat) returns (k: nat)
    requires i < j < |b| && Conflicts(m, b[i], b[j]) && !Reaches(GraphOf(b), i, j)
    ensures Open(m, b, k, j)
  {
    k := i;
    while exists l: nat :: l < k && b[l] == b[k] && !Reaches(GraphOf(b), l, j)
      invariant k < j && Conflicts(m, b[k], b[j]) && !Reaches(GraphOf(b), k, j)
      decreases k
    {
      var l: nat :| l < k && b[l] == b[k] && !Reaches(GraphOf(b), l, j);
      k := l;
    }
  }

  /** A later copy that leads to j would make the first one lead to j. */
  lemma LaterCopiesAreBelow(m: Machine, b: Block, i: nat, j: nat, k: nat)
    requires Open(m, b, i, j) && i <= k < |b| && b[k] == b[i]
    ensures !Above(GraphOf(b), k, j)
  {
    var g := GraphOf(b);
    if Above(g, k, j) && k != i {
      var p :| Path(g, p) && First(p) == k && Last(p) == j;
      if |p| > 1 {
        assert Edge(g, k, p[1]);
        ReplaceFirst(g, p, i);
      }
    }
  }

  lemma ReplaceFirst(g: Dag, p: seq<nat>, i: nat)
    requires Path(g, p) && |p| > 1 && Edge(g, i, p[1])
    ensures Reaches(g, i, Last(p))
  {
    var q := p[1..];
    assert Path(g, q) && First(q) == p[1] && Last(q) == Last(p);
    PathPrepend(g, i, q);
  }

  /** The watcher's number is the same in both orders: no copy of it moves across. */
  lemma SameNumber(m: Machine, b: Block, i: nat, j: nat)
    requires Open(m, b, i, j)
    ensures var g := GraphOf(b);
            var up, rest := Part(g, j, g.n, true), Part(g, j, i, false);
            InRange(up + rest, |b|) && Tally(b, up + rest, b[i]) == Tally(b, Identity(i), b[i])
  {
    var g := GraphOf(b);
    var up, rest := Leads(g, j, true), Leads(g, j, false);
    forall k: nat | i <= k < |b| && up(k) ensures b[k] != b[i] {
      if b[k] == b[i] { LaterCopiesAreBelow(m, b, i, j, k); }
    }
    NoneBeyond(b, up, i, |b|, b[i]);
    TallyOfPart(g, b, j, |b|, true, b[i]);
    TallyOfPart(g, b, j, i, false, b[i]);
    TallyAppend(b, Part(g, j, |b|, true), Part(g, j, i, false), b[i]);
    TallyOfAll(b, up, rest, i, b[i]);
  }

  /** The first of the pair has seen more of the second's stores in the order that hoists it. */
  lemma SeesMoreStores(m: Machine, b: Block, i: nat, j: nat)
    requires i < j < |b| && !Reaches(GraphOf(b), i, j)
    ensures var g := GraphOf(b);
            var up, rest := Part(g, j, g.n, true), Part(g, j, i, false);
            InRange(up + rest, |b|) && Tally(b, up + rest, b[j]) > Tally(b, Identity(i), b[j])
  {
    var g := GraphOf(b);
    var up, rest := Leads(g, j, true), Leads(g, j, false);
    AboveItself(g, j);
    CopiesGrow(b, up, i, j, b[j]);
    CopiesGrow(b, up, j, |b|, b[j]);
    TallyOfPart(g, b, j, |b|, true, b[j]);
    TallyOfPart(g, b, j, i, false, b[j]);
    TallyAppend(b, Part(g, j, |b|, true), Part(g, j, i, false), b[j]);
    TallyOfAll(b, up, rest, i, b[j]);
  }

  /** The second of the pair has seen fewer of the first's stores when it is hoisted. */
  lemma SeesFewerStores(m: Machine, b: Block, i: nat, j: nat)
    requires i < j < |b| && !Reaches(GraphOf(b), i, j)
    ensures var up := Part(GraphOf(b), j, j, true);
            InRange(up, |b|) && Tally(b, up, b[i]) < Tally(b, Identity(j), b[i])
  {
    var g := GraphOf(b);
    var up, rest := Leads(g, j, true), Leads(g, j, false);
    TallyOfPart(g, b, j, j, true, b[i]);
    TallyOfAll(b, up, rest, j, b[i]);
    CopiesGrow(b, rest, i, j, b[i]);
  }

  // ---- The open pair shows ----

  /** The order changes the meaning. */
  ghost predicate Shows(m: Machine, b: Block, order: seq<nat>) {
    InRange(order, |b|) && !KeepsMeaning(m, b, Pick(b, order))
  }

  lemma PickAll(b: Block)
    ensures InRange(Identity(|b|), |b|) && Pick(b, Identity(|b|)) == b
  {
  }

  /** The order reaches i at t, when as many copies of it have run as before i in the block, but more of j's. */
  ghost predicate MovesUp(b: Block, i: nat, j: nat, order: seq<nat>, t: nat) {
    && i < j < |b| && IsPermutation(order, |b|) && t < |order| && order[t] == i && j in order[..t]
    && InRange(order[..t], |b|) && InRange(Identity(i), |b|)
    && Tally(b, order[..t], b[i]) == Tally(b, Identity(i), b[i])
    && Tally(b, order[..t], b[j]) > Tally(b, Identity(i), b[j])
  }

  lemma HoistMovesUp(m: Machine, b: Block, i: nat, j: nat) returns (order: seq<nat>, t: nat)
    requires Open(m, b, i, j)
    ensures order == HoistOrder(GraphOf(b), j) && MovesUp(b, i, j, order, t)
  {
    var g := GraphOf(b);
    order, t := HoistOrder(g, j), |Part(g, j, g.n, true)| + |Part(g, j, i, false)|;
    HoistIsPermutation(g, j);
    RestInHoist(g, j, i);
    SameNumber(m, b, i, j);
    SeesMoreStores(m, b, i, j);
    SelfInFront(g, j, i);
    MoveFrom(b, i, j, order, t, Part(g, j, g.n, true) + Part(g, j, i, false));
  }

  lemma SelfInFront(g: Dag, j: nat, i: nat)
    requires j < g.n
    ensures j in Part(g, j, g.n, true) + Part(g, j, i, false)
  {
    AboveItself(g, j);
    assert j in Part(g, j, g.n, true);
  }

  lemma MoveFrom(b: Block, i: nat, j: nat, order: seq<nat>, t: nat, front: seq<nat>)
    requires i < j < |b| && IsPermutation(order, |b|) && t < |order| && order[t] == i && order[..t] == front
    requires j in front && InRange(front, |b|) && InRange(Identity(i), |b|)
    requires Tally(b, front, b[i]) == Tally(b, Identity(i), b[i])
    requires Tally(b, front, b[j]) > Tally(b, Identity(i), b[j])
    ensures MovesUp(b, i, j, order, t)
  {
  }

  lemma FirstWatches(m: Machine, b: Block, i: nat, j: nat, order: seq<nat>, t: nat, number: nat, regs: bool)
    requires SingleDefs(b) && MovesUp(b, i, j, order, t) && b[i] != b[j] && (b[i].def >= 0 || m.stores(b[i]))
    requires number == Tally(b, Identity(i), b[i])
    requires var w := WatchingMachine(m, b[i], number, b[j], regs);
             SeenAt(m, b, Identity(|b|), i, b[i], regs, w) != SeenAt(m, b, order, t, b[i], regs, w)
    ensures Shows(m, b, order)
  {
    IdentityPrefix(|b|, i);
    PickAll(b);
    DifferentSightsShow(m, b, Identity(|b|), i, order, t, b[i], number, b[j], regs);
  }

  lemma WriteAfterReadShows(m: Machine, b: Block, i: nat, j: nat, order: seq<nat>, t: nat)
    requires SingleDefs(b) && MovesUp(b, i, j, order, t) && b[i] != b[j] && (b[i].def >= 0 || m.stores(b[i]))
    requires b[j].def >= 0 && Reads(b[i], b[j].def)
    ensures Shows(m, b, order)
  {
    var number := Tally(b, Identity(i), b[i]);
    IdentityPrefix(|b|, i);
    SeesWrittenRegister(m, b, Identity(|b|), i, b[i], number, j);
    SeesWrittenRegister(m, b, order, t, b[i], number, j);
    assert j !in Identity(i);
    FirstWatches(m, b, i, j, order, t, number, true);
  }

  lemma StoreMovedUpShows(m: Machine, b: Block, i: nat, j: nat, order: seq<nat>, t: nat)
    requires SingleDefs(b) && MovesUp(b, i, j, order, t) && b[i] != b[j] && (b[i].def >= 0 || m.stores(b[i]))
    requires m.Touches(b[i]) && m.stores(b[j])
    ensures Shows(m, b, order)
  {
    var number := Tally(b, Identity(i), b[i]);
    IdentityPrefix(|b|, i);
    SeesStores(m, b, Identity(|b|), i, b[i], number, b[j]);
    SeesStores(m, b, order, t, b[i], number, b[j]);
    FirstWatches(m, b, i, j, order, t, number, false);
  }

  /** The order reaches j at t, when fewer copies of i have run than before j in the block. */
  ghost predicate ComesEarly(b: Block, i: nat, j: nat, order: seq<nat>, t: nat) {
    && i < j < |b| && IsPermutation(order, |b|) && t < |order| && order[t] == j
    && InRange(order[..t], |b|) && InRange(Identity(j), |b|)
    && Tally(b, order[..t], b[i]) < Tally(b, Identity(j), b[i])
  }

  lemma HoistComesEarly(m: Machine, b: Block, i: nat, j: nat) returns (order: seq<nat>, t: nat)
    requires Open(m, b, i, j)
    ensures order == HoistOrder(GraphOf(b), j) && ComesEarly(b, i, j, order, t)
  {
    var g := GraphOf(b);
    order, t := HoistOrder(g, j), |Part(g, j, j, true)|;
    HoistIsPermutation(g, j);
    SelfInHoist(g, j);
    SeesFewerStores(m, b, i, j);
    IdentityPrefix(|b|, j);
  }

  lemma LoadMovedUpShows(m: Machine, b: Block, i: nat, j: nat, order: seq<nat>, t: nat)
    requires SingleDefs(b) && ComesEarly(b, i, j, order, t) && b[i] != b[j]
    requires m.stores(b[i]) && m.Touches(b[j]) && b[j].def >= 0
    ensures Shows(m, b, order)
  {
    IdentityPrefix(|b|, j);
    PickAll(b);
    SeesStores(m, b, Identity(|b|), j, b[j], 0, b[i]);
    SeesStores(m, b, order, t, b[j], 0, b[i]);
    DifferentSightsShow(m, b, Identity(|b|), j, order, t, b[j], 0, b[i], false);
  }

  lemma EdgeReaches(g: Dag, i: nat, j: nat)
    requires Edge(g, i, j)
    ensures Reaches(g, i, j)
  {
    var p: seq<nat> := [i, j];
    assert Path(g, p) && First(p) == i && Last(p) == j;
  }

  lemma OpenPairShows(m: Machine, b: Block, i: nat, j: nat)
    requires SingleDefs(b) && Open(m, b, i, j)
    ensures Shows(m, b, HoistOrder(GraphOf(b), j))
  {
    assert !HasEdge(b, i, j) by {
      if HasEdge(b, i, j) { EdgeReaches(GraphOf(b), i, j); }
    }
    if b[j].def >= 0 && Reads(b[i], b[j].def) {
      var order, t := HoistMovesUp(m, b, i, j);
      WriteAfterReadShows(m, b, i, j, order, t);
    } else if m.stores(b[j]) {
      var order, t := HoistMovesUp(m, b, i, j);
      StoreMovedUpShows(m, b, i, j, order, t);
    } else {
      var order, t := HoistComesEarly(m, b, i, j);
      LoadMovedUpShows(m, b, i, j, order, t);
    }
  }

  /** Every order that respects the graph means what the block means. */
  ghost predicate OrdersKeepMeaning(m: Machine, b: Block) {
    forall order :: LinearExtension(GraphOf(b), order) ==> KeepsMeaning(m, b, Pick(b, order))
  }

  lemma CoveredForAll(m: Machine, m': Machine, b: Block)
    requires SameAccess(m, m') && Covered(m, b)
    ensures Covered(m', b)
  {
    forall i, j | 0 <= i < j < |b| && Conflicts(m', b[i], b[j]) ensures Reaches(GraphOf(b), i, j) {
      assert Conflicts(m, b[i], b[j]);
    }
  }

  lemma CoveredOrdersKeepMeaning(m: Machine, b: Block)
    requires Covered(m, b)
    ensures OrdersKeepMeaning(m, b)
  {
    forall order | LinearExtension(GraphOf(b), order) ensures KeepsMeaning(m, b, Pick(b, order)) {
      forall m', s | SameAccess(m, m') ensures Run(m', Pick(b, order), s) == Run(m', b, s) {
        CoveredForAll(m, m', b);
        LegalOrderKeepsMeaning(m', b, order, s);
      }
    }
  }

  /**
    In a block that defines no register twice, all orders that respect the graph mean the same on all machines of the
    same memory accesses exactly if the graph orders every conflicting pair.
   */
  lemma MeaningIsKeptExactly(m: Machine, b: Block)
    requires SingleDefs(b)
    ensures OrdersKeepMeaning(m, b) <==> Covered(m, b)
  {
    if Covered(m, b) {
      CoveredOrdersKeepMeaning(m, b);
    } else {
      var i, j :| 0 <= i < j < |b| && Conflicts(m, b[i], b[j]) && !Reaches(GraphOf(b), i, j);
      var k := FirstOpen(m, b, i, j);
      OpenPairShows(m, b, k, j);
      HoistIsLegal(GraphOf(b), j);
    }
  }
}

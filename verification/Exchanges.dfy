/** When two instructions trade places without a trace, for every machine that accesses memory alike. */
module Exchanges {
  import opened MachineIR
  import opened Meaning
  import opened Options

  /** The same instructions reach memory; what they compute is free. */
  ghost predicate SameAccess(m: Machine, m': Machine) {
    m'.loads == m.loads && m'.stores == m.stores
  }

  /** One sequence means what the other means, for every machine of these memory accesses. */
  ghost predicate KeepsMeaning(m: Machine, b: seq<MachineInstr>, out: seq<MachineInstr>) {
    forall m', s {:trigger Run(m', out, s)} :: SameAccess(m, m') ==> Run(m', out, s) == Run(m', b, s)
  }

  ghost predicate Commutes(m: Machine, a: MachineInstr, b: MachineInstr, s: State) {
    Step(m, b, Step(m, a, s)) == Step(m, a, Step(m, b, s))
  }

  /** Some machine with m's memory accesses tells the two orders apart. */
  ghost predicate Distinguishable(m: Machine, a: MachineInstr, b: MachineInstr) {
    exists m', s :: SameAccess(m, m') && !Commutes(m', a, b, s)
  }

  function Start(): State {
    State(map[], map[], None)
  }

  predicate SomeNonzero(ins: seq<int>) {
    exists k :: 0 <= k < |ins| && ins[k] != 0
  }

  /** `first` gives 1 and leaves memory alone; anything else shows whether it was given a nonzero input. */
  function ReadingMachine(m: Machine, first: MachineInstr): Machine {
    Machine(m.loads, m.stores,
      (i: MachineInstr, v: seq<int>, mem: Option<Memory>) => if i == first then 1 else if SomeNonzero(v) then 2 else 0,
      (i: MachineInstr, v: seq<int>, mem: Memory) => if i != first && SomeNonzero(v) then map[0 := 1] else mem,
      (i: MachineInstr, v: seq<int>, mem: Option<Memory>) => None)
  }

  /** The last write to a register or to memory shows whether `first` made it. */
  function WritingMachine(m: Machine, first: MachineInstr): Machine {
    Machine(m.loads, m.stores,
      (i: MachineInstr, v: seq<int>, mem: Option<Memory>) => if i == first then 1 else 2,
      (i: MachineInstr, v: seq<int>, mem: Memory) => map[0 := if i == first then 1 else 2],
      (i: MachineInstr, v: seq<int>, mem: Option<Memory>) => None)
  }

  /** Every store fills address 0, and every result shows whether it was filled. */
  function LoadingMachine(m: Machine): Machine {
    Machine(m.loads, m.stores,
      (i: MachineInstr, v: seq<int>, mem: Option<Memory>) => if mem.Some? && 0 in mem.value then 1 else 0,
      (i: MachineInstr, v: seq<int>, mem: Memory) => map[0 := 1],
      (i: MachineInstr, v: seq<int>, mem: Option<Memory>) => None)
  }

  /** `first` leaves the block, everything else writes 1; another terminator leaves it elsewhere. */
  function LeavingMachine(m: Machine, first: MachineInstr): Machine {
    Machine(m.loads, m.stores,
      (i: MachineInstr, v: seq<int>, mem: Option<Memory>) => 1,
      (i: MachineInstr, v: seq<int>, mem: Memory) => map[0 := 1],
      (i: MachineInstr, v: seq<int>, mem: Option<Memory>) => if i == first then Some("first") else Some("second"))
  }

  lemma AllZero(inst: MachineInstr)
    ensures !SomeNonzero(Inputs(inst, map[]))
  {
  }

  lemma SeesTheOne(inst: MachineInstr, reg: int)
    requires Reads(inst, reg)
    ensures SomeNonzero(Inputs(inst, map[reg := 1]))
  {
    var ins := Inputs(inst, map[reg := 1]);
    if reg in inst.uses {
      var k :| 0 <= k < |inst.uses| && inst.uses[k] == reg;
      assert ins[k] == 1;
    } else {
      var k :| 0 <= k < |inst.operands| && RegisterOperand(inst.operands[k], reg);
      assert ins[|inst.uses| + k] == 1;
    }
  }

  lemma ReadAfterWriteShows(m: Machine, a: MachineInstr, b: MachineInstr)
    requires a != b && !a.terminator && !b.terminator && a.def >= 0 && Reads(b, a.def) && HasEffect(m, b)
    ensures Distinguishable(m, a, b)
  {
    var m', s := ReadingMachine(m, a), Start();
    AllZero(b);
    SeesTheOne(b, a.def);
    var sa, sb := Step(m', a, s), Step(m', b, s);
    assert sa == State(map[a.def := 1], map[], None);
    var ab, ba := Step(m', b, sa), Step(m', a, sb);
    if b.def >= 0 {
      assert ab.regs[b.def] == 2;
      assert b.def != a.def ==> ba.regs[b.def] == 0;
      assert b.def == a.def ==> ba.regs[b.def] == 1;
    } else {
      assert ab.mem == map[0 := 1] && ba.mem == map[];
      assert 0 in ab.mem && 0 !in ba.mem;
    }
    assert SameAccess(m, m') && !Commutes(m', a, b, s);
  }

  lemma DoubleWriteShows(m: Machine, a: MachineInstr, b: MachineInstr)
    requires a != b
    requires (a.def >= 0 && a.def == b.def) || (m.stores(a) && m.stores(b))
    ensures Distinguishable(m, a, b)
  {
    var m', s := WritingMachine(m, a), Start();
    var ab, ba := Step(m', b, Step(m', a, s)), Step(m', a, Step(m', b, s));
    if a.def >= 0 && a.def == b.def {
      assert ab.regs[a.def] == 2 && ba.regs[a.def] == 1;
    } else {
      assert ab.mem[0] == 2 && ba.mem[0] == 1;
    }
    assert SameAccess(m, m') && !Commutes(m', a, b, s);
  }

  lemma LoadAfterStoreShows(m: Machine, a: MachineInstr, b: MachineInstr)
    requires a != b && !a.terminator && !b.terminator
    requires m.stores(a) && m.loads(b) && b.def >= 0 && a.def != b.def && !m.stores(b)
    ensures Distinguishable(m, a, b)
  {
    var m', s := LoadingMachine(m), Start();
    var ab, ba := Step(m', b, Step(m', a, s)), Step(m', a, Step(m', b, s));
    assert ab.regs[b.def] == 1 && ba.regs[b.def] == 0;
    assert SameAccess(m, m') && !Commutes(m', a, b, s);
  }

  lemma LeavingShows(m: Machine, a: MachineInstr, b: MachineInstr)
    requires a != b && a.terminator && HasEffect(m, b)
    requires !(a.def >= 0 && a.def == b.def) && !(m.stores(a) && m.stores(b))
    ensures Distinguishable(m, a, b)
  {
    var m', s := LeavingMachine(m, a), Start();
    var ab, ba := Step(m', b, Step(m', a, s)), Step(m', a, Step(m', b, s));
    assert ab == Step(m', a, s) && ab.exit == Some("first");
    if b.terminator {
      assert ba.exit == Some("second");
    } else if b.def >= 0 {
      assert b.def in ba.regs && b.def !in ab.regs;
    } else {
      assert 0 in ba.mem && 0 !in ab.mem;
    }
    assert SameAccess(m, m') && !Commutes(m', a, b, s);
  }

  lemma OrderOfTheTwo(m: Machine, a: MachineInstr, b: MachineInstr)
    requires Distinguishable(m, b, a)
    ensures Distinguishable(m, a, b)
  {
    var m', s :| SameAccess(m, m') && !Commutes(m', b, a, s);
    assert !Commutes(m', a, b, s);
  }

  lemma ConflictShows(m: Machine, a: MachineInstr, b: MachineInstr)
    requires Conflicts(m, a, b)
    ensures Distinguishable(m, a, b)
  {
    if (a.def >= 0 && a.def == b.def) || (m.stores(a) && m.stores(b)) {
      DoubleWriteShows(m, a, b);
    } else if a.terminator {
      LeavingShows(m, a, b);
    } else if b.terminator {
      LeavingShows(m, b, a);
      OrderOfTheTwo(m, a, b);
    } else if a.def >= 0 && Reads(b, a.def) {
      ReadAfterWriteShows(m, a, b);
    } else if b.def >= 0 && Reads(a, b.def) {
      ReadAfterWriteShows(m, b, a);
      OrderOfTheTwo(m, a, b);
    } else if m.stores(a) {
      LoadAfterStoreShows(m, a, b);
    } else {
      LoadAfterStoreShows(m, b, a);
      OrderOfTheTwo(m, a, b);
    }
  }

  /** Some machine of these memory accesses notices that two instructions traded places exactly when they conflict. */
  lemma CommutingIsExact(m: Machine, a: MachineInstr, b: MachineInstr)
    ensures Distinguishable(m, a, b) <==> Conflicts(m, a, b)
  {
    if Conflicts(m, a, b) {
      ConflictShows(m, a, b);
    } else {
      forall m', s | SameAccess(m, m') ensures Commutes(m', a, b, s) {
        Commute(m', a, b, s);
      }
    }
  }
}

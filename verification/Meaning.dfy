/**
  What a straight-line block means, and when two orders of its instructions mean the same.
  A machine is an arbitrary interpretation of the opcodes; it also says which instructions
  reach memory. A terminator may leave the block, after which nothing further executes.
 */
module Meaning {
  import opened Options
  import opened MachineIR
  import opened Sequences

  type Memory = map<int, int>

  datatype State = State(regs: map<int, int>, mem: Memory, exit: Option<string>)

  datatype Machine = Machine(
    loads: MachineInstr -> bool,
    stores: MachineInstr -> bool,
    value: (MachineInstr, seq<int>, Option<Memory>) -> int,
    memory: (MachineInstr, seq<int>, Memory) -> Memory,
    branch: (MachineInstr, seq<int>, Option<Memory>) -> Option<string>
  ) {
    predicate Touches(inst: MachineInstr) {
      loads(inst) || stores(inst)
    }
  }

  function Get(regs: map<int, int>, reg: int): int {
    if reg in regs then regs[reg] else 0
  }

  function OperandValue(op: Operand, regs: map<int, int>): int {
    if op.VReg? || op.MemVReg? then Get(regs, op.vreg) else 0
  }

  function Inputs(inst: MachineInstr, regs: map<int, int>): seq<int> {
    seq(|inst.uses|, k requires 0 <= k < |inst.uses| => Get(regs, inst.uses[k])) +
    seq(|inst.operands|, k requires 0 <= k < |inst.operands| => OperandValue(inst.operands[k], regs))
  }

  function Step(m: Machine, inst: MachineInstr, s: State): State {
    if s.exit.Some? then s else
    var ins := Inputs(inst, s.regs);
    var seen := if m.Touches(inst) then Some(s.mem) else None;
    State(
      if inst.def >= 0 then s.regs[inst.def := m.value(inst, ins, seen)] else s.regs,
      if m.stores(inst) then m.memory(inst, ins, s.mem) else s.mem,
      if inst.terminator then m.branch(inst, ins, seen) else None)
  }

  /** Executes the instructions from left to right. */
  function Run(m: Machine, code: seq<MachineInstr>, s: State): State {
    if code == [] then s
    else Step(m, code[|code| - 1], Run(m, code[..|code| - 1], s))
  }

  /** An instruction without an effect leaves every state as it is. */
  predicate HasEffect(m: Machine, inst: MachineInstr) {
    inst.def >= 0 || m.stores(inst) || inst.terminator
  }

  /** Two instructions that touch the same register or memory, one of them changing it, or may leave the block. */
  predicate Interferes(m: Machine, a: MachineInstr, b: MachineInstr) {
    || (a.def >= 0 && Reads(b, a.def))
    || (b.def >= 0 && Reads(a, b.def))
    || (a.def >= 0 && a.def == b.def)
    || (m.stores(a) && m.Touches(b))
    || (m.Touches(a) && m.stores(b))
    || a.terminator
    || b.terminator
  }

  /** True when the two instructions may not trade places; see Exchanges.CommutingIsExact. */
  predicate Conflicts(m: Machine, a: MachineInstr, b: MachineInstr) {
    a != b && HasEffect(m, a) && HasEffect(m, b) && Interferes(m, a, b)
  }

  lemma InputsUnaffected(inst: MachineInstr, regs: map<int, int>, reg: int, v: int)
    requires !Reads(inst, reg)
    ensures Inputs(inst, regs[reg := v]) == Inputs(inst, regs)
  {
    forall k | 0 <= k < |inst.operands|
      ensures OperandValue(inst.operands[k], regs[reg := v]) == OperandValue(inst.operands[k], regs)
    {
      assert !RegisterOperand(inst.operands[k], reg);
    }
  }

  /** Independent neighbours commute. */
  lemma Commute(m: Machine, a: MachineInstr, b: MachineInstr, s: State)
    requires !Conflicts(m, a, b)
    ensures Step(m, b, Step(m, a, s)) == Step(m, a, Step(m, b, s))
  {
    if s.exit.None? && a != b && HasEffect(m, a) && HasEffect(m, b) {
      var sa, sb := Step(m, a, s), Step(m, b, s);
      assert Inputs(b, sa.regs) == Inputs(b, s.regs) by {
        if a.def >= 0 { InputsUnaffected(b, s.regs, a.def, sa.regs[a.def]); }
      }
      assert Inputs(a, sb.regs) == Inputs(a, s.regs) by {
        if b.def >= 0 { InputsUnaffected(a, s.regs, b.def, sb.regs[b.def]); }
      }
    }
  }

  // ---- Orders ----

  ghost predicate SameElements(p: seq<nat>, q: seq<nat>) {
    forall x :: x in p <==> x in q
  }

  /** p and q list the same positions, and q keeps the order of every conflicting pair of p. */
  ghost predicate Agree(m: Machine, b: seq<MachineInstr>, p: seq<nat>, q: seq<nat>) {
    && |p| == |q| && Distinct(p) && Distinct(q)
    && InRange(p, |b|) && InRange(q, |b|)
    && SameElements(p, q)
    && (forall i, j :: 0 <= i < j < |p| && Conflicts(m, b[p[i]], b[p[j]]) ==> Before(q, p[i], p[j]))
  }

  predicate IndependentOfAll(m: Machine, x: MachineInstr, code: seq<MachineInstr>) {
    forall k :: 0 <= k < |code| ==> !Conflicts(m, x, code[k])
  }

  /** An instruction independent of everything after it can be moved to the end. */
  lemma {:induction false} MoveToEnd(m: Machine, pre: seq<MachineInstr>, x: MachineInstr, post: seq<MachineInstr>,
                                     s: State)
    requires IndependentOfAll(m, x, post)
    ensures Run(m, pre + [x] + post, s) == Run(m, pre + post + [x], s)
  {
    if post == [] {
      assert pre + [x] + post == pre + post + [x];
    } else {
      var n := |post| - 1;
      var y := post[n];
      assert (pre + [x] + post)[..|pre| + 1 + n] == pre + [x] + post[..n];
      MoveToEnd(m, pre, x, post[..n], s);
      var mid := Run(m, pre + post[..n], s);
      assert (pre + post[..n] + [x])[..|pre| + n] == pre + post[..n];
      assert (pre + post + [x])[..|pre| + |post|] == pre + post;
      assert (pre + post)[..|pre| + n] == pre + post[..n];
      Commute(m, x, y, mid);
    }
  }

  /** Two orders that disagree only on independent pairs compute the same state. */
  lemma {:induction false} AgreeingOrdersRunAlike(m: Machine, b: seq<MachineInstr>, p: seq<nat>, q: seq<nat>, s: State)
    requires Agree(m, b, p, q)
    ensures Run(m, Pick(b, p), s) == Run(m, Pick(b, q), s)
    decreases |q|
  {
    if q == [] {
      assert Pick(b, p) == Pick(b, q);
    } else {
      var n := |q| - 1;
      assert q[n] in p;
      var t :| 0 <= t < |p| && p[t] == q[n];
      ShrinkAgree(m, b, p, q, t);
      AgreeingOrdersRunAlike(m, b, p[..t] + p[t + 1..], q[..n], s);
      NothingAfterConflicts(m, b, p, q, t);
      MoveToEnd(m, Pick(b, p[..t]), b[q[n]], Pick(b, p[t + 1..]), s);
      PickSplit(b, p, t);
      PickSkipped(b, p, t);
      PickLast(b, q);
      RunLast(m, Pick(b, p[..t]) + Pick(b, p[t + 1..]), b[q[n]], s);
      RunLast(m, Pick(b, q[..n]), b[q[n]], s);
    }
  }

  lemma NothingAfterConflicts(m: Machine, b: seq<MachineInstr>, p: seq<nat>, q: seq<nat>, t: nat)
    requires Agree(m, b, p, q) && |q| > 0 && t < |p| && p[t] == q[|q| - 1]
    ensures IndependentOfAll(m, b[q[|q| - 1]], Pick(b, p[t + 1..]))
  {
    var later := Pick(b, p[t + 1..]);
    forall k | 0 <= k < |later| ensures !Conflicts(m, b[q[|q| - 1]], later[k]) {
      assert p[t + 1..][k] == p[t + 1 + k];
    }
  }

  lemma RunLast(m: Machine, code: seq<MachineInstr>, x: MachineInstr, s: State)
    ensures Run(m, code + [x], s) == Step(m, x, Run(m, code, s))
  {
    assert (code + [x])[..|code|] == code;
  }

  lemma ShrinkAgree(m: Machine, b: seq<MachineInstr>, p: seq<nat>, q: seq<nat>, t: nat)
    requires Agree(m, b, p, q) && |q| > 0 && t < |p| && p[t] == q[|q| - 1]
    ensures Agree(m, b, p[..t] + p[t + 1..], q[..|q| - 1])
  {
    var p', q' := p[..t] + p[t + 1..], q[..|q| - 1];
    SkipsOne(p, t);
    ShrinkKeepsElements(p, q, t);
    forall i, j | 0 <= i < j < |p'| && Conflicts(m, b[p'[i]], b[p'[j]]) ensures Before(q', p'[i], p'[j]) {
      ShrinkKeepsOrder(m, b, p, q, t, i, j);
    }
  }

  lemma SkipsOne(p: seq<nat>, t: nat)
    requires Distinct(p) && t < |p|
    ensures Distinct(p[..t] + p[t + 1..]) && p[t] !in p[..t] + p[t + 1..]
  {
  }

  lemma ShrinkKeepsElements(p: seq<nat>, q: seq<nat>, t: nat)
    requires Distinct(p) && Distinct(q) && SameElements(p, q)
    requires |q| > 0 && t < |p| && p[t] == q[|q| - 1]
    ensures SameElements(p[..t] + p[t + 1..], q[..|q| - 1])
  {
    var n := |q| - 1;
    var p', q' := p[..t] + p[t + 1..], q[..n];
    SkipsOne(p, t);
    forall x ensures x in p' <==> x in q' {
      assert x in p <==> x in p' || x == p[t];
      assert x in q <==> x in q' || x == q[n];
    }
  }

  lemma ShrinkKeepsOrder(m: Machine, b: seq<MachineInstr>, p: seq<nat>, q: seq<nat>, t: nat, i: nat, j: nat)
    requires Agree(m, b, p, q) && |q| > 0 && t < |p| && p[t] == q[|q| - 1] && i < j < |p| - 1
    requires var p' := p[..t] + p[t + 1..]; Conflicts(m, b[p'[i]], b[p'[j]])
    ensures var p' := p[..t] + p[t + 1..]; Before(q[..|q| - 1], p'[i], p'[j])
  {
    var p', q' := p[..t] + p[t + 1..], q[..|q| - 1];
    var i', j' := if i < t then i else i + 1, if j < t then j else j + 1;
    assert p'[i] == p[i'] && p'[j] == p[j'];
    assert Before(q, p[i'], p[j']);
    var k, l :| 0 <= k < l < |q| && q[k] == p[i'] && q[l] == p[j'];
    assert p[j'] != p[t];
    assert q'[k] == p'[i] && q'[l] == p'[j];
  }
}

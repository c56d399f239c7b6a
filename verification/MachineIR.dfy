/** The part of the x86-64 machine IR that scheduling looks at. */
module MachineIR {

  datatype Opcode =
    | Mov | Add | Sub | Mul | Div | SDiv | UDiv | Rem | SRem | URem
    | And | Or | Xor | Shl | LShr | AShr | Cmp
    | Movsd | Movss | Addsd | Subsd | Mulsd | Divsd | Cmpsd
    | Addps | Subps | Mulps | Divps | Shufps | Movaps | Movups
    | Load | Store | Lea | Call | Ret | Jmp | Jcc

  datatype Operand =
    | VReg(vreg: int)
    | PhysReg(phys: nat)
    | Imm(imm: int)
    | Label(target: string)
    | StackSlot(slot: int)
    | StackObject(object: int, displacement: int)
    | MemVReg(vreg: int, displacement: int)
    | MemLabel(target: string)

  datatype MachineInstr = MachineInstr(
    opcode: Opcode,
    def: int,
    uses: seq<int>,
    operands: seq<Operand>,
    terminator: bool
  )

  datatype MachineBasicBlock = MachineBasicBlock(name: string, instructions: seq<MachineInstr>)

  datatype MachineFunction = MachineFunction(name: string, blocks: seq<MachineBasicBlock>)

  /** Cycles until the result of an opcode is available. */
  function Latency(op: Opcode): (cycles: nat)
    ensures cycles >= 1
  {
    if op in {Div, SDiv, UDiv, Rem, SRem, URem} then 20
    else if op in {Divsd, Divps} then 14
    else if op in {Mulsd, Mulps, Load} then 4
    else if op in {Mul, Addsd, Subsd, Addps, Subps, Call} then 3
    else 1
  }

  /** The virtual registers an instruction reads, as far as the dependency test can see. */
  predicate Reads(inst: MachineInstr, reg: int) {
    || reg in inst.uses
    || exists k :: 0 <= k < |inst.operands| && RegisterOperand(inst.operands[k], reg)
  }

  predicate RegisterOperand(op: Operand, reg: int) {
    (op.VReg? || op.MemVReg?) && op.vreg == reg
  }

  predicate HasDataDependency(producer: MachineInstr, consumer: MachineInstr) {
    producer.def >= 0 && Reads(consumer, producer.def)
  }

  predicate HasMemoryDependency(first: MachineInstr, second: MachineInstr) {
    var firstMem := first.opcode == Load || first.opcode == Store;
    var secondMem := second.opcode == Load || second.opcode == Store;
    && firstMem && secondMem
    && (|| (first.opcode == Store && second.opcode == Store)
        || (first.opcode == Store && second.opcode == Load)
        || (first.opcode == Load && second.opcode == Store))
  }
}

/** The line-number program of a .debug_line section and the state machine that reads it
    (sections 6.2.2 and 6.2.5 of the DWARF 5 standard). */
module LinePrograms {
  import opened ByteStreams
  import opened Options

  // ---- The reading side ----

  /** The registers of the state machine; a row is a copy of them. */
  datatype Registers = Registers(address: nat, file: nat, line: int, column: nat, isStmt: bool, basicBlock: bool,
                                 endSequence: bool, prologueEnd: bool, epilogueBegin: bool, isa: nat,
                                 discriminator: nat)

  function Initial(): Registers {
    Registers(0, 1, 1, 0, true, false, false, false, false, 0, 0)
  }

  // The header fields that the program is read with.
  const MINIMUM_INSTRUCTION_LENGTH: nat := 1
  const LINE_BASE: int := -5
  const LINE_RANGE: nat := 14
  const OPCODE_BASE: nat := 13
  const OPERAND_COUNTS: seq<nat> := [0, 1, 1, 1, 1, 0, 0, 0, 1, 0, 0, 1]

  /** One instruction: the bytes it takes, the registers after it and the rows it appends. */
  datatype Effect = Effect(length: nat, registers: Registers, rows: seq<Registers>)

  function Cleared(r: Registers): Registers {
    r.(basicBlock := false, prologueEnd := false, epilogueBegin := false, discriminator := 0)
  }

  function Special(opcode: nat, r: Registers): Effect
    requires opcode >= OPCODE_BASE
  {
    var adjusted := opcode - OPCODE_BASE;
    var moved := r.(address := r.address + MINIMUM_INSTRUCTION_LENGTH * (adjusted / LINE_RANGE),
                    line := r.line + LINE_BASE + adjusted % LINE_RANGE);
    Effect(1, Cleared(moved), [moved])
  }

  /** An instruction with one unsigned LEB128 operand. */
  function WithOperand(opcode: nat, bytes: seq<Byte>, r: Registers): (e: Option<Effect>)
    ensures e.Some? ==> 0 < e.value.length <= |bytes| + 1
  {
    match ReadULEB(bytes)
    case None => None
    case Some((v, n)) =>
      var after := match opcode
                   case 2 => r.(address := r.address + MINIMUM_INSTRUCTION_LENGTH * v)
                   case 4 => r.(file := v)
                   case 5 => r.(column := v)
                   case _ => r.(isa := v);
      Some(Effect(n + 1, after, []))
  }

  function Standard(opcode: nat, bytes: seq<Byte>, r: Registers): (e: Option<Effect>)
    requires 0 < opcode < OPCODE_BASE
    ensures e.Some? ==> 0 < e.value.length <= |bytes| + 1
  {
    match opcode
    case 1 => Some(Effect(1, Cleared(r), [r]))
    case 3 =>
      (match ReadSLEB(bytes)
       case None => None
       case Some((v, n)) => Some(Effect(n + 1, r.(line := r.line + v), [])))
    case 6 => Some(Effect(1, r.(isStmt := !r.isStmt), []))
    case 7 => Some(Effect(1, r.(basicBlock := true), []))
    case 8 =>
      Some(Effect(1, r.(address := r.address + MINIMUM_INSTRUCTION_LENGTH * ((255 - OPCODE_BASE) / LINE_RANGE)), []))
    case 9 => if |bytes| < 2 then None else Some(Effect(3, r.(address := r.address + FromLE(bytes[..2])), []))
    case 10 => Some(Effect(1, r.(prologueEnd := true), []))
    case 11 => Some(Effect(1, r.(epilogueBegin := true), []))
    case _ => WithOperand(opcode, bytes, r)
  }

  /** How many bytes the LEB128 number in front takes. */
  function NumberLength(bytes: seq<Byte>): Option<nat> {
    if bytes == [] then None
    else if bytes[0] < 128 then Some(1)
    else
      match NumberLength(bytes[1..])
      case None => None
      case Some(n) => Some(n + 1)
  }

  lemma {:induction false} NumbersTakeTheirLength(bytes: seq<Byte>)
    ensures NumberLength(bytes).Some? <==> ReadULEB(bytes).Some?
    ensures NumberLength(bytes).Some? <==> ReadSLEB(bytes).Some?
    ensures NumberLength(bytes).Some? ==>
              ReadULEB(bytes).value.1 == NumberLength(bytes).value == ReadSLEB(bytes).value.1
  {
    if bytes != [] && bytes[0] >= 128 { NumbersTakeTheirLength(bytes[1..]); }
  }

  /** Each standard instruction takes as many LEB128 numbers as are counted for it; the one operand of
      fixed_advance_pc is two bytes instead. */
  lemma OperandsAreCounted(opcode: nat, bytes: seq<Byte>, r: Registers)
    requires 0 < opcode < OPCODE_BASE
    ensures |OPERAND_COUNTS| == OPCODE_BASE - 1 && OPERAND_COUNTS[opcode - 1] <= 1
    ensures var count, e := OPERAND_COUNTS[opcode - 1], Standard(opcode, bytes, r);
            if count == 0 then e.Some? && e.value.length == 1
            else if opcode == 9 then if |bytes| < 2 then e.None? else e.Some? && e.value.length == 3
            else match NumberLength(bytes)
                 case None => e.None?
                 case Some(n) => e.Some? && e.value.length == 1 + n
  {
    NumbersTakeTheirLength(bytes);
  }

  /** The bytes are those after the zero that introduces an extended instruction. */
  function Extended(bytes: seq<Byte>, r: Registers): (e: Option<Effect>)
    ensures e.Some? ==> 0 < e.value.length <= |bytes| + 1
  {
    match ReadULEB(bytes)
    case None => None
    case Some((length, n)) =>
      if length == 0 || n + length > |bytes| then None
      else
        var opcode, operands := bytes[n], bytes[n + 1..n + length];
        if opcode == 1 then Some(Effect(1 + n + length, Initial(), [r.(endSequence := true)]))
        else if opcode == 2 then Some(Effect(1 + n + length, r.(address := FromLE(operands)), []))
        else if opcode == 4 then
          (match ReadULEB(operands)
           case None => None
           case Some((d, _)) => Some(Effect(1 + n + length, r.(discriminator := d), [])))
        else Some(Effect(1 + n + length, r, []))
  }

  function Execute(bytes: seq<Byte>, r: Registers): (e: Option<Effect>)
    requires bytes != []
    ensures e.Some? ==> 0 < e.value.length <= |bytes|
  {
    var opcode := bytes[0];
    if opcode == 0 then Extended(bytes[1..], r)
    else if opcode < OPCODE_BASE then Standard(opcode, bytes[1..], r)
    else Some(Special(opcode, r))
  }

  /** The rows of the line table, or None if the bytes are no program. */
  function Decode(bytes: seq<Byte>, r: Registers): Option<seq<Registers>> {
    if bytes == [] then Some([])
    else
      match Execute(bytes, r)
      case None => None
      case Some(e) => Append(e.rows, Decode(bytes[e.length..], e.registers))
  }

  function Append(rows: seq<Registers>, tail: Option<seq<Registers>>): Option<seq<Registers>> {
    match tail
    case None => None
    case Some(t) => Some(rows + t)
  }

  lemma AppendTwice(a: seq<Registers>, b: seq<Registers>, tail: Option<seq<Registers>>)
    ensures Append(a, Append(b, tail)) == Append(a + b, tail)
    ensures Append([], tail) == tail
  {
    if tail.Some? {
      assert a + (b + tail.value) == a + b + tail.value;
      assert [] + tail.value == tail.value;
    }
  }

  // ---- The instructions that the encoder uses ----

  datatype Instruction =
    | SetAddress(address: nat)
    | AdvancePc(delta: nat)
    | AdvanceLine(lines: int)
    | SetFile(file: nat)
    | SetColumn(column: nat)
    | Copy
    | EndSequence

  function Encode(i: Instruction): seq<Byte> {
    match i
    case SetAddress(address) => [0] + ULEB(9) + [2] + LE(address, 8)
    case AdvancePc(delta) => [2] + ULEB(delta)
    case AdvanceLine(lines) => [3] + SLEB(lines)
    case SetFile(file) => [4] + ULEB(file)
    case SetColumn(column) => [5] + ULEB(column)
    case Copy => [1]
    case EndSequence => [0] + ULEB(1) + [1]
  }

  function After(i: Instruction, r: Registers): Registers {
    match i
    case SetAddress(address) => r.(address := address)
    case AdvancePc(delta) => r.(address := r.address + delta)
    case AdvanceLine(lines) => r.(line := r.line + lines)
    case SetFile(file) => r.(file := file)
    case SetColumn(column) => r.(column := column)
    case Copy => Cleared(r)
    case EndSequence => Initial()
  }

  function RowsOf(i: Instruction, r: Registers): seq<Registers> {
    match i
    case Copy => [r]
    case EndSequence => [r.(endSequence := true)]
    case _ => []
  }

  predicate Encodable(i: Instruction) {
    i.SetAddress? ==> i.address < Pow256(8)
  }

  function EncodeAll(code: seq<Instruction>): seq<Byte> {
    if code == [] then [] else EncodeAll(code[..|code| - 1]) + Encode(code[|code| - 1])
  }

  /** The registers after the code, from the initial ones. */
  function AfterAll(code: seq<Instruction>): Registers {
    if code == [] then Initial() else After(code[|code| - 1], AfterAll(code[..|code| - 1]))
  }

  function RowsOfAll(code: seq<Instruction>): seq<Registers> {
    if code == [] then []
    else
      var front := code[..|code| - 1];
      RowsOfAll(front) + RowsOf(code[|code| - 1], AfterAll(front))
  }

  predicate AllEncodable(code: seq<Instruction>) {
    code == [] || (AllEncodable(code[..|code| - 1]) && Encodable(code[|code| - 1]))
  }

  lemma OneMore(code: seq<Instruction>, i: Instruction)
    ensures EncodeAll(code + [i]) == EncodeAll(code) + Encode(i)
    ensures AfterAll(code + [i]) == After(i, AfterAll(code))
    ensures RowsOfAll(code + [i]) == RowsOfAll(code) + RowsOf(i, AfterAll(code))
    ensures AllEncodable(code + [i]) <==> AllEncodable(code) && Encodable(i)
  {
    var longer := code + [i];
    assert longer[..|longer| - 1] == code && longer[|longer| - 1] == i;
  }

  // ---- Reading an instruction's bytes performs it ----

  lemma ExecutesSetAddress(address: nat, r: Registers, rest: seq<Byte>)
    requires address < Pow256(8)
    ensures var code := Encode(SetAddress(address));
            Execute(code + rest, r) == Some(Effect(|code|, r.(address := address), []))
  {
    var code := Encode(SetAddress(address));
    var tail := [2] + LE(address, 8) + rest;
    assert (code + rest)[1..] == ULEB(9) + tail;
    ReadsULEB(9, tail);
    assert (ULEB(9) + tail)[|ULEB(9)| + 1..|ULEB(9)| + 9] == LE(address, 8);
    FromLEOfLE(address, 8);
  }

  lemma ExecutesEndSequence(r: Registers, rest: seq<Byte>)
    ensures var code := Encode(EndSequence);
            Execute(code + rest, r) == Some(Effect(|code|, Initial(), [r.(endSequence := true)]))
  {
    var code, tail := Encode(EndSequence), [1 as Byte] + rest;
    assert (code + rest)[1..] == ULEB(1) + tail;
    ReadsULEB(1, tail);
  }

  lemma ExecutesUnsigned(opcode: Byte, value: nat, i: Instruction, r: Registers, rest: seq<Byte>)
    requires (i == AdvancePc(value) && opcode == 2) || (i == SetFile(value) && opcode == 4)
             || (i == SetColumn(value) && opcode == 5)
    ensures Execute([opcode] + ULEB(value) + rest, r) == Some(Effect(|Encode(i)|, After(i, r), []))
  {
    var code := [opcode] + ULEB(value);
    assert (code + rest)[1..] == ULEB(value) + rest;
    ReadsULEB(value, rest);
  }

  lemma ExecutesAdvanceLine(lines: int, r: Registers, rest: seq<Byte>)
    ensures var code := Encode(AdvanceLine(lines));
            Execute(code + rest, r) == Some(Effect(|code|, r.(line := r.line + lines), []))
  {
    var code := Encode(AdvanceLine(lines));
    assert (code + rest)[1..] == SLEB(lines) + rest;
    ReadsSLEB(lines, rest);
  }

  lemma Executes(i: Instruction, r: Registers, rest: seq<Byte>)
    requires Encodable(i)
    ensures Execute(Encode(i) + rest, r) == Some(Effect(|Encode(i)|, After(i, r), RowsOf(i, r)))
  {
    match i
    case SetAddress(address) => ExecutesSetAddress(address, r, rest);
    case AdvancePc(delta) => ExecutesUnsigned(2, delta, i, r, rest);
    case AdvanceLine(lines) => ExecutesAdvanceLine(lines, r, rest);
    case SetFile(file) => ExecutesUnsigned(4, file, i, r, rest);
    case SetColumn(column) => ExecutesUnsigned(5, column, i, r, rest);
    case Copy =>
    case EndSequence => ExecutesEndSequence(r, rest);
  }

  lemma DecodesFirst(code: seq<Byte>, rest: seq<Byte>, r: Registers, after: Registers, rows: seq<Registers>)
    requires code != [] && Execute(code + rest, r) == Some(Effect(|code|, after, rows))
    ensures Decode(code + rest, r) == Append(rows, Decode(rest, after))
  {
    assert (code + rest)[|code|..] == rest;
  }

  lemma {:induction false} DecodesAll(code: seq<Instruction>, rest: seq<Byte>)
    requires AllEncodable(code)
    ensures Decode(EncodeAll(code) + rest, Initial()) == Append(RowsOfAll(code), Decode(rest, AfterAll(code)))
    decreases |code|
  {
    if code == [] {
      assert EncodeAll(code) + rest == rest;
      AppendTwice([], [], Decode(rest, Initial()));
    } else {
      var front, i := code[..|code| - 1], code[|code| - 1];
      var r := AfterAll(front);
      assert EncodeAll(code) + rest == EncodeAll(front) + (Encode(i) + rest);
      DecodesAll(front, Encode(i) + rest);
      Executes(i, r, rest);
      DecodesFirst(Encode(i), rest, r, After(i, r), RowsOf(i, r));
      AppendTwice(RowsOfAll(front), RowsOf(i, r), Decode(rest, After(i, r)));
    }
  }

  /** Decoding the bytes of any code that the encoder can write gives that code's rows. */
  lemma DecodesToItsRows(code: seq<Instruction>)
    requires AllEncodable(code)
    ensures Decode(EncodeAll(code), Initial()) == Some(RowsOfAll(code))
  {
    DecodesAll(code, []);
    assert EncodeAll(code) + [] == EncodeAll(code);
    assert RowsOfAll(code) + [] == RowsOfAll(code);
  }
}

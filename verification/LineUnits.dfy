/** A .debug_line unit: the header with its directory and file tables, then the program
    (section 6.2.4 of the DWARF 5 standard). */
module LineUnits {
  import opened ByteStreams
  import opened LinePrograms
  import opened Options

  type Bytes = seq<Byte>

  datatype Field = Text(text: Bytes) | Number(number: nat)

  /** The fields of one entry, each with its content type code. */
  type Entry = seq<(nat, Field)>

  /** The fields that say how to read the program. */
  datatype ProgramFields = ProgramFields(minimumLength: nat, maximumOperations: nat, isStmt: bool, lineBase: int,
                                         lineRange: nat, opcodeBase: nat, operandCounts: seq<nat>)

  /** The fields of the state machine's own constants. */
  const FIELDS := ProgramFields(MINIMUM_INSTRUCTION_LENGTH, 1, Initial().isStmt, LINE_BASE, LINE_RANGE, OPCODE_BASE,
                                OPERAND_COUNTS)

  datatype LineUnit = LineUnit(fields: ProgramFields, directories: seq<Entry>, files: seq<Entry>,
                               rows: seq<Registers>)

  const DW_LNCT_PATH: nat := 1
  const DW_LNCT_DIRECTORY_INDEX: nat := 2
  const DW_FORM_STRING: nat := 8
  const DW_FORM_UDATA: nat := 15

  // ---- Readers: what is in front of the bytes, and the bytes after it ----

  function ReadNumber(bytes: Bytes): (r: Option<(nat, Bytes)>)
    ensures r.Some? ==> |r.value.1| < |bytes|
  {
    match ReadULEB(bytes)
    case None => None
    case Some((v, n)) => Some((v, bytes[n..]))
  }

  function ReadField(form: nat, bytes: Bytes): Option<(Field, Bytes)> {
    if form == DW_FORM_STRING then
      (match ReadString(bytes) case None => None case Some((s, rest)) => Some((Text(s), rest)))
    else if form == DW_FORM_UDATA then
      (match ReadNumber(bytes) case None => None case Some((v, rest)) => Some((Number(v), rest)))
    else None
  }

  function ReadFormats(count: nat, bytes: Bytes): Option<(seq<(nat, nat)>, Bytes)> {
    if count == 0 then Some(([], bytes))
    else
      match ReadNumber(bytes)
      case None => None
      case Some((content, afterContent)) =>
        match ReadNumber(afterContent)
        case None => None
        case Some((form, afterForm)) =>
          match ReadFormats(count - 1, afterForm)
          case None => None
          case Some((formats, rest)) => Some(([(content, form)] + formats, rest))
  }

  function ReadEntry(formats: seq<(nat, nat)>, bytes: Bytes): Option<(Entry, Bytes)> {
    if formats == [] then Some(([], bytes))
    else
      match ReadField(formats[0].1, bytes)
      case None => None
      case Some((field, afterField)) =>
        match ReadEntry(formats[1..], afterField)
        case None => None
        case Some((entry, rest)) => Some(([(formats[0].0, field)] + entry, rest))
  }

  function ReadEntries(count: nat, formats: seq<(nat, nat)>, bytes: Bytes): Option<(seq<Entry>, Bytes)> {
    if count == 0 then Some(([], bytes))
    else
      match ReadEntry(formats, bytes)
      case None => None
      case Some((entry, afterEntry)) =>
        match ReadEntries(count - 1, formats, afterEntry)
        case None => None
        case Some((entries, rest)) => Some(([entry] + entries, rest))
  }

  /** A format description and the entries written in it. */
  function ReadTable(bytes: Bytes): Option<(seq<Entry>, Bytes)> {
    if bytes == [] then None
    else
      match ReadFormats(bytes[0], bytes[1..])
      case None => None
      case Some((formats, afterFormats)) =>
        match ReadNumber(afterFormats)
        case None => None
        case Some((count, afterCount)) => ReadEntries(count, formats, afterCount)
  }

  /** The six fields in front, the fourth signed, and an operand count for each opcode below the opcode base. */
  function ReadFields(bytes: Bytes): Option<(ProgramFields, Bytes)> {
    if |bytes| < 6 || bytes[5] == 0 || 5 + bytes[5] > |bytes| then None
    else
      var lineBase: int := bytes[3];
      var counts: seq<nat> := bytes[6..5 + bytes[5]];
      var fields := ProgramFields(bytes[0], bytes[1], bytes[2] != 0,
                                  if lineBase < 128 then lineBase else lineBase - 256, bytes[4], bytes[5], counts);
      Some((fields, bytes[5 + bytes[5]..]))
  }

  function ReadHeader(header: Bytes): Option<(ProgramFields, seq<Entry>, seq<Entry>)> {
    match ReadFields(header)
    case None => None
    case Some((fields, afterFields)) =>
      match ReadTable(afterFields)
      case None => None
      case Some((directories, afterDirectories)) =>
        match ReadTable(afterDirectories)
        case None => None
        case Some((files, rest)) => if rest == [] then Some((fields, directories, files)) else None
  }

  /** The header and the rows of a program, which the state machine reads for its own constants only. */
  function ReadParts(header: Bytes, program: Bytes): Option<LineUnit> {
    match ReadHeader(header)
    case None => None
    case Some((fields, directories, files)) =>
      if fields != FIELDS then None
      else
        match Decode(program, Initial())
        case None => None
        case Some(rows) => Some(LineUnit(fields, directories, files, rows))
  }

  /** Length, version 5, address size 8, no segment selectors, the header's length, the header, the program. */
  function ReadUnit(bytes: Bytes): Option<LineUnit> {
    if |bytes| < 12 || FromLE(bytes[..4]) != |bytes| - 4 then None
    else if FromLE(bytes[4..6]) != 5 || bytes[6] != 8 || bytes[7] != 0 then None
    else
      var headerLength := FromLE(bytes[8..12]);
      if 12 + headerLength > |bytes| then None
      else ReadParts(bytes[12..12 + headerLength], bytes[12 + headerLength..])
  }

  // ---- Writers ----

  function FieldBytes(field: Field): Bytes {
    match field
    case Text(s) => s + [0]
    case Number(v) => ULEB(v)
  }

  function FormatBytes(formats: seq<(nat, nat)>): Bytes {
    if formats == [] then [] else ULEB(formats[0].0) + ULEB(formats[0].1) + FormatBytes(formats[1..])
  }

  function EntryBytes(entry: Entry): Bytes {
    if entry == [] then [] else FieldBytes(entry[0].1) + EntryBytes(entry[1..])
  }

  function EntriesBytes(entries: seq<Entry>): Bytes {
    if entries == [] then [] else EntryBytes(entries[0]) + EntriesBytes(entries[1..])
  }

  function TableBytes(formats: seq<(nat, nat)>, entries: seq<Entry>): Bytes
    requires |formats| < 256
  {
    [|formats|] + FormatBytes(formats) + (ULEB(|entries|) + EntriesBytes(entries))
  }

  predicate Fits(format: (nat, nat), field: (nat, Field)) {
    && format.0 == field.0
    && match field.1
       case Text(s) => format.1 == DW_FORM_STRING && 0 !in s
       case Number(_) => format.1 == DW_FORM_UDATA
  }

  predicate Conforms(formats: seq<(nat, nat)>, entry: Entry) {
    |formats| == |entry|
    && (formats == [] || (Fits(formats[0], entry[0]) && Conforms(formats[1..], entry[1..])))
  }

  predicate AllConform(formats: seq<(nat, nat)>, entries: seq<Entry>) {
    entries == [] || (Conforms(formats, entries[0]) && AllConform(formats, entries[1..]))
  }

  lemma {:induction false} EntriesBytesAppend(entries: seq<Entry>, e: Entry)
    ensures EntriesBytes(entries + [e]) == EntriesBytes(entries) + EntryBytes(e)
  {
    if entries == [] {
      assert entries + [e] == [e];
    } else {
      EntriesBytesAppend(entries[1..], e);
      assert (entries + [e])[1..] == entries[1..] + [e];
      Associates(EntryBytes(entries[0]), EntriesBytes(entries[1..]), EntryBytes(e));
    }
  }

  // ---- Reading gives back what was written ----

  lemma ReadsNumber(v: nat, rest: Bytes)
    ensures ReadNumber(ULEB(v) + rest) == Some((v, rest))
  {
    ReadsULEB(v, rest);
    assert (ULEB(v) + rest)[|ULEB(v)|..] == rest;
  }

  lemma ReadsField(format: (nat, nat), field: (nat, Field), rest: Bytes)
    requires Fits(format, field)
    ensures ReadField(format.1, FieldBytes(field.1) + rest) == Some((field.1, rest))
  {
    match field.1
    case Text(s) => ReadsString(s, rest);
    case Number(v) => ReadsNumber(v, rest);
  }

  lemma {:induction false} ReadsFormats(formats: seq<(nat, nat)>, rest: Bytes)
    ensures ReadFormats(|formats|, FormatBytes(formats) + rest) == Some((formats, rest))
  {
    if formats == [] {
      assert FormatBytes(formats) + rest == rest;
    } else {
      var content, form := ULEB(formats[0].0), ULEB(formats[0].1);
      var tail := FormatBytes(formats[1..]) + rest;
      AssociatesThree(content, form, FormatBytes(formats[1..]), rest);
      ReadsNumber(formats[0].0, form + tail);
      ReadsNumber(formats[0].1, tail);
      ReadsFormats(formats[1..], rest);
      assert [(formats[0].0, formats[0].1)] + formats[1..] == formats;
    }
  }

  lemma {:induction false} ReadsEntry(formats: seq<(nat, nat)>, entry: Entry, rest: Bytes)
    requires Conforms(formats, entry)
    ensures ReadEntry(formats, EntryBytes(entry) + rest) == Some((entry, rest))
  {
    if formats == [] {
      assert EntryBytes(entry) + rest == rest;
    } else {
      var tail := EntryBytes(entry[1..]) + rest;
      Associates(FieldBytes(entry[0].1), EntryBytes(entry[1..]), rest);
      ReadsField(formats[0], entry[0], tail);
      ReadsEntry(formats[1..], entry[1..], rest);
      assert [(formats[0].0, entry[0].1)] + entry[1..] == entry;
    }
  }

  lemma {:induction false} ReadsEntries(formats: seq<(nat, nat)>, entries: seq<Entry>, rest: Bytes)
    requires AllConform(formats, entries)
    ensures ReadEntries(|entries|, formats, EntriesBytes(entries) + rest) == Some((entries, rest))
  {
    if entries == [] {
      assert EntriesBytes(entries) + rest == rest;
    } else {
      var tail := EntriesBytes(entries[1..]) + rest;
      Associates(EntryBytes(entries[0]), EntriesBytes(entries[1..]), rest);
      ReadsEntry(formats, entries[0], tail);
      ReadsEntries(formats, entries[1..], rest);
      assert [entries[0]] + entries[1..] == entries;
    }
  }

  lemma ReadsTable(formats: seq<(nat, nat)>, entries: seq<Entry>, rest: Bytes)
    requires |formats| < 256 && AllConform(formats, entries)
    ensures ReadTable(TableBytes(formats, entries) + rest) == Some((entries, rest))
  {
    var tail := EntriesBytes(entries) + rest;
    WithoutFirst(|formats|, FormatBytes(formats), ULEB(|entries|), EntriesBytes(entries), rest);
    ReadsFormats(formats, ULEB(|entries|) + tail);
    ReadsNumber(|entries|, tail);
    ReadsEntries(formats, entries, rest);
  }

  function DirectoryFormats(): seq<(nat, nat)> {
    [(DW_LNCT_PATH, DW_FORM_STRING)]
  }

  function FileFormats(): seq<(nat, nat)> {
    [(DW_LNCT_PATH, DW_FORM_STRING), (DW_LNCT_DIRECTORY_INDEX, DW_FORM_UDATA)]
  }

  /** Instruction length, operations per instruction, default_is_stmt, line base -5, line range 14, opcode base 13
      and the operand counts of the twelve standard opcodes. */
  function Preamble(): Bytes {
    [1, 1, 1, 251, 14, 13, 0, 1, 1, 1, 1, 0, 0, 0, 1, 0, 0, 1]
  }

  /** The header announces what the state machine takes for granted. */
  lemma FieldsRead(rest: Bytes)
    ensures ReadFields(Preamble() + rest) == Some((FIELDS, rest))
  {
    var bytes := Preamble() + rest;
    assert bytes[6..18] == OPERAND_COUNTS;
    assert bytes[18..] == rest;
  }

  function HeaderBytes(directories: seq<Entry>, files: seq<Entry>): Bytes {
    Preamble() + TableBytes(DirectoryFormats(), directories) + TableBytes(FileFormats(), files)
  }

  lemma ReadsBothTables(d: Bytes, f: Bytes, directories: seq<Entry>, files: seq<Entry>)
    requires ReadTable(d + f) == Some((directories, f)) && ReadTable(f) == Some((files, []))
    ensures ReadHeader(Preamble() + d + f) == Some((FIELDS, directories, files))
  {
    Associates(Preamble(), d, f);
    FieldsRead(d + f);
  }

  lemma ReadsHeader(directories: seq<Entry>, files: seq<Entry>)
    requires AllConform(DirectoryFormats(), directories) && AllConform(FileFormats(), files)
    ensures ReadHeader(HeaderBytes(directories, files)) == Some((FIELDS, directories, files))
  {
    var d, f := TableBytes(DirectoryFormats(), directories), TableBytes(FileFormats(), files);
    ReadsTable(DirectoryFormats(), directories, f);
    assert f + [] == f;
    ReadsTable(FileFormats(), files, []);
    ReadsBothTables(d, f, directories, files);
  }

  /** The unit: its length, version 5, address size 8, no segment selectors, the header's length, the rest. */
  function UnitBytes(whole: Bytes, part: Bytes, header: Bytes, program: Bytes): Bytes {
    whole + [5, 0, 8, 0] + part + header + program
  }

  lemma ReadsUnit(unit: Bytes, whole: Bytes, part: Bytes, header: Bytes, program: Bytes)
    requires |whole| == |part| == 4 && unit == UnitBytes(whole, part, header, program)
    requires FromLE(whole) == 8 + |header| + |program| && FromLE(part) == |header|
    ensures ReadUnit(unit) == ReadParts(header, program)
  {
    Slices(whole, [5, 0, 8, 0], part, header, program);
    assert unit[4..6] == [5, 0] && unit[6] == 8 && unit[7] == 0;
    assert FromLE([5, 0]) == 5;
  }
}

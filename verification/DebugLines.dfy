/** The line-number encoder of the DWARF section builder, read back by the state machine of LinePrograms. */
module DebugLines {
  import opened ByteStreams
  import opened FileTables
  import opened LinePrograms
  import opened LineUnits
  import opened Options
  import opened Sequences

  /** A source position with the address it stands for; line and column are 32-bit integers. */
  datatype DebugLineInfo = DebugLineInfo(file: Bytes, line: int, column: int, address: nat)

  // ---- The rows that a list of entries asks for ----

  /** The entry's own address when it is past the previous row, else one unit past it. */
  function RowAddress(lines: seq<DebugLineInfo>, i: nat): nat
    requires i < |lines|
  {
    if i == 0 then lines[0].address
    else
      var previous := RowAddress(lines, i - 1);
      if lines[i].address > previous then lines[i].address else previous + 1
  }

  lemma {:induction false} RowAddressesIncrease(lines: seq<DebugLineInfo>, i: nat, j: nat)
    requires i < j < |lines|
    ensures RowAddress(lines, i) < RowAddress(lines, j)
    ensures RowAddress(lines, j) >= lines[j].address
  {
    if i < j - 1 {
      RowAddressesIncrease(lines, i, j - 1);
    }
  }

  ghost predicate KeepsAddresses(lines: seq<DebugLineInfo>, n: nat)
    requires n <= |lines|
  {
    forall i: nat :: i < n ==> RowAddress(lines, i) == lines[i].address
  }

  predicate Increasing(lines: seq<DebugLineInfo>, n: nat)
    requires n <= |lines|
  {
    n <= 1 || (Increasing(lines, n - 1) && lines[n - 2].address < lines[n - 1].address)
  }

  /** The rows carry the entries' own addresses exactly when those increase strictly. */
  lemma {:induction false} IncreasingAddressesAreKept(lines: seq<DebugLineInfo>, n: nat)
    requires n <= |lines|
    ensures KeepsAddresses(lines, n) <==> Increasing(lines, n)
  {
    if n > 1 {
      IncreasingAddressesAreKept(lines, n - 1);
      LastAddressKept(lines, n);
    }
  }

  lemma LastAddressKept(lines: seq<DebugLineInfo>, n: nat)
    requires 1 < n <= |lines|
    ensures KeepsAddresses(lines, n)
            <==> KeepsAddresses(lines, n - 1) && lines[n - 2].address < lines[n - 1].address
  {
    if KeepsAddresses(lines, n - 1) {
      assert RowAddress(lines, n - 2) == lines[n - 2].address;
    }
    if KeepsAddresses(lines, n) {
      assert RowAddress(lines, n - 2) == lines[n - 2].address && RowAddress(lines, n - 1) == lines[n - 1].address;
    }
  }

  /** The entries are 32-bit integers, no two neighbours are further apart than that, and no address overflows. */
  ghost predicate EncodableLines(lines: seq<DebugLineInfo>) {
    forall i: nat :: i < |lines| ==>
      EncodableEntry(lines[i]) && Is32Bit(lines[i].line - LineBefore(lines, i)) && RowAddress(lines, i) < Pow256(8)
  }

  predicate Is32Bit(x: int) {
    -0x8000_0000 <= x < 0x8000_0000
  }

  function LineBefore(lines: seq<DebugLineInfo>, i: nat): int
    requires i <= |lines|
  {
    if i == 0 then 1 else lines[i - 1].line
  }

  predicate EncodableEntry(entry: DebugLineInfo) {
    Is32Bit(entry.line) && Is32Bit(entry.column)
  }

  /** A 32-bit integer converted to 32 or 64 unsigned bits. */
  function Unsigned32(x: int): nat { x % 0x1_0000_0000 }

  function Unsigned64(x: int): nat { x % 0x1_0000_0000_0000_0000 }

  lemma ColumnIsKept(x: int)
    requires -0x8000_0000 <= x < 0x8000_0000
    ensures Unsigned64(x) == x <==> x >= 0
  {
  }

  function Row(lines: seq<DebugLineInfo>, numbers: seq<nat>, i: nat): Registers
    requires i < |lines| && i < |numbers|
  {
    Initial().(address := RowAddress(lines, i), file := numbers[i], line := lines[i].line,
               column := Unsigned64(lines[i].column))
  }

  function RowsUpTo(lines: seq<DebugLineInfo>, numbers: seq<nat>, n: nat): (rows: seq<Registers>)
    requires n <= |lines| && n <= |numbers|
    ensures |rows| == n && forall i: nat :: i < n ==> rows[i] == Row(lines, numbers, i)
  {
    if n == 0 then [] else RowsUpTo(lines, numbers, n - 1) + [Row(lines, numbers, n - 1)]
  }

  /** The registers in front of entry n. */
  function RegistersAt(lines: seq<DebugLineInfo>, numbers: seq<nat>, n: nat): Registers
    requires n <= |lines| && n <= |numbers|
  {
    if n == 0 then Initial() else Row(lines, numbers, n - 1)
  }

  /** One row for each entry and then one that ends the sequence. */
  function LineTable(lines: seq<DebugLineInfo>, numbers: seq<nat>): seq<Registers>
    requires |numbers| == |lines|
  {
    RowsUpTo(lines, numbers, |lines|) + [RegistersAt(lines, numbers, |lines|).(endSequence := true)]
  }

  /** Row i stands for entry i: its line, its file's number, its column when that is not negative, at an address that
      is its own or later and past all earlier rows'. The last row, and only it, ends the sequence. */
  lemma RowsStandForEntries(lines: seq<DebugLineInfo>, numbers: seq<nat>, i: nat)
    requires |numbers| == |lines| && EncodableLines(lines) && i < |lines|
    ensures var t := LineTable(lines, numbers);
            && |t| == |lines| + 1 && t[|lines|].endSequence
            && t[i].line == lines[i].line && t[i].file == numbers[i] && t[i].isStmt && !t[i].endSequence
            && (t[i].column == lines[i].column <==> lines[i].column >= 0)
            && t[i].address >= lines[i].address
            && (forall j: nat :: j < i ==> t[j].address < t[i].address)
  {
    var t := LineTable(lines, numbers);
    assert t[i] == Row(lines, numbers, i) && EncodableEntry(lines[i]);
    ColumnIsKept(lines[i].column);
    forall j: nat | j < i ensures t[j].address < t[i].address {
      RowAddressesIncrease(lines, j, i);
      assert t[j] == Row(lines, numbers, j);
    }
    if i > 0 {
      RowAddressesIncrease(lines, i - 1, i);
    }
  }

  class DwarfSectionBuilder {
    var directories: seq<Bytes>
    var files: seq<FileEntry>
    var fileIndices: map<Bytes, nat>

    ghost predicate Valid()
      reads this
    {
      Consistent(directories, files, fileIndices)
    }

    constructor ()
      ensures Valid() && directories == [] && files == [] && fileIndices == map[]
    {
      directories, files, fileIndices := [], [], map[];
    }

    /** Find or add a directory. */
    method DirectoryIndex(dir: Bytes) returns (dirIndex: nat)
      requires Valid()
      modifies this`directories
      ensures Valid()
      ensures old(directories) <= directories <= old(directories) + [dir]
      ensures 1 <= dirIndex <= |directories| && directories[dirIndex - 1] == dir
    {
      dirIndex := 0;
      var i := 0;
      while i < |directories|
        invariant i <= |directories| && dirIndex == 0
        invariant forall k: nat :: k < i ==> directories[k] != dir
      {
        if directories[i] == dir {
          return i + 1;
        }
        i := i + 1;
      }
      DirectoryAdded(directories, files, fileIndices, dir);
      directories := directories + [dir];
      dirIndex := |directories|;
    }

    /** Numbers already given never change, and only the asked path can be new. */
    method GetOrAddFile(path: Bytes) returns (fileIndex: nat)
      requires Valid()
      modifies this
      ensures Valid()
      ensures path in fileIndices && fileIndex == fileIndices[path]
      ensures Keeps(old(fileIndices), fileIndices)
      ensures old(Clean(directories, files)) && 0 !in path ==> Clean(directories, files)
      ensures path in old(fileIndices) ==>
                fileIndices == old(fileIndices) && files == old(files) && directories == old(directories)
      ensures path !in old(fileIndices) ==>
                && fileIndex == |old(files)| + 1
                && fileIndices == old(fileIndices)[path := fileIndex]
                && old(files) == files[..|files| - 1]
                && old(directories) <= directories <= old(directories) + [SplitPath(path).0]
    {
      if path in fileIndices {
        return fileIndices[path];
      }
      var (dir, filename) := SplitPath(path);
      SplitPathIsClean(path);
      var dirIndex := DirectoryIndex(dir);
      fileIndex := |files| + 1;
      FileAdded(directories, files, fileIndices, path, FileEntry(dir, filename, dirIndex));
      files := files + [FileEntry(dir, filename, dirIndex)];
      fileIndices := fileIndices[path := fileIndex];
    }

    // ---- The encoder; code holds the instructions written since start ----

    static method WriteSetAddress(out: ByteBuffer, address: nat)
      modifies out
      ensures out.data == old(out.data) + Encode(SetAddress(address))
    {
      ghost var start, field := out.data, LE(address, 8);
      out.PushBack(0);
      WriteULEB128(out, 9);
      out.PushBack(2);
      WriteLE(out, address, 8);
      AssociatesFour(start, [0], ULEB(9), [2], field);
    }

    static method WriteUnsigned(out: ByteBuffer, opcode: Byte, operand: nat)
      modifies out
      ensures out.data == old(out.data) + ([opcode] + ULEB(operand))
    {
      out.PushBack(opcode);
      WriteULEB128(out, operand);
    }

    static method WriteAdvanceLine(out: ByteBuffer, delta: int)
      modifies out
      ensures out.data == old(out.data) + Encode(AdvanceLine(delta))
    {
      out.PushBack(3);
      WriteSLEB128(out, delta);
    }

    static method EncodeAddress(out: ByteBuffer, target: nat, first: bool, address: nat, ghost start: Bytes,
                                ghost code: seq<Instruction>)
      returns (ghost newCode: seq<Instruction>)
      requires Written(out.data, start, code) && target < Pow256(8)
      requires AfterAll(code).address == address && (first || target > address)
      modifies out
      ensures Written(out.data, start, newCode)
      ensures AfterAll(newCode) == AfterAll(code).(address := target) && RowsOfAll(newCode) == RowsOfAll(code)
    {
      if first {
        WriteSetAddress(out, target);
        newCode := code + [SetAddress(target)];
        Writes(old(out.data), start, code, SetAddress(target));
      } else {
        var delta := target - address;
        WriteUnsigned(out, 2, delta);
        newCode := code + [AdvancePc(delta)];
        Writes(old(out.data), start, code, AdvancePc(delta));
      }
    }

    static method EncodeFile(out: ByteBuffer, entryFile: nat, file: nat, ghost start: Bytes,
                             ghost code: seq<Instruction>)
      returns (ghost newCode: seq<Instruction>)
      requires Written(out.data, start, code) && AfterAll(code).file == file
      modifies out
      ensures Written(out.data, start, newCode)
      ensures AfterAll(newCode) == AfterAll(code).(file := entryFile) && RowsOfAll(newCode) == RowsOfAll(code)
    {
      newCode := code;
      if entryFile != file {
        WriteUnsigned(out, 4, entryFile);
        newCode := code + [SetFile(entryFile)];
        Writes(old(out.data), start, code, SetFile(entryFile));
      }
    }

    /** The encoder keeps 32 bits of the column and writes 64. */
    static method EncodeColumn(out: ByteBuffer, entryColumn: int, column: nat, ghost start: Bytes,
                               ghost code: seq<Instruction>)
      returns (ghost newCode: seq<Instruction>)
      requires Written(out.data, start, code)
      requires AfterAll(code).column == Unsigned64(entryColumn) <==> column == Unsigned32(entryColumn)
      modifies out
      ensures Written(out.data, start, newCode)
      ensures AfterAll(newCode) == AfterAll(code).(column := Unsigned64(entryColumn))
      ensures RowsOfAll(newCode) == RowsOfAll(code)
    {
      newCode := code;
      if Unsigned32(entryColumn) != column {
        WriteUnsigned(out, 5, Unsigned64(entryColumn));
        newCode := code + [SetColumn(Unsigned64(entryColumn))];
        Writes(old(out.data), start, code, SetColumn(Unsigned64(entryColumn)));
      }
    }

    static method EncodeLine(out: ByteBuffer, entryLine: int, line: int, ghost start: Bytes,
                             ghost code: seq<Instruction>)
      returns (ghost newCode: seq<Instruction>)
      requires Written(out.data, start, code) && AfterAll(code).line == line
      modifies out
      ensures Written(out.data, start, newCode)
      ensures AfterAll(newCode) == AfterAll(code).(line := entryLine) && RowsOfAll(newCode) == RowsOfAll(code)
    {
      newCode := code;
      var lineDelta := entryLine - line;
      if lineDelta != 0 {
        WriteAdvanceLine(out, lineDelta);
        newCode := code + [AdvanceLine(lineDelta)];
        Writes(old(out.data), start, code, AdvanceLine(lineDelta));
      }
    }

    /** What one round of the loop writes; address, file, line and column mirror the reader's registers. */
    static method EncodeRow(out: ByteBuffer, entry: DebugLineInfo, target: nat, entryFile: nat, first: bool,
                            address: nat, file: nat, line: int, column: nat, ghost start: Bytes,
                            ghost code: seq<Instruction>)
      returns (ghost newCode: seq<Instruction>)
      requires Written(out.data, start, code)
      requires var r := AfterAll(code);
               && r.address == address && r.file == file && r.line == line && Cleared(r) == r
               && (r.column == Unsigned64(entry.column) <==> column == Unsigned32(entry.column))
      requires target < Pow256(8) && (first || target > address)
      modifies out
      ensures Written(out.data, start, newCode)
      ensures AfterAll(newCode) == AfterAll(code).(address := target, file := entryFile, line := entry.line,
                                                   column := Unsigned64(entry.column))
      ensures RowsOfAll(newCode) == RowsOfAll(code) + [AfterAll(newCode)]
    {
      newCode := EncodeAddress(out, target, first, address, start, code);
      newCode := EncodeFile(out, entryFile, file, start, newCode);
      newCode := EncodeColumn(out, entry.column, column, start, newCode);
      newCode := EncodeLine(out, entry.line, line, start, newCode);
      ghost var before := out.data;
      out.PushBack(1);
      Writes(before, start, newCode, Copy);
      newCode := newCode + [Copy];
    }

    static method WriteEndSequence(out: ByteBuffer)
      modifies out
      ensures out.data == old(out.data) + Encode(EndSequence)
    {
      out.PushBack(0);
      WriteULEB128(out, 1);
      out.PushBack(1);
    }

    /** One round of the loop. */
    method EncodeEntry(out: ByteBuffer, lines: seq<DebugLineInfo>, i: nat, address: nat, file: nat, line: int,
                       column: nat, ghost numbers: seq<nat>, ghost start: Bytes, ghost code: seq<Instruction>)
      returns (newAddress: nat, newFile: nat, newLine: int, newColumn: nat, ghost newCode: seq<Instruction>)
      requires Valid() && EncodableLines(lines) && i < |lines|
      requires Encoded(lines, numbers, i, code, address, file, line, column) && Written(out.data, start, code)
      requires NumbersFrom(lines, numbers, fileIndices)
      modifies this, out
      ensures Valid() && Keeps(old(fileIndices), fileIndices)
      ensures Encoded(lines, numbers + [newFile], i + 1, newCode, newAddress, newFile, newLine, newColumn)
      ensures Written(out.data, start, newCode)
      ensures NumbersFrom(lines, numbers + [newFile], fileIndices)
      ensures lines[i].file in old(fileIndices) ==>
                fileIndices == old(fileIndices) && files == old(files) && directories == old(directories)
    {
      var entry := lines[i];
      newFile := GetOrAddFile(entry.file);
      NumbersGrow(lines, numbers, old(fileIndices), fileIndices);
      newAddress := if i == 0 || entry.address > address then entry.address else address + 1;
      assert RowAddress(lines, i) == newAddress < Pow256(8);
      SameColumn(lines, i);
      newCode := EncodeRow(out, entry, newAddress, newFile, i == 0, address, file, line, column, start, code);
      newLine, newColumn := entry.line, Unsigned32(entry.column);
      RowsExtend(lines, numbers, newFile, i);
    }

    method EncodeEntries(out: ByteBuffer, lines: seq<DebugLineInfo>)
      returns (ghost numbers: seq<nat>, ghost code: seq<Instruction>)
      requires Valid() && EncodableLines(lines)
      modifies this, out
      ensures Valid() && Keeps(old(fileIndices), fileIndices)
      ensures |numbers| == |lines| && NumbersFrom(lines, numbers, fileIndices)
      ensures Written(out.data, old(out.data), code)
      ensures AfterAll(code) == RegistersAt(lines, numbers, |lines|)
      ensures RowsOfAll(code) == RowsUpTo(lines, numbers, |lines|)
      ensures HasFiles(lines, old(fileIndices)) ==>
                fileIndices == old(fileIndices) && files == old(files) && directories == old(directories)
    {
      ghost var start, given := out.data, fileIndices;
      var address, file, line, column := 0, 1, 1, 0;
      code, numbers := [], [];
      for i := 0 to |lines|
        invariant Valid() && Keeps(given, fileIndices)
        invariant Encoded(lines, numbers, i, code, address, file, line, column)
        invariant Written(out.data, start, code)
        invariant NumbersFrom(lines, numbers, fileIndices)
        invariant HasFiles(lines, given) ==>
                    fileIndices == given && files == old(files) && directories == old(directories)
      {
        address, file, line, column, code :=
          EncodeEntry(out, lines, i, address, file, line, column, numbers, start, code);
        numbers := numbers + [file];
      }
    }

    /** The bytes appended decode to one row for each entry and the row that ends the sequence. */
    method EncodeLineStatements(out: ByteBuffer, lines: seq<DebugLineInfo>)
      requires Valid() && EncodableLines(lines)
      modifies this, out
      ensures Valid() && Keeps(old(fileIndices), fileIndices) && HasFiles(lines, fileIndices)
      ensures old(out.data) <= out.data
      ensures Decode(out.data[|old(out.data)|..], Initial()) == Some(LineTable(lines, Numbers(lines, fileIndices)))
      ensures HasFiles(lines, old(fileIndices)) ==>
                fileIndices == old(fileIndices) && files == old(files) && directories == old(directories)
    {
      ghost var start := out.data;
      if lines == [] {
        WriteEndSequence(out);
        Writes(start, start, [], EndSequence);
        DecodesWritten(out.data, start, [EndSequence]);
        return;
      }
      ghost var numbers, code := EncodeEntries(out, lines);
      AreTheNumbers(lines, numbers, fileIndices);
      ghost var before := out.data;
      WriteEndSequence(out);
      Writes(before, start, code, EndSequence);
      DecodesWritten(out.data, start, code + [EndSequence]);
    }

    // ---- The unit ----

    method EncodeLineHeader(out: ByteBuffer)
      modifies out
      ensures out.data == old(out.data) + HeaderBytes(DirectoryEntries([[46]] + directories), FileEntries(files))
    {
      ghost var start := out.data;
      out.Append(Preamble());
      WriteDirectoryTable(out, [[46]] + directories);
      WriteFileTable(out, files);
      AssociatesThree(start, Preamble(), TableBytes(DirectoryFormats(), DirectoryEntries([[46]] + directories)),
                      TableBytes(FileFormats(), FileEntries(files)));
      Associates(Preamble(), TableBytes(DirectoryFormats(), DirectoryEntries([[46]] + directories)),
                 TableBytes(FileFormats(), FileEntries(files)));
    }

    /** The files of all entries are given their numbers first. */
    method AddFiles(lines: seq<DebugLineInfo>)
      requires Valid() && Clean(directories, files) && CleanPaths(lines)
      modifies this
      ensures Valid() && Clean(directories, files)
      ensures Keeps(old(fileIndices), fileIndices) && HasFiles(lines, fileIndices)
    {
      ghost var given := fileIndices;
      for i := 0 to |lines|
        invariant Valid() && Clean(directories, files)
        invariant Keeps(given, fileIndices) && HasFiles(lines[..i], fileIndices)
      {
        ghost var before := fileIndices;
        var _ := GetOrAddFile(lines[i].file);
        OneMoreFile(lines, i, before, fileIndices);
        KeepsTwice(given, before, fileIndices);
      }
      assert lines[..|lines|] == lines;
    }

    /** Version, address size and two lengths that are patched in later. */
    static method OpenUnit() returns (result: ByteBuffer)
      ensures fresh(result)
      ensures result.data == LE(0, 4) + [5, 0, 8, 0] + LE(0, 4)
    {
      result := new ByteBuffer();
      WriteLE(result, 0, 4);
      result.PushBack(5);   // version 5 in two bytes
      result.PushBack(0);
      result.PushBack(8);
      result.PushBack(0);
      WriteLE(result, 0, 4);
    }

    /** Everything in front of the program, with the header length patched in. */
    method BuildHeader() returns (result: ByteBuffer)
      ensures fresh(result)
      ensures result.data == UnitFront(directories, files)
    {
      result := OpenUnit();
      ghost var front := LE(0, 4) + [5, 0, 8, 0];
      EncodeLineHeader(result);
      ghost var header := HeaderBytes(DirectoryEntries([[46]] + directories), FileEntries(files));
      Patch32(result, 8, |result.data| - 12);
      Patched(front, LE(0, 4), header, LE(|header|, 4));
    }

    /** When its length fits 32 bits, the unit reads back as the tables and one row for each entry. */
    method BuildDebugLine(lines: seq<DebugLineInfo>) returns (result: ByteBuffer)
      requires Valid() && Clean(directories, files) && EncodableLines(lines) && CleanPaths(lines)
      modifies this
      ensures Valid() && Keeps(old(fileIndices), fileIndices) && HasFiles(lines, fileIndices)
      ensures ReadsAs(result.data, UnitOf(directories, files, LineTable(lines, Numbers(lines, fileIndices))))
    {
      AddFiles(lines);
      result := BuildHeader();
      ghost var front := result.data;
      EncodeLineStatements(result, lines);
      FinishUnit(result, front, directories, files, LineTable(lines, Numbers(lines, fileIndices)));
    }

    static method FinishUnit(result: ByteBuffer, ghost front: Bytes, ghost dirs: seq<Bytes>,
                             ghost entries: seq<FileEntry>, ghost rows: seq<Registers>)
      requires Clean(dirs, entries) && front == UnitFront(dirs, entries) && front <= result.data
      requires Decode(result.data[|front|..], Initial()) == Some(rows)
      modifies result
      ensures ReadsAs(result.data, UnitOf(dirs, entries, rows))
    {
      ghost var data := result.data;
      Patch32(result, 0, |result.data| - 4);
      PatchedUnitReads(data, result.data, front, dirs, entries, rows);
    }
  }

  /** The front of a unit whose own length is still to be patched in. */
  ghost function UnitFront(directories: seq<Bytes>, files: seq<FileEntry>): (front: Bytes)
    ensures |front| >= 4
  {
    var header := HeaderBytes(DirectoryEntries([[46]] + directories), FileEntries(files));
    LE(0, 4) + [5, 0, 8, 0] + LE(|header|, 4) + header
  }

  ghost predicate CleanPaths(lines: seq<DebugLineInfo>) {
    forall i: nat :: i < |lines| ==> 0 !in lines[i].file
  }

  lemma OneMoreFile(lines: seq<DebugLineInfo>, i: nat, before: map<Bytes, nat>, after: map<Bytes, nat>)
    requires i < |lines| && HasFiles(lines[..i], before) && Keeps(before, after) && lines[i].file in after
    ensures HasFiles(lines[..i + 1], after)
  {
    var shorter, longer := lines[..i], lines[..i + 1];
    forall k: nat | k < |longer| ensures longer[k].file in after {
      if k < i {
        assert shorter[k].file in before;
      }
    }
  }

  lemma KeepsTwice(a: map<Bytes, nat>, b: map<Bytes, nat>, c: map<Bytes, nat>)
    requires Keeps(a, b) && Keeps(b, c)
    ensures Keeps(a, c)
  {
  }

  lemma Patched(front: Bytes, before: Bytes, header: Bytes, after: Bytes)
    requires |before| == |after| == 4
    ensures var s := front + before + header;
            s[..|front|] + after + s[|front| + 4..] == front + after + header
  {
  }

  lemma PatchedFirst(before: Bytes, a: Bytes, b: Bytes, header: Bytes, program: Bytes, after: Bytes)
    requires |before| == |after| == 4
    ensures var s := before + a + b + header + program;
            s[..0] + after + s[4..] == after + a + b + header + program
  {
  }

  ghost function UnitOf(directories: seq<Bytes>, files: seq<FileEntry>, rows: seq<Registers>): LineUnit {
    LineUnit(FIELDS, DirectoryEntries([[46]] + directories), FileEntries(files), rows)
  }

  lemma HeaderReads(directories: seq<Bytes>, files: seq<FileEntry>)
    requires Clean(directories, files)
    ensures var d, f := DirectoryEntries([[46]] + directories), FileEntries(files);
            ReadHeader(HeaderBytes(d, f)) == Some((FIELDS, d, f))
  {
    DirectoriesConform([[46]] + directories);
    FilesConform(files);
    ReadsHeader(DirectoryEntries([[46]] + directories), FileEntries(files));
  }

  /** A unit whose length fits its 32 bits. */
  ghost predicate ReadsAs(data: Bytes, unit: LineUnit) {
    |data| - 4 < Pow256(4) ==> ReadUnit(data) == Some(unit)
  }

  lemma PatchedUnit(before: Bytes, after: Bytes, part: Bytes, header: Bytes, program: Bytes)
    requires |before| == |after| == |part| == 4
    ensures var data := UnitBytes(before, part, header, program);
            |data| == 12 + |header| + |program|
            && data[..0] + after + data[4..] == UnitBytes(after, part, header, program)
  {
    PatchedFirst(before, [5, 0, 8, 0], part, header, program, after);
  }

  lemma PartsRead(directories: seq<Bytes>, files: seq<FileEntry>, program: Bytes, rows: seq<Registers>)
    requires Clean(directories, files) && Decode(program, Initial()) == Some(rows)
    ensures ReadParts(HeaderBytes(DirectoryEntries([[46]] + directories), FileEntries(files)), program)
            == Some(UnitOf(directories, files, rows))
  {
    HeaderReads(directories, files);
  }

  lemma UnitSplits(front: Bytes, data: Bytes, directories: seq<Bytes>, files: seq<FileEntry>)
    requires front == UnitFront(directories, files) && front <= data
    ensures var header := HeaderBytes(DirectoryEntries([[46]] + directories), FileEntries(files));
            data == UnitBytes(LE(0, 4), LE(|header|, 4), header, data[|front|..])
            && |data| == 12 + |header| + |data[|front|..]|
  {
    assert data == front + data[|front|..];
  }

  lemma LengthsRead(whole: Bytes, part: Bytes, m: nat, n: nat)
    requires n <= m < Pow256(4) && whole == LE(m, 4) && part == LE(n, 4)
    ensures |whole| == |part| == 4 && FromLE(whole) == m && FromLE(part) == n
  {
    FromLEOfLE(m, 4);
    FromLEOfLE(n, 4);
  }

  lemma PatchedIsUnit(data: Bytes, patched: Bytes, zero: Bytes, whole: Bytes, part: Bytes, header: Bytes,
                      program: Bytes)
    requires |zero| == |whole| == |part| == 4 && data == UnitBytes(zero, part, header, program)
    requires patched == data[..0] + whole + data[4..]
    ensures |patched| == |data| && patched == UnitBytes(whole, part, header, program)
  {
    PatchedUnit(zero, whole, part, header, program);
  }

  lemma FinishedUnitReads(unit: Bytes, whole: Bytes, part: Bytes, header: Bytes, program: Bytes)
    requires 8 + |header| + |program| < Pow256(4)
    requires whole == LE(8 + |header| + |program|, 4) && part == LE(|header|, 4)
    requires unit == UnitBytes(whole, part, header, program)
    ensures ReadUnit(unit) == ReadParts(header, program)
  {
    LengthsRead(whole, part, 8 + |header| + |program|, |header|);
    ReadsUnit(unit, whole, part, header, program);
  }

  lemma PatchedPartsRead(data: Bytes, patched: Bytes, zero: Bytes, whole: Bytes, part: Bytes, header: Bytes,
                         program: Bytes)
    requires |data| == 12 + |header| + |program| && data == UnitBytes(zero, part, header, program)
    requires |zero| == |whole| == |part| == 4 && whole == LE(|data| - 4, 4) && part == LE(|header|, 4)
    requires patched == data[..0] + whole + data[4..]
    ensures |patched| - 4 < Pow256(4) ==> ReadUnit(patched) == ReadParts(header, program)
  {
    PatchedIsUnit(data, patched, zero, whole, part, header, program);
    if |patched| - 4 < Pow256(4) { FinishedUnitReads(patched, whole, part, header, program); }
  }

  /** The unit with its own length patched in. */
  lemma PatchedUnitReads(data: Bytes, patched: Bytes, front: Bytes, dirs: seq<Bytes>, entries: seq<FileEntry>,
                         rows: seq<Registers>)
    requires Clean(dirs, entries) && front == UnitFront(dirs, entries) && front <= data
    requires Decode(data[|front|..], Initial()) == Some(rows)
    requires patched == data[..0] + LE(|data| - 4, 4) + data[4..]
    ensures ReadsAs(patched, UnitOf(dirs, entries, rows))
  {
    var header, program := HeaderBytes(DirectoryEntries([[46]] + dirs), FileEntries(entries)), data[|front|..];
    UnitSplits(front, data, dirs, entries);
    PatchedPartsRead(data, patched, LE(0, 4), LE(|data| - 4, 4), LE(|header|, 4), header, program);
    PartsRead(dirs, entries, program, rows);
  }

  /** The entry at this position has the path's name and, counted from 0, its directory. */
  ghost predicate IsEntryOf(directories: seq<Entry>, files: seq<Entry>, position: nat, path: Bytes) {
    && position < |files|
    && var (dir, name) := SplitPath(path);
       exists d: nat :: d < |directories| && directories[d] == NameEntry(dir)
                        && files[position] == EntryOf(FileEntry(dir, name, d))
  }

  /** File `number`, counted from 1, is the path. */
  ghost predicate LeadsToPath(directories: seq<Entry>, files: seq<Entry>, number: nat, path: Bytes) {
    1 <= number && IsEntryOf(directories, files, number - 1, path)
  }

  lemma TablesLeadToPath(directories: seq<Bytes>, files: seq<FileEntry>, number: nat, path: Bytes)
    requires HoldsFile(directories, files, number, path)
    ensures LeadsToPath(DirectoryEntries([[46]] + directories), FileEntries(files), number, path)
  {
    var d := files[number - 1].dirIndex;
    assert ([[46]] + directories)[d] == directories[d - 1];
    assert DirectoryEntries([[46]] + directories)[d] == NameEntry(SplitPath(path).0);
  }

  /** The file number of a row leads through the unit's own tables to the entry's path. */
  lemma RowsNameTheirFiles(directories: seq<Bytes>, files: seq<FileEntry>, fileIndices: map<Bytes, nat>,
                           lines: seq<DebugLineInfo>, i: nat)
    requires Consistent(directories, files, fileIndices) && HasFiles(lines, fileIndices) && i < |lines|
    ensures var rows := LineTable(lines, Numbers(lines, fileIndices));
            |rows| == |lines| + 1
            && LeadsToPath(DirectoryEntries([[46]] + directories), FileEntries(files), rows[i].file, lines[i].file)
  {
    var numbers, path := Numbers(lines, fileIndices), lines[i].file;
    assert LineTable(lines, numbers)[i] == Row(lines, numbers, i);
    TablesLeadToPath(directories, files, fileIndices[path], path);
  }

  /**
    Version 5 numbers the file table from 0 (section 6.2.4 of the DWARF 5 standard). Read that way, the number
    of a row leads to its entry's path exactly when the next file has the same two parts: never for the last file.
   */
  lemma CountedFromZero(directories: seq<Bytes>, files: seq<FileEntry>, fileIndices: map<Bytes, nat>, path: Bytes)
    requires Consistent(directories, files, fileIndices) && path in fileIndices
    ensures var n := fileIndices[path];
            1 <= n <= |files|
            && (IsEntryOf(DirectoryEntries([[46]] + directories), FileEntries(files), n, path)
                <==> n < |files| && files[n] == files[n - 1])
  {
    var n := fileIndices[path];
    var d, f := DirectoryEntries([[46]] + directories), FileEntries(files);
    assert HoldsFile(directories, files, n, path);
    TablesLeadToPath(directories, files, n, path);
    if IsEntryOf(d, f, n, path) {
      NextIsTheSame(directories, files, n, path);
    }
  }

  lemma NextIsTheSame(directories: seq<Bytes>, files: seq<FileEntry>, n: nat, path: Bytes)
    requires HoldsFile(directories, files, n, path) && Distinct(directories)
    requires n < |files| && Placed(directories, files[n])
    requires IsEntryOf(DirectoryEntries([[46]] + directories), FileEntries(files), n, path)
    ensures files[n] == files[n - 1]
  {
    var (dir, name) := SplitPath(path);
    var entries := DirectoryEntries([[46]] + directories);
    var d: nat :| d < |entries| && entries[d] == NameEntry(dir)
                  && FileEntries(files)[n] == EntryOf(FileEntry(dir, name, d));
    assert EntryOf(files[n]) == EntryOf(FileEntry(dir, name, d));
    assert files[n].dirIndex == d && files[n].filename == name;
    assert ([[46]] + directories)[d] == directories[d - 1];
    assert NameEntry(directories[d - 1]) == NameEntry(dir);
    assert directories[d - 1] == dir == directories[files[n - 1].dirIndex - 1];
  }

  ghost predicate Written(data: Bytes, start: Bytes, code: seq<Instruction>) {
    data == start + EncodeAll(code) && AllEncodable(code)
  }

  lemma Writes(data: Bytes, start: Bytes, code: seq<Instruction>, i: Instruction)
    requires Written(data, start, code) && LinePrograms.Encodable(i)
    ensures Written(data + Encode(i), start, code + [i])
    ensures AfterAll(code + [i]) == After(i, AfterAll(code))
    ensures RowsOfAll(code + [i]) == RowsOfAll(code) + RowsOf(i, AfterAll(code))
  {
    OneMore(code, i);
    Associates(start, EncodeAll(code), Encode(i));
  }

  lemma DecodesWritten(data: Bytes, start: Bytes, code: seq<Instruction>)
    requires Written(data, start, code)
    ensures start <= data && Decode(data[|start|..], Initial()) == Some(RowsOfAll(code))
  {
    DecodesToItsRows(code);
    assert data[|start|..] == EncodeAll(code);
  }

  /** The first n entries have given their rows, and the encoder's variables mirror the registers. */
  ghost predicate Encoded(lines: seq<DebugLineInfo>, numbers: seq<nat>, n: nat, code: seq<Instruction>,
                          address: nat, file: nat, line: int, column: nat) {
    && |numbers| == n <= |lines|
    && RowsOfAll(code) == RowsUpTo(lines, numbers, n)
    && AfterAll(code) == RegistersAt(lines, numbers, n)
    && (var r := RegistersAt(lines, numbers, n); r.address == address && r.file == file && r.line == line)
    && column == Unsigned32(LastColumn(lines, n))
  }

  lemma AreTheNumbers(lines: seq<DebugLineInfo>, numbers: seq<nat>, fileIndices: map<Bytes, nat>)
    requires |numbers| == |lines| && NumbersFrom(lines, numbers, fileIndices)
    ensures HasFiles(lines, fileIndices) && numbers == Numbers(lines, fileIndices)
  {
  }

  /** Every path keeps the number it had. */
  ghost predicate Keeps(before: map<Bytes, nat>, after: map<Bytes, nat>) {
    forall p :: p in before ==> p in after && after[p] == before[p]
  }

  ghost predicate NumbersFrom(lines: seq<DebugLineInfo>, numbers: seq<nat>, fileIndices: map<Bytes, nat>)
    requires |numbers| <= |lines|
  {
    forall k: nat :: k < |numbers| ==> lines[k].file in fileIndices && numbers[k] == fileIndices[lines[k].file]
  }

  lemma NumbersGrow(lines: seq<DebugLineInfo>, numbers: seq<nat>, before: map<Bytes, nat>, after: map<Bytes, nat>)
    requires |numbers| < |lines| && NumbersFrom(lines, numbers, before) && Keeps(before, after)
    requires lines[|numbers|].file in after
    ensures NumbersFrom(lines, numbers + [after[lines[|numbers|].file]], after)
  {
  }

  ghost predicate HasFiles(lines: seq<DebugLineInfo>, fileIndices: map<Bytes, nat>) {
    forall i: nat :: i < |lines| ==> lines[i].file in fileIndices
  }

  ghost function Numbers(lines: seq<DebugLineInfo>, fileIndices: map<Bytes, nat>): (s: seq<nat>)
    requires HasFiles(lines, fileIndices)
    ensures |s| == |lines| && forall i: nat :: i < |lines| ==> s[i] == fileIndices[lines[i].file]
  {
    seq(|lines|, i requires 0 <= i < |lines| => fileIndices[lines[i].file])
  }

  lemma RowsExtend(lines: seq<DebugLineInfo>, numbers: seq<nat>, number: nat, n: nat)
    requires n < |lines| && n == |numbers|
    ensures RowsUpTo(lines, numbers + [number], n) == RowsUpTo(lines, numbers, n)
    ensures RowsUpTo(lines, numbers + [number], n + 1)
            == RowsUpTo(lines, numbers, n) + [Row(lines, numbers + [number], n)]
  {
    forall i: nat | i < n ensures Row(lines, numbers + [number], i) == Row(lines, numbers, i) {
    }
  }

  ghost function LastColumn(lines: seq<DebugLineInfo>, n: nat): int
    requires n <= |lines|
  {
    if n == 0 then 0 else lines[n - 1].column
  }

  /** Comparing 32-bit columns tells as much as comparing the 64-bit operands. */
  lemma SameColumn(lines: seq<DebugLineInfo>, n: nat)
    requires n < |lines| && EncodableLines(lines)
    ensures Unsigned64(LastColumn(lines, n)) == Unsigned64(lines[n].column)
            <==> Unsigned32(LastColumn(lines, n)) == Unsigned32(lines[n].column)
  {
    assert EncodableEntry(lines[n]) && (n > 0 ==> EncodableEntry(lines[n - 1]));
    Wraps(LastColumn(lines, n));
    Wraps(lines[n].column);
  }

  lemma Wraps(x: int)
    requires Is32Bit(x)
    ensures Unsigned32(x) == if x >= 0 then x else x + 0x1_0000_0000
    ensures Unsigned64(x) == if x >= 0 then x else x + 0x1_0000_0000_0000_0000
  {
  }
}

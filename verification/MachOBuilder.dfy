/** The Mach-O object builder: a layout computed first, bytes emitted after it, and both agree. */
module MachOBuilders {
  import opened ByteStreams
  import opened MachOContents
  import opened MachOFormat
  import opened MachORecords
  import opened ObjectFiles
  import opened Options

  ghost predicate Representable(sections: seq<Section>, symbols: seq<Symbol>) {
    && |sections| < 256
    && (forall i: nat :: i < |sections| ==> 0 !in sections[i].name)
    && (forall j: nat :: j < |symbols| ==> 0 !in symbols[j].name)
  }

  // ---- Parts at their places ----

  predicate At(bytes: Bytes, at: nat, part: Bytes) {
    at + |part| <= |bytes| && bytes[at..at + |part|] == part
  }

  lemma AtStays(before: Bytes, after: Bytes, at: nat, part: Bytes)
    requires before <= after && At(before, at, part)
    ensures At(after, at, part)
  {
    assert after == before + after[|before|..];
    SliceOfFront(before, after[|before|..], at, |part|);
  }

  lemma PrefixThen(a: Bytes, b: Bytes, c: Bytes)
    requires a <= b <= c
    ensures a <= c
  {
  }

  lemma AtEnd(before: Bytes, part: Bytes)
    ensures At(before + part, |before|, part)
  {
  }

  ghost predicate DataPlaced(bytes: Bytes, sections: seq<Section>, n: nat)
    requires n <= |sections|
  {
    forall i: nat :: i < n ==> At(bytes, DataAt(sections, i), sections[i].data)
  }

  ghost predicate TablesPlaced(bytes: Bytes, sections: seq<Section>, n: nat, symbols: seq<Symbol>, isArm64: bool)
    requires n <= |sections|
  {
    forall i: nat :: i < n ==> TablePlaced(bytes, sections, i, symbols, isArm64)
  }

  ghost predicate TablePlaced(bytes: Bytes, sections: seq<Section>, i: nat, symbols: seq<Symbol>, isArm64: bool)
    requires i < |sections|
  {
    sections[i].relocations != [] ==>
      At(bytes, TableAt(sections, i), Concat(RelocationRecords(sections[i], symbols, isArm64)))
  }

  lemma DataStays(before: Bytes, after: Bytes, sections: seq<Section>, n: nat)
    requires n <= |sections| && before <= after && DataPlaced(before, sections, n)
    ensures DataPlaced(after, sections, n)
  {
    forall i: nat | i < n ensures At(after, DataAt(sections, i), sections[i].data) {
      AtStays(before, after, DataAt(sections, i), sections[i].data);
    }
  }

  lemma TablesStay(before: Bytes, after: Bytes, sections: seq<Section>, n: nat, symbols: seq<Symbol>, isArm64: bool)
    requires n <= |sections| && before <= after && TablesPlaced(before, sections, n, symbols, isArm64)
    ensures TablesPlaced(after, sections, n, symbols, isArm64)
  {
    forall i: nat | i < n ensures TablePlaced(after, sections, i, symbols, isArm64) {
      assert TablePlaced(before, sections, i, symbols, isArm64);
      if sections[i].relocations != [] {
        AtStays(before, after, TableAt(sections, i), Concat(RelocationRecords(sections[i], symbols, isArm64)));
      }
    }
  }

  function SectionHeaders(sections: seq<Section>): (parts: seq<Bytes>)
    ensures |parts| == |sections| && AllOfSize(parts, 80)
    ensures forall i: nat :: i < |parts| ==> parts[i] == SectionHeader(sections, i)
  {
    seq(|sections|, i requires 0 <= i < |sections| => SectionHeader(sections, i))
  }

  // ---- Reading the sections and symbols ----

  lemma HeaderReads(bytes: Bytes, sections: seq<Section>, i: nat, symbols: seq<Symbol>, isArm64: bool)
    requires i < |sections| && 0 !in sections[i].name && |bytes| < Pow256(4)
    requires At(bytes, DataAt(sections, i), sections[i].data)
    requires sections[i].relocations != [] ==>
               At(bytes, TableAt(sections, i), Concat(RelocationRecords(sections[i], symbols, isArm64)))
    ensures ReadSection(bytes, SectionHeader(sections, i)) == Some(SectionOf(sections[i], symbols, isArm64))
  {
    var s := sections[i];
    var tableAt := if s.relocations == [] then 0 else TableAt(sections, i);
    var table, rs := Concat(RelocationRecords(s, symbols, isArm64)), RelocationsOf(s, symbols, isArm64);
    TableReads(s, symbols, isArm64);
    assert At(bytes, tableAt, table) by {
      if s.relocations == [] {
        assert table == [];
      }
    }
    HeaderParses(sections, i, |bytes|, tableAt);
    ReadsParsed(bytes, RawHeaderOf(sections, i), s.data, table, rs);
  }

  function RawHeaderOf(sections: seq<Section>, i: nat): RawHeader
    requires i < |sections|
  {
    var s := sections[i];
    RawHeader(MappedName(s.name).0, MappedName(s.name).1, |s.data|, DataAt(sections, i), 4,
              if s.relocations == [] then 0 else TableAt(sections, i), |s.relocations|, SectionFlags(s.name))
  }

  lemma HeaderParses(sections: seq<Section>, i: nat, limit: nat, tableAt: nat)
    requires i < |sections| && 0 !in sections[i].name && limit < Pow256(4)
    requires tableAt == if sections[i].relocations == [] then 0 else TableAt(sections, i)
    requires DataAt(sections, i) + |sections[i].data| <= limit && tableAt + 8 * |sections[i].relocations| <= limit
    ensures ParseHeader(SectionHeader(sections, i)) == RawHeaderOf(sections, i)
  {
    var s := sections[i];
    WidthsGrow();
    HeaderNames(s.name);
    HeaderFlags(s.name);
    HeaderNumbers(|s.data|, DataAt(sections, i), tableAt, |s.relocations|);
    ThirdsSlices(HeaderFront(s.name), HeaderMiddle(|s.data|, DataAt(sections, i), tableAt, |s.relocations|),
                 HeaderBack(s.name));
  }

  lemma ReadsParsed(bytes: Bytes, h: RawHeader, data: Bytes, table: Bytes, rs: seq<MachRelocation>)
    requires h.size == |data| && At(bytes, h.at, data)
    requires |table| == 8 * h.count && At(bytes, h.tableAt, table) && ReadRelocations(table, h.count) == rs
    ensures ReadParsed(bytes, h) == Some(MachSection(h.name, h.segment, data, h.alignment, rs, h.flags))
  {
  }

  lemma WidthsGrow()
    ensures Pow256(4) < Pow256(8)
  {
    assert Pow256(5) == 256 * Pow256(4);
    assert Pow256(6) == 256 * Pow256(5);
    assert Pow256(7) == 256 * Pow256(6);
  }

  lemma SectionsRead(bytes: Bytes, sections: seq<Section>, symbols: seq<Symbol>, isArm64: bool)
    requires Representable(sections, symbols) && |bytes| < Pow256(4)
    requires DataPlaced(bytes, sections, |sections|) && TablesPlaced(bytes, sections, |sections|, symbols, isArm64)
    ensures ReadAll(SectionHeaders(sections), MachOFormat.SectionReader(bytes)) ==
            SectionsOf(sections, symbols, isArm64)
  {
    var read := MachOFormat.SectionReader(bytes);
    forall i: nat | i < |sections|
      ensures read(SectionHeader(sections, i)) == Some(SectionOf(sections[i], symbols, isArm64))
    {
      assert At(bytes, DataAt(sections, i), sections[i].data);
      assert TablePlaced(bytes, sections, i, symbols, isArm64);
      HeaderReads(bytes, sections, i, symbols, isArm64);
    }
  }

  lemma SymbolsRead(sections: seq<Section>, symbols: seq<Symbol>)
    requires Representable(sections, symbols) && |Strings(symbols, |symbols|)| < Pow256(4)
    ensures ReadAll(SymbolRecords(sections, symbols), MachOFormat.SymbolReader(Strings(symbols, |symbols|)))
            == SymbolsOf(sections, symbols)
  {
    var read := MachOFormat.SymbolReader(Strings(symbols, |symbols|));
    forall j: nat | j < |symbols|
      ensures read(SymbolRecordOf(sections, symbols, j)) == Some(SymbolOf(sections, symbols, j))
    {
      SymbolReads(sections, symbols, j);
    }
  }

  // ---- Reading the load commands ----

  /** The segment command with its section headers, the symbol table command and the build version command. */
  function SizeOfCommands(sectionCount: nat): nat {
    72 + 80 * sectionCount + 24 + 24
  }

  /** The commands around n section headers. */
  predicate PartsPlaced(bytes: Bytes, header: Bytes, segment: Bytes, symtab: Bytes, build: Bytes, n: nat) {
    && At(bytes, 0, header) && At(bytes, 32, segment)
    && At(bytes, 104 + 80 * n, symtab) && At(bytes, 128 + 80 * n, build)
  }

  ghost predicate CommandsPlaced(bytes: Bytes, isArm64: bool, start: nat, vmSize: nat, a: Announced) {
    PartsPlaced(bytes, MachHeader(isArm64, SizeOfCommands(a.sectionCount)),
                SegmentCommand(start, vmSize, a.sectionCount),
                SymtabCommand(a.symbolsAt, a.symbolCount, a.stringsAt, a.stringsSize), BuildVersionCommand(),
                a.sectionCount)
  }

  lemma PartsStay(before: Bytes, after: Bytes, header: Bytes, segment: Bytes, symtab: Bytes, build: Bytes, n: nat)
    requires before <= after && PartsPlaced(before, header, segment, symtab, build, n)
    ensures PartsPlaced(after, header, segment, symtab, build, n)
  {
    AtStays(before, after, 0, header);
    AtStays(before, after, 32, segment);
    AtStays(before, after, 104 + 80 * n, symtab);
    AtStays(before, after, 128 + 80 * n, build);
  }

  predicate Fits(a: Announced) {
    && 72 + 80 * a.sectionCount < Pow256(4) && a.symbolsAt < Pow256(4) && a.symbolCount < Pow256(4)
    && a.stringsAt < Pow256(4) && a.stringsSize < Pow256(4)
  }

  lemma PartOf(bytes: Bytes, at: nat, part: Bytes, from: nat, n: nat)
    requires At(bytes, at, part) && from + n <= |part|
    ensures bytes[at + from..at + from + n] == part[from..from + n]
  {
    SliceOfSlice(bytes, at, |part|, from, n);
  }

  /** The four bytes at `from` of a part hold v, so the file does at that place. */
  lemma WordAt(bytes: Bytes, at: nat, part: Bytes, from: nat, v: nat)
    requires At(bytes, at, part) && from + 4 <= |part| && part[from..from + 4] == LE(v, 4) && v < Pow256(4)
    ensures at + from + 4 <= |bytes| && FromLE(bytes[at + from..at + from + 4]) == v
  {
    PartOf(bytes, at, part, from, 4);
    FromLEOfLE(v, 4);
  }

  // The numbers of the header and of the two commands, where the reader looks for them.

  predicate MagicAndCpu(bytes: Bytes, cpu: nat) {
    |bytes| >= 32 && FromLE(bytes[..4]) == 0xFEED_FACF && FromLE(bytes[4..8]) == cpu
  }

  predicate SegmentNumbers(bytes: Bytes, count: nat) {
    |bytes| >= 104 && FromLE(bytes[32..36]) == 0x19 && FromLE(bytes[36..40]) == 72 + 80 * count
    && FromLE(bytes[96..100]) == count
  }

  predicate SymtabNumbers(bytes: Bytes, at: nat, a: Announced) {
    && at + 24 <= |bytes| && FromLE(bytes[at..at + 4]) == 2
    && FromLE(bytes[at + 8..at + 12]) == a.symbolsAt && FromLE(bytes[at + 12..at + 16]) == a.symbolCount
    && FromLE(bytes[at + 16..at + 20]) == a.stringsAt && FromLE(bytes[at + 20..at + 24]) == a.stringsSize
  }

  lemma HeaderSlices(a: Bytes, b: Bytes, c: Bytes, d: Bytes, e: Bytes, f: Bytes, g: Bytes, h: Bytes)
    requires |a| == |b| == |c| == |d| == |e| == |f| == |g| == |h| == 4
    ensures var s := a + b + c + d + e + f + g + h; s[0..4] == a && s[4..8] == b
  {
  }

  lemma ReadsMachHeader(bytes: Bytes, isArm64: bool, sizeOfCommands: nat)
    requires At(bytes, 0, MachHeader(isArm64, sizeOfCommands))
    ensures MagicAndCpu(bytes, Cpu(isArm64))
  {
    var h := MachHeader(isArm64, sizeOfCommands);
    HeaderSlices(LE(0xFEED_FACF, 4), LE(Cpu(isArm64), 4), LE(if isArm64 then 0 else 3, 4), LE(1, 4), LE(3, 4),
                 LE(sizeOfCommands, 4), LE(0, 4), LE(0, 4));
    WordWidths();
    WordAt(bytes, 0, h, 0, 0xFEED_FACF);
    WordAt(bytes, 0, h, 4, Cpu(isArm64));
  }

  lemma SegmentSlices(a: Bytes, b: Bytes, c: Bytes, d: Bytes, e: Bytes)
    requires |a| == |b| == 4 && |c| == 56 && |d| == |e| == 4
    ensures var s := a + b + c + d + e; s[0..4] == a && s[4..8] == b && s[64..68] == d
  {
  }

  lemma ReadsSegment(bytes: Bytes, start: nat, vmSize: nat, count: nat)
    requires At(bytes, 32, SegmentCommand(start, vmSize, count)) && 72 + 80 * count < Pow256(4)
    ensures SegmentNumbers(bytes, count)
  {
    var size := 72 + 80 * count;
    SegmentSlices(LE(0x19, 4), LE(size, 4), SegmentMiddle(start, vmSize), LE(count, 4), LE(0, 4));
    ReadsSegmentWords(bytes, SegmentCommand(start, vmSize, count), size, count);
  }

  lemma ReadsSegmentWords(bytes: Bytes, segment: Bytes, size: nat, count: nat)
    requires At(bytes, 32, segment) && |segment| == 72 && count <= size < Pow256(4)
    requires segment[0..4] == LE(0x19, 4) && segment[4..8] == LE(size, 4) && segment[64..68] == LE(count, 4)
    ensures |bytes| >= 104 && FromLE(bytes[32..36]) == 0x19
    ensures FromLE(bytes[36..40]) == size && FromLE(bytes[96..100]) == count
  {
    assert 0x19 < Pow256(4) by { WordWidths(); }
    WordAt(bytes, 32, segment, 0, 0x19);
    WordAt(bytes, 32, segment, 4, size);
    WordAt(bytes, 32, segment, 64, count);
  }

  lemma SymtabSlices(a: Bytes, b: Bytes, c: Bytes, d: Bytes, e: Bytes, f: Bytes)
    requires |a| == |b| == |c| == |d| == |e| == |f| == 4
    ensures var s := a + b + c + d + e + f;
            s[0..4] == a && s[8..12] == c && s[12..16] == d && s[16..20] == e && s[20..24] == f
  {
  }

  lemma ReadsSymtab(bytes: Bytes, at: nat, a: Announced)
    requires At(bytes, at, SymtabCommand(a.symbolsAt, a.symbolCount, a.stringsAt, a.stringsSize)) && Fits(a)
    ensures SymtabNumbers(bytes, at, a)
  {
    var s := SymtabCommand(a.symbolsAt, a.symbolCount, a.stringsAt, a.stringsSize);
    SymtabSlices(LE(2, 4), LE(24, 4), LE(a.symbolsAt, 4), LE(a.symbolCount, 4), LE(a.stringsAt, 4),
                 LE(a.stringsSize, 4));
    WordWidths();
    WordAt(bytes, at, s, 0, 2);
    WordAt(bytes, at, s, 8, a.symbolsAt);
    WordAt(bytes, at, s, 12, a.symbolCount);
    WordAt(bytes, at, s, 16, a.stringsAt);
    WordAt(bytes, at, s, 20, a.stringsSize);
  }

  lemma ReadsCommandsFrom(bytes: Bytes, a: Announced)
    requires MagicAndCpu(bytes, a.cpu) && SegmentNumbers(bytes, a.sectionCount)
    requires SymtabNumbers(bytes, 104 + 80 * a.sectionCount, a)
    ensures ReadCommands(bytes) == Some(a)
  {
  }

  lemma CommandsRead(bytes: Bytes, isArm64: bool, start: nat, vmSize: nat, a: Announced)
    requires CommandsPlaced(bytes, isArm64, start, vmSize, a) && Fits(a) && a.cpu == Cpu(isArm64)
    ensures ReadCommands(bytes) == Some(a)
  {
    ReadsMachHeader(bytes, isArm64, SizeOfCommands(a.sectionCount));
    ReadsSegment(bytes, start, vmSize, a.sectionCount);
    ReadsSymtab(bytes, 104 + 80 * a.sectionCount, a);
    ReadsCommandsFrom(bytes, a);
  }

  // ---- Reading the file ----

  lemma SplitAt(bytes: Bytes, at: nat, parts: seq<Bytes>, size: nat, count: nat, total: nat)
    requires AllOfSize(parts, size) && At(bytes, at, Concat(parts)) && count == |parts| && total == size * count
    ensures at + total <= |bytes| && Split(bytes[at..at + total], size, count) == parts
  {
    SplitsConcat(parts, size);
    assert |Concat(parts)| == total;
  }

  lemma RegionsFrom(bytes: Bytes, a: Announced, headers: seq<Bytes>, records: seq<Bytes>, strings: Bytes)
    requires 104 + 80 * a.sectionCount <= |bytes| && a.stringsAt + a.stringsSize <= |bytes|
    requires a.symbolsAt + 16 * a.symbolCount <= |bytes|
    requires Split(bytes[104..104 + 80 * a.sectionCount], 80, a.sectionCount) == headers
    requires Split(bytes[a.symbolsAt..a.symbolsAt + 16 * a.symbolCount], 16, a.symbolCount) == records
    requires bytes[a.stringsAt..a.stringsAt + a.stringsSize] == strings
    ensures RegionsOf(bytes, a) == Some(Regions(headers, records, strings))
  {
  }

  lemma SliceAt(bytes: Bytes, at: nat, part: Bytes, size: nat)
    requires At(bytes, at, part) && size == |part|
    ensures at + size <= |bytes| && bytes[at..at + size] == part
  {
  }

  lemma RegionsRead(bytes: Bytes, a: Announced, headers: seq<Bytes>, records: seq<Bytes>, strings: Bytes)
    requires AllOfSize(headers, 80) && AllOfSize(records, 16)
    requires a.sectionCount == |headers| && a.symbolCount == |records| && a.stringsSize == |strings|
    requires At(bytes, 104, Concat(headers)) && At(bytes, a.symbolsAt, Concat(records))
    requires At(bytes, a.stringsAt, strings)
    ensures RegionsOf(bytes, a) == Some(Regions(headers, records, strings))
  {
    SplitAt(bytes, 104, headers, 80, a.sectionCount, 80 * a.sectionCount);
    SplitAt(bytes, a.symbolsAt, records, 16, a.symbolCount, 16 * a.symbolCount);
    SliceAt(bytes, a.stringsAt, strings, a.stringsSize);
    RegionsFrom(bytes, a, headers, records, strings);
  }

  lemma ReadsMachOFrom(bytes: Bytes, a: Announced, r: Regions, sections: seq<Option<MachSection>>,
                       symbols: seq<Option<MachSymbol>>)
    requires ReadCommands(bytes) == Some(a) && RegionsOf(bytes, a) == Some(r)
    requires ReadAll(r.headers, MachOFormat.SectionReader(bytes)) == sections
    requires ReadAll(r.records, MachOFormat.SymbolReader(r.strings)) == symbols
    ensures ReadMachO(bytes) == Some(MachFile(a.cpu, sections, symbols))
  {
  }

  /** A file with every part at its announced place reads back as the sections and symbols. */
  lemma FileReads(bytes: Bytes, sections: seq<Section>, symbols: seq<Symbol>, isArm64: bool, a: Announced, r: Regions)
    requires Representable(sections, symbols) && |bytes| < Pow256(4) && |r.strings| < Pow256(4)
    requires ReadCommands(bytes) == Some(a) && RegionsOf(bytes, a) == Some(r) && a.cpu == Cpu(isArm64)
    requires r == Regions(SectionHeaders(sections), SymbolRecords(sections, symbols), Strings(symbols, |symbols|))
    requires DataPlaced(bytes, sections, |sections|) && TablesPlaced(bytes, sections, |sections|, symbols, isArm64)
    ensures ReadMachO(bytes) == Some(FileOf(sections, symbols, isArm64))
  {
    SectionsRead(bytes, sections, symbols, isArm64);
    SymbolsRead(sections, symbols);
    ReadsMachOFrom(bytes, a, r, SectionsOf(sections, symbols, isArm64), SymbolsOf(sections, symbols));
  }

  // ---- First pass: the layout ----

  /** What a section header says about its relocation table. */
  function TableField(sections: seq<Section>, i: nat): nat
    requires i < |sections|
  {
    if sections[i].relocations == [] then 0 else TableAt(sections, i)
  }

  ghost predicate AreDataOffsets(offsets: seq<nat>, sections: seq<Section>) {
    |offsets| <= |sections| && forall i: nat :: i < |offsets| ==> offsets[i] == DataAt(sections, i)
  }

  ghost predicate AreTableOffsets(offsets: seq<nat>, sections: seq<Section>) {
    |offsets| <= |sections| && forall i: nat :: i < |offsets| ==> offsets[i] == TableField(sections, i)
  }

  lemma NextDataAt(sections: seq<Section>, i: nat)
    requires i < |sections|
    ensures DataAt(sections, i + 1) == Up(DataAt(sections, i) + |sections[i].data|, 16)
  {
  }

  lemma NextTableAt(sections: seq<Section>, i: nat)
    requires i < |sections|
    ensures TableAt(sections, i + 1)
            == if sections[i].relocations == [] then TableAt(sections, i)
               else Up(TableAt(sections, i) + |sections[i].relocations| * 8, 4)
  {
  }

  method PlaceData(sections: seq<Section>) returns (offsets: seq<nat>, current: nat)
    ensures |offsets| == |sections| && AreDataOffsets(offsets, sections)
    ensures current == DataAt(sections, |sections|)
  {
    var headerSize := 32 + (72 + 80 * |sections| + 24 + 24);
    offsets, current := [], Up(headerSize, 16);
    assert current == DataAt(sections, 0);
    for i := 0 to |sections|
      invariant |offsets| == i && AreDataOffsets(offsets, sections)
      invariant current == DataAt(sections, i)
    {
      NextDataAt(sections, i);
      offsets := offsets + [current];
      current := Up(current + |sections[i].data|, 16);
    }
  }

  method PlaceTables(sections: seq<Section>, start: nat) returns (offsets: seq<nat>, current: nat)
    requires start == DataAt(sections, |sections|)
    ensures |offsets| == |sections| && AreTableOffsets(offsets, sections)
    ensures current == StringsAt(sections)
  {
    offsets, current := [], start;
    for i := 0 to |sections|
      invariant |offsets| == i && AreTableOffsets(offsets, sections)
      invariant current == TableAt(sections, i)
    {
      NextTableAt(sections, i);
      if sections[i].relocations != [] {
        offsets := offsets + [current];
        current := current + |sections[i].relocations| * 8;
        current := Up(current, 4);
      } else {
        offsets := offsets + [0];
      }
    }
  }

  method AppendMangled(strtab: ByteBuffer, name: Bytes)
    modifies strtab
    ensures strtab.data == old(strtab.data) + (Mangled(name) + [0])
  {
    ghost var start := strtab.data;
    strtab.PushBack(95);
    strtab.Append(name);
    strtab.PushBack(0);
    AssociatesThree(start, [95], name, [0]);
    Associates([95], name, [0]);
  }

  ghost predicate AreStringOffsets(offsets: seq<nat>, symbols: seq<Symbol>) {
    |offsets| <= |symbols| && forall j: nat :: j < |offsets| ==> offsets[j] == |Strings(symbols, j)|
  }

  method BuildStrings(symbols: seq<Symbol>) returns (strtab: ByteBuffer, offsets: seq<nat>)
    ensures fresh(strtab) && strtab.data == Strings(symbols, |symbols|)
    ensures |offsets| == |symbols| && AreStringOffsets(offsets, symbols)
  {
    strtab := new ByteBuffer();
    strtab.PushBack(0x20);
    strtab.PushBack(0);
    offsets := [];
    for j := 0 to |symbols|
      invariant strtab.data == Strings(symbols, j) && fresh(strtab)
      invariant |offsets| == j && AreStringOffsets(offsets, symbols)
    {
      offsets := offsets + [|strtab.data|];
      AppendMangled(strtab, symbols[j].name);
    }
  }

  // ---- Second pass: the bytes ----

  method PadTo(out: ByteBuffer, offset: nat)
    modifies out
    ensures old(out.data) <= out.data
    ensures |out.data| == if |old(out.data)| < offset then offset else |old(out.data)|
  {
    while |out.data| < offset
      invariant old(out.data) <= out.data
      invariant |out.data| <= offset || out.data == old(out.data)
    {
      out.PushBack(0);
    }
  }

  method AlignTo8(out: ByteBuffer)
    modifies out
    ensures old(out.data) <= out.data && |out.data| == Up(|old(out.data)|, 8)
  {
    ghost var size := |out.data|;
    UpIsTight(size, 8);
    while |out.data| % 8 != 0
      invariant old(out.data) <= out.data && size <= |out.data| <= Up(size, 8)
      decreases Up(size, 8) - |out.data|
    {
      out.PushBack(0);
    }
    NextMultiple(size, |out.data|);
  }

  lemma NextMultiple(x: nat, y: nat)
    requires y % 8 == 0 && x <= y <= Up(x, 8)
    ensures y == Up(x, 8)
  {
  }

  method EmitCommands(out: ByteBuffer, isArm64: bool, sections: seq<Section>, offsets: seq<nat>, tables: seq<nat>,
                      start: nat, vmSize: nat, a: Announced)
    requires out.data == [] && a.sectionCount == |sections| == |offsets| == |tables|
    requires AreDataOffsets(offsets, sections)
    requires AreTableOffsets(tables, sections)
    modifies out
    ensures |out.data| == 152 + 80 * |sections|
    ensures CommandsPlaced(out.data, isArm64, start, vmSize, a)
    ensures At(out.data, 104, Concat(SectionHeaders(sections)))
  {
    var header, segment := MachHeader(isArm64, SizeOfCommands(|sections|)), SegmentCommand(start, vmSize, |sections|);
    var symtab, build := SymtabCommand(a.symbolsAt, a.symbolCount, a.stringsAt, a.stringsSize), BuildVersionCommand();
    out.Append(header);
    out.Append(segment);
    EmitHeaders(out, sections, offsets, tables);
    out.Append(symtab);
    out.Append(build);
    UniformSize(SectionHeaders(sections), 80);
    FiveParts(header, segment, Concat(SectionHeaders(sections)), symtab, build, |sections|);
    assert [] + header == header;
  }

  lemma FiveParts(header: Bytes, segment: Bytes, headers: Bytes, symtab: Bytes, build: Bytes, n: nat)
    requires |header| == 32 && |segment| == 72 && |headers| == 80 * n && |symtab| == 24
    ensures var s := header + segment + headers + symtab + build;
            PartsPlaced(s, header, segment, symtab, build, n) && At(s, 104, headers)
  {
  }

  method EmitHeaders(out: ByteBuffer, sections: seq<Section>, offsets: seq<nat>, tables: seq<nat>)
    requires |sections| == |offsets| == |tables|
    requires AreDataOffsets(offsets, sections)
    requires AreTableOffsets(tables, sections)
    modifies out
    ensures out.data == old(out.data) + Concat(SectionHeaders(sections))
  {
    ghost var before, parts := out.data, SectionHeaders(sections);
    assert parts[..0] == [];
    for i := 0 to |sections|
      invariant out.data == before + Concat(parts[..i])
    {
      var s := sections[i];
      NextOffset(parts, i);
      Associates(before, Concat(parts[..i]), parts[i]);
      out.Append(HeaderFront(s.name) +
                 HeaderMiddle(|s.data|, offsets[i], tables[i], |s.relocations|) + HeaderBack(s.name));
    }
    assert parts[..|sections|] == parts;
  }

  method EmitSection(out: ByteBuffer, sections: seq<Section>, i: nat, offset: nat)
    requires i < |sections| && offset == DataAt(sections, i) && |out.data| <= offset
    requires DataPlaced(out.data, sections, i)
    modifies out
    ensures old(out.data) <= out.data && |out.data| <= DataAt(sections, i + 1)
    ensures DataPlaced(out.data, sections, i + 1)
  {
    ghost var before := out.data;
    PadTo(out, offset);
    ghost var padded := out.data;
    out.Append(sections[i].data);
    AtEnd(padded, sections[i].data);
    DataStays(before, out.data, sections, i);
    DataIsAligned(sections, i, i + 1);
  }

  method EmitData(out: ByteBuffer, sections: seq<Section>, offsets: seq<nat>, start: nat)
    requires |out.data| == 152 + 80 * |sections| && |offsets| == |sections| && start == DataAt(sections, 0)
    requires AreDataOffsets(offsets, sections)
    modifies out
    ensures old(out.data) <= out.data && |out.data| <= DataAt(sections, |sections|)
    ensures DataPlaced(out.data, sections, |sections|)
  {
    ghost var begin := out.data;
    UpIsTight(152 + 80 * |sections|, 16);
    PadTo(out, start);
    for i := 0 to |sections|
      invariant begin <= out.data && |out.data| <= DataAt(sections, i)
      invariant DataPlaced(out.data, sections, i)
    {
      ghost var before := out.data;
      EmitSection(out, sections, i, offsets[i]);
      PrefixThen(begin, before, out.data);
    }
  }

  method EmitTable(out: ByteBuffer, s: Section, symbols: seq<Symbol>, symbolNumbers: map<Bytes, nat>, isArm64: bool)
    requires Numbers(symbolNumbers, symbols, |symbols|)
    modifies out
    ensures out.data == old(out.data) + Concat(RelocationRecords(s, symbols, isArm64))
  {
    ghost var before, parts := out.data, RelocationRecords(s, symbols, isArm64);
    assert parts[..0] == [];
    for k := 0 to |s.relocations|
      invariant out.data == before + Concat(parts[..k])
    {
      var r := s.relocations[k];
      var number := if r.symbol in symbolNumbers then symbolNumbers[r.symbol] else 0;
      assert number == SymbolNumber(symbols, |symbols|, r.symbol);
      var pcRelative, length, kind := 0, 3, 0;
      if isArm64 && (r.kind == 2 || r.kind == 3) {
        pcRelative, length, kind := if r.kind == 2 then 1 else 0, 2, if r.kind == 2 then 3 else 4;
      } else if r.kind == 1 {
        pcRelative, length, kind := 1, 2, 2;
      }
      var record := MachRelocation(r.offset % Pow256(4), number % 0x100_0000, pcRelative, length, 1, kind);
      assert record == RelocationOf(r, symbols, isArm64);
      NextOffset(parts, k);
      Associates(before, Concat(parts[..k]), parts[k]);
      out.Append(RelocationRecord(record));
    }
    assert parts[..|s.relocations|] == parts;
  }

  ghost predicate Numbers(m: map<Bytes, nat>, symbols: seq<Symbol>, n: nat)
    requires n <= |symbols|
  {
    forall name :: (if name in m then m[name] else 0) == SymbolNumber(symbols, n, name)
  }

  method NumberSymbols(symbols: seq<Symbol>) returns (m: map<Bytes, nat>)
    ensures Numbers(m, symbols, |symbols|)
  {
    m := map[];
    for i := 0 to |symbols|
      invariant Numbers(m, symbols, i)
    {
      m := m[symbols[i].name := i];
    }
  }

  method EmitPaddedTable(out: ByteBuffer, offset: nat, s: Section, symbols: seq<Symbol>,
                         symbolNumbers: map<Bytes, nat>, isArm64: bool)
    requires |out.data| <= offset && Numbers(symbolNumbers, symbols, |symbols|)
    modifies out
    ensures old(out.data) <= out.data && |out.data| == offset + 8 * |s.relocations|
    ensures At(out.data, offset, Concat(RelocationRecords(s, symbols, isArm64)))
  {
    PadTo(out, offset);
    ghost var padded := out.data;
    EmitTable(out, s, symbols, symbolNumbers, isArm64);
    AtEnd(padded, Concat(RelocationRecords(s, symbols, isArm64)));
    UniformSize(RelocationRecords(s, symbols, isArm64), 8);
  }

  method EmitNextTable(out: ByteBuffer, sections: seq<Section>, i: nat, offset: nat, symbols: seq<Symbol>,
                       symbolNumbers: map<Bytes, nat>, isArm64: bool)
    requires i < |sections| && offset == TableField(sections, i) && |out.data| <= TableAt(sections, i)
    requires TablesPlaced(out.data, sections, i, symbols, isArm64) && Numbers(symbolNumbers, symbols, |symbols|)
    modifies out
    ensures old(out.data) <= out.data && |out.data| <= TableAt(sections, i + 1)
    ensures TablesPlaced(out.data, sections, i + 1, symbols, isArm64)
  {
    ghost var before := out.data;
    TablesGrow(sections, i, i + 1);
    if sections[i].relocations != [] {
      EmitPaddedTable(out, offset, sections[i], symbols, symbolNumbers, isArm64);
    }
    TablesStay(before, out.data, sections, i, symbols, isArm64);
  }

  method EmitTables(out: ByteBuffer, sections: seq<Section>, tables: seq<nat>, symbols: seq<Symbol>, isArm64: bool)
    requires |tables| == |sections| && |out.data| <= DataAt(sections, |sections|)
    requires AreTableOffsets(tables, sections)
    modifies out
    ensures old(out.data) <= out.data && |out.data| <= StringsAt(sections)
    ensures TablesPlaced(out.data, sections, |sections|, symbols, isArm64)
  {
    var symbolNumbers := NumberSymbols(symbols);
    ghost var begin := out.data;
    for i := 0 to |sections|
      invariant begin <= out.data && |out.data| <= TableAt(sections, i)
      invariant TablesPlaced(out.data, sections, i, symbols, isArm64)
    {
      ghost var before := out.data;
      EmitNextTable(out, sections, i, tables[i], symbols, symbolNumbers, isArm64);
      PrefixThen(begin, before, out.data);
    }
  }

  method EmitSymbols(out: ByteBuffer, sections: seq<Section>, symbols: seq<Symbol>, offsets: seq<nat>)
    requires |offsets| == |symbols| && AreStringOffsets(offsets, symbols)
    modifies out
    ensures out.data == old(out.data) + Concat(SymbolRecords(sections, symbols))
  {
    ghost var before, parts := out.data, SymbolRecords(sections, symbols);
    assert parts[..0] == [];
    for j := 0 to |symbols|
      invariant out.data == before + Concat(parts[..j])
    {
      var s := symbols[j];
      var section := FindSection(sections, s.section);
      var number := section % 256;
      NextOffset(parts, j);
      Associates(before, Concat(parts[..j]), parts[j]);
      assert parts[j] == SymbolRecordOf(sections, symbols, j);
      out.Append(SymbolRecord(offsets[j], SymbolKind(s, number), number, s.offset));
    }
    assert parts[..|symbols|] == parts;
  }

  method FindSection(sections: seq<Section>, name: Bytes) returns (k: nat)
    ensures k == FirstSection(sections, 0, name)
  {
    for i := 0 to |sections|
      invariant FirstSection(sections, 0, name) == FirstSection(sections, i, name)
    {
      if sections[i].name == name {
        return i + 1;
      }
    }
    return 0;
  }

  // ---- The builder ----

  class MachOBuilder {
    const isArm64: bool
    var sections: seq<Section>
    var symbols: seq<Symbol>

    constructor (isArm64: bool)
      ensures this.isArm64 == isArm64 && sections == [] && symbols == []
    {
      this.isArm64 := isArm64;
      sections, symbols := [], [];
    }

    method AddSection(section: Section)
      modifies this
      ensures sections == old(sections) + [section] && symbols == old(symbols)
    {
      sections := sections + [section];
    }

    method AddSymbol(symbol: Symbol)
      modifies this
      ensures symbols == old(symbols) + [symbol] && sections == old(sections)
    {
      symbols := symbols + [symbol];
    }

    /** Load commands, section data and relocation tables. */
    method EmitBody(a: Announced, dataOffsets: seq<nat>, tableOffsets: seq<nat>, start: nat, vmSize: nat)
      returns (out: ByteBuffer)
      requires |dataOffsets| == |tableOffsets| == |sections| == a.sectionCount
      requires AreDataOffsets(dataOffsets, sections) && AreTableOffsets(tableOffsets, sections)
      requires start == DataAt(sections, 0)
      ensures fresh(out) && |out.data| <= StringsAt(sections)
      ensures HasBody(out.data, sections, symbols, isArm64, start, vmSize, a)
    {
      out := new ByteBuffer();
      EmitCommands(out, isArm64, sections, dataOffsets, tableOffsets, start, vmSize, a);
      ghost var commands := out.data;
      EmitData(out, sections, dataOffsets, start);
      ghost var data := out.data;
      EmitTables(out, sections, tableOffsets, symbols, isArm64);
      CommandsStay(commands, out.data, isArm64, start, vmSize, a);
      AtStays(commands, out.data, 104, Concat(SectionHeaders(sections)));
      DataStays(data, out.data, sections, |sections|);
    }

    /** Every part is emitted at the place that was announced for it. */
    method Emit(a: Announced, dataOffsets: seq<nat>, tableOffsets: seq<nat>, stringOffsets: seq<nat>, strtab: Bytes,
                start: nat, vmSize: nat)
      returns (out: ByteBuffer)
      requires |dataOffsets| == |tableOffsets| == |sections| == a.sectionCount && |stringOffsets| == |symbols|
      requires AreDataOffsets(dataOffsets, sections) && AreTableOffsets(tableOffsets, sections)
      requires AreStringOffsets(stringOffsets, symbols)
      requires start == DataAt(sections, 0) && a.stringsAt == StringsAt(sections)
      requires a.symbolsAt == SymbolsAt(sections, |strtab|)
      ensures fresh(out)
      ensures HasBody(out.data, sections, symbols, isArm64, start, vmSize, a)
      ensures At(out.data, a.stringsAt, strtab) && At(out.data, a.symbolsAt, Concat(SymbolRecords(sections, symbols)))
    {
      out := EmitBody(a, dataOffsets, tableOffsets, start, vmSize);
      ghost var body := out.data;
      EmitTail(out, a, sections, symbols, stringOffsets, strtab);
      BodyStays(body, out.data, sections, symbols, isArm64, start, vmSize, a);
    }

    /** A file below 4 GB reads back as the sections and symbols that were added. */
    method Build() returns (out: ByteBuffer)
      requires Representable(sections, symbols)
      ensures fresh(out)
      ensures |out.data| < Pow256(4) ==> ReadsBack(out.data, sections, symbols, isArm64)
    {
      var dataOffsets, current := PlaceData(sections);
      var tableOffsets, stringsAt := PlaceTables(sections, current);
      var strtab, stringOffsets := BuildStrings(symbols);
      var size := |strtab.data|;
      var start := Up(152 + 80 * |sections|, 16);
      var a := Announced(Cpu(isArm64), |sections|, stringsAt + Up(size, 8), |symbols|, stringsAt, size);
      var vmSize := if stringsAt > start then stringsAt - start else 0;
      out := Emit(a, dataOffsets, tableOffsets, stringOffsets, strtab.data, start, vmSize);
      BuiltReads(out.data, sections, symbols, isArm64, start, vmSize, a);
    }
  }

  method EmitStrings(out: ByteBuffer, stringsAt: nat, strtab: Bytes)
    requires |out.data| <= stringsAt
    modifies out
    ensures old(out.data) <= out.data && |out.data| == stringsAt + |strtab| && At(out.data, stringsAt, strtab)
  {
    PadTo(out, stringsAt);
    AtEnd(out.data, strtab);
    out.Append(strtab);
  }

  /** The alignment step in front of the symbol table lands on its announced place. */
  method ReachSymbols(out: ByteBuffer, sections: seq<Section>, size: nat, symbolsAt: nat)
    requires |out.data| == StringsAt(sections) + size && symbolsAt == SymbolsAt(sections, size)
    modifies out
    ensures old(out.data) <= out.data && |out.data| == symbolsAt
  {
    TablesAreAligned(sections, |sections|);
    UpFromAligned(StringsAt(sections), size);
    AlignTo8(out);
    PadTo(out, symbolsAt);
  }

  /** The string table and, after the alignment step, the symbol table. */
  method EmitTail(out: ByteBuffer, a: Announced, sections: seq<Section>, symbols: seq<Symbol>, stringOffsets: seq<nat>,
                  strtab: Bytes)
    requires |stringOffsets| == |symbols|
    requires AreStringOffsets(stringOffsets, symbols)
    requires a.stringsAt == StringsAt(sections) && a.symbolsAt == SymbolsAt(sections, |strtab|)
    requires |out.data| <= a.stringsAt
    modifies out
    ensures old(out.data) <= out.data
    ensures At(out.data, a.stringsAt, strtab) && At(out.data, a.symbolsAt, Concat(SymbolRecords(sections, symbols)))
  {
    EmitStrings(out, a.stringsAt, strtab);
    ghost var strings := out.data;
    ReachSymbols(out, sections, |strtab|, a.symbolsAt);
    AtEnd(out.data, Concat(SymbolRecords(sections, symbols)));
    EmitSymbols(out, sections, symbols, stringOffsets);
    AtStays(strings, out.data, a.stringsAt, strtab);
  }

  ghost predicate HasBody(bytes: Bytes, sections: seq<Section>, symbols: seq<Symbol>, isArm64: bool, start: nat,
                          vmSize: nat, a: Announced) {
    && CommandsPlaced(bytes, isArm64, start, vmSize, a)
    && At(bytes, 104, Concat(SectionHeaders(sections)))
    && DataPlaced(bytes, sections, |sections|)
    && TablesPlaced(bytes, sections, |sections|, symbols, isArm64)
  }

  lemma BodyStays(before: Bytes, after: Bytes, sections: seq<Section>, symbols: seq<Symbol>, isArm64: bool, start: nat,
                  vmSize: nat, a: Announced)
    requires before <= after && HasBody(before, sections, symbols, isArm64, start, vmSize, a)
    ensures HasBody(after, sections, symbols, isArm64, start, vmSize, a)
  {
    CommandsStay(before, after, isArm64, start, vmSize, a);
    AtStays(before, after, 104, Concat(SectionHeaders(sections)));
    DataStays(before, after, sections, |sections|);
    TablesStay(before, after, sections, |sections|, symbols, isArm64);
  }

  lemma CommandsStay(before: Bytes, after: Bytes, isArm64: bool, start: nat, vmSize: nat, a: Announced)
    requires before <= after && CommandsPlaced(before, isArm64, start, vmSize, a)
    ensures CommandsPlaced(after, isArm64, start, vmSize, a)
  {
    PartsStay(before, after, MachHeader(isArm64, SizeOfCommands(a.sectionCount)),
              SegmentCommand(start, vmSize, a.sectionCount),
              SymtabCommand(a.symbolsAt, a.symbolCount, a.stringsAt, a.stringsSize), BuildVersionCommand(),
              a.sectionCount);
  }

  lemma BuiltReads(bytes: Bytes, sections: seq<Section>, symbols: seq<Symbol>, isArm64: bool, start: nat, vmSize: nat,
                   a: Announced)
    requires Representable(sections, symbols)
    requires HasBody(bytes, sections, symbols, isArm64, start, vmSize, a)
    requires a.cpu == Cpu(isArm64) && a.sectionCount == |sections| && a.symbolCount == |symbols|
    requires a.stringsSize == |Strings(symbols, |symbols|)|
    requires At(bytes, a.stringsAt, Strings(symbols, |symbols|))
    requires At(bytes, a.symbolsAt, Concat(SymbolRecords(sections, symbols)))
    ensures |bytes| < Pow256(4) ==> ReadsBack(bytes, sections, symbols, isArm64)
  {
    if |bytes| < Pow256(4) {
      UniformSize(SectionHeaders(sections), 80);
      UniformSize(SymbolRecords(sections, symbols), 16);
      CommandsRead(bytes, isArm64, start, vmSize, a);
      RegionsRead(bytes, a, SectionHeaders(sections), SymbolRecords(sections, symbols), Strings(symbols, |symbols|));
      FileReads(bytes, sections, symbols, isArm64, a,
                Regions(SectionHeaders(sections), SymbolRecords(sections, symbols), Strings(symbols, |symbols|)));
      FileReadsBack(bytes, sections, symbols, isArm64);
    }
  }
}

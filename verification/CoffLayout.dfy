/** What a COFF object of given sections and symbols is to read back as, and bytes laid out so that it does. */
module CoffLayout {
  import opened Arithmetic
  import opened ByteStreams
  import opened CoffFormat
  import opened CoffRecords
  import opened ObjectFiles
  import opened Options

  // ---- What is to be read back ----

  /** ".bss" or "__bss": no bytes in the file, only a size. */
  predicate IsBss(s: Section) {
    s.name == [46, 98, 115, 115] || s.name == [95, 95, 98, 115, 115]
  }

  function Raw(s: Section): Bytes {
    if IsBss(s) then [] else s.data
  }

  function VirtualSize(s: Section): (n: nat)
    ensures n < Pow256(4)
  {
    if IsBss(s) then |s.data| % Pow256(4) else 0
  }

  /** Text, read-only data, uninitialised or other data. */
  function Characteristics(s: Section): nat {
    if IsBss(s) then 0xC000_0080
    else if s.name in [[46, 116, 101, 120, 116], [46, 99, 111, 100, 101], [95, 95, 116, 101, 120, 116]] then 0x6000_0020
    else if s.name in [[46, 114, 100, 97, 116, 97], [46, 114, 111, 100, 97, 116, 97], [95, 95, 99, 111, 110, 115, 116]]
    then 0x4000_0040
    else 0xC000_0040
  }

  /** The number of the last of the first n sections with this name, counted from 1; 0 if there is none. */
  function SectionNumber(sections: seq<Section>, n: nat, name: Bytes): (k: nat)
    requires n <= |sections|
    ensures k <= n && (k > 0 ==> sections[k - 1].name == name)
    ensures k == 0 ==> forall i: nat :: i < n ==> sections[i].name != name
  {
    if n == 0 then 0 else if sections[n - 1].name == name then n else SectionNumber(sections, n - 1, name)
  }

  /** The record of the last of the first n symbols with this name; 0 if there is none. */
  function SymbolIndex(symbols: seq<Symbol>, n: nat, base: nat, name: Bytes): (k: nat)
    requires n <= |symbols|
    ensures k == 0 || base <= k < base + n
  {
    if n == 0 then 0 else if symbols[n - 1].name == name then base + n - 1 else SymbolIndex(symbols, n - 1, base, name)
  }

  function RelocationKind(r: Relocation, isArm64: bool): nat {
    if isArm64 then 3 else if r.kind == 0 then 1 else 4
  }

  function RelocationsOf(rs: seq<Relocation>, symbols: seq<Symbol>, base: nat,
                         isArm64: bool): (out: seq<CoffRelocation>)
    ensures |out| == |rs|
  {
    if rs == [] then []
    else
      var r := rs[|rs| - 1];
      RelocationsOf(rs[..|rs| - 1], symbols, base, isArm64)
      + [CoffRelocation(r.offset % Pow256(4), SymbolIndex(symbols, |symbols|, base, r.symbol) % Pow256(4),
                        RelocationKind(r, isArm64))]
  }

  function SectionOf(s: Section, symbols: seq<Symbol>, base: nat, isArm64: bool): CoffSection {
    CoffSection(s.name, VirtualSize(s), Raw(s), RelocationsOf(s.relocations, symbols, base, isArm64),
                Characteristics(s))
  }

  function SectionsFrom(sections: seq<Section>, i: nat, symbols: seq<Symbol>, isArm64: bool): seq<CoffSection>
    requires i <= |sections|
    decreases |sections| - i
  {
    if i == |sections| then []
    else [SectionOf(sections[i], symbols, 2 * |sections|, isArm64)] + SectionsFrom(sections, i + 1, symbols, isArm64)
  }

  /** The section under the name that is read for it. */
  function SectionRead(s: Section, symbols: seq<Symbol>, base: nat, isArm64: bool, strtab: Bytes): Option<CoffSection> {
    match NameRead(s.name, strtab)
    case None => None
    case Some(name) => Some(SectionOf(s, symbols, base, isArm64).(name := name))
  }

  function SectionsReadFrom(sections: seq<Section>, i: nat, symbols: seq<Symbol>, isArm64: bool, strtab: Bytes)
    : Option<seq<CoffSection>>
    requires i <= |sections|
    decreases |sections| - i
  {
    if i == |sections| then Some([])
    else
      match SectionRead(sections[i], symbols, 2 * |sections|, isArm64, strtab)
      case None => None
      case Some(first) =>
        match SectionsReadFrom(sections, i + 1, symbols, isArm64, strtab)
        case None => None
        case Some(rest) => Some([first] + rest)
  }

  function SectionSymbol(s: Section, i: nat): CoffSymbol {
    CoffSymbol(2 * i, s.name, 0, i + 1, 0, 3)
  }

  function UserSymbol(s: Symbol, j: nat, sections: seq<Section>): CoffSymbol {
    CoffSymbol(2 * |sections| + j, s.name, s.offset % Pow256(4), SectionNumber(sections, |sections|, s.section),
               if s.isFunction then 0x20 else 0, if s.isGlobal then 2 else 3)
  }

  function UserSymbolsFrom(symbols: seq<Symbol>, j: nat, sections: seq<Section>): seq<CoffSymbol>
    requires j <= |symbols|
    decreases |symbols| - j
  {
    if j == |symbols| then []
    else [UserSymbol(symbols[j], j, sections)] + UserSymbolsFrom(symbols, j + 1, sections)
  }

  function SymbolsFrom(sections: seq<Section>, i: nat, symbols: seq<Symbol>): seq<CoffSymbol>
    requires i <= |sections|
    decreases |sections| - i
  {
    if i == |sections| then UserSymbolsFrom(symbols, 0, sections)
    else [SectionSymbol(sections[i], i)] + SymbolsFrom(sections, i + 1, symbols)
  }

  function Machine(isArm64: bool): nat {
    if isArm64 then 0xAA64 else 0x8664
  }

  function FileOf(sections: seq<Section>, symbols: seq<Symbol>, isArm64: bool): CoffFile {
    CoffFile(Machine(isArm64), SectionsFrom(sections, 0, symbols, isArm64), SymbolsFrom(sections, 0, symbols))
  }

  // ---- The string table ----

  /** What a name adds to the string table. */
  function LongName(name: Bytes): Bytes {
    if |name| <= 8 then [] else name + [0]
  }

  function SectionNames(sections: seq<Section>, n: nat): Bytes
    requires n <= |sections|
  {
    if n == 0 then [] else SectionNames(sections, n - 1) + LongName(sections[n - 1].name)
  }

  function SymbolNames(symbols: seq<Symbol>, n: nat): Bytes
    requires n <= |symbols|
  {
    if n == 0 then [] else SymbolNames(symbols, n - 1) + LongName(symbols[n - 1].name)
  }

  /** Section names once for the headers and once for the section symbols, then symbol names. */
  function Strings(sections: seq<Section>, symbols: seq<Symbol>): Bytes {
    SectionNames(sections, |sections|) + SectionNames(sections, |sections|) + SymbolNames(symbols, |symbols|)
  }

  /** The strings behind their size, which counts itself. */
  function TableOf(strings: Bytes): Bytes {
    LE(4 + |strings|, 4) + strings
  }

  function StringTable(sections: seq<Section>, symbols: seq<Symbol>): Bytes {
    TableOf(Strings(sections, symbols))
  }

  // ---- The whole file ----

  function Pair(sections: Option<seq<CoffSection>>, symbols: seq<CoffSymbol>)
    : Option<(seq<CoffSection>, seq<CoffSymbol>)>
  {
    match sections
    case None => None
    case Some(ss) => Some((ss, symbols))
  }

  /** What a reader makes of the file: nothing if a section's name leads nowhere. */
  function FileRead(sections: seq<Section>, symbols: seq<Symbol>, isArm64: bool): Option<CoffFile> {
    var strtab := StringTable(sections, symbols);
    FromTables(Machine(isArm64),
               Pair(SectionsReadFrom(sections, 0, symbols, isArm64, strtab), SymbolsFrom(sections, 0, symbols)))
  }

  ghost predicate NamesRead(sections: seq<Section>, i: nat, strtab: Bytes) {
    forall k: nat :: i <= k < |sections| && IsSlashName(sections[k].name)
      ==> AtSpelledOffset(sections[k].name, strtab) == Some(sections[k].name)
  }

  lemma {:induction false} SectionsReadAreExact(sections: seq<Section>, i: nat, symbols: seq<Symbol>, isArm64: bool,
                                                strtab: Bytes)
    requires i <= |sections|
    ensures SectionsReadFrom(sections, i, symbols, isArm64, strtab) == Some(SectionsFrom(sections, i, symbols, isArm64))
            <==> NamesRead(sections, i, strtab)
    decreases |sections| - i
  {
    if i < |sections| {
      SectionsReadAreExact(sections, i + 1, symbols, isArm64, strtab);
      SectionReadIsExact(sections[i], symbols, 2 * |sections|, isArm64, strtab);
      var first := SectionRead(sections[i], symbols, 2 * |sections|, isArm64, strtab);
      var rest := SectionsReadFrom(sections, i + 1, symbols, isArm64, strtab);
      if first.Some? && rest.Some? {
        SameInFront(first.value, rest.value, SectionOf(sections[i], symbols, 2 * |sections|, isArm64),
                    SectionsFrom(sections, i + 1, symbols, isArm64));
      }
    }
  }

  lemma SectionReadIsExact(s: Section, symbols: seq<Symbol>, base: nat, isArm64: bool, strtab: Bytes)
    ensures SectionRead(s, symbols, base, isArm64, strtab) == Some(SectionOf(s, symbols, base, isArm64))
            <==> NameRead(s.name, strtab) == Some(s.name)
  {
  }

  lemma SameInFront<T>(x: T, xs: seq<T>, y: T, ys: seq<T>)
    ensures [x] + xs == [y] + ys <==> x == y && xs == ys
  {
    if [x] + xs == [y] + ys {
      assert ([x] + xs)[0] == ([y] + ys)[0];
      assert ([x] + xs)[1..] == xs && ([y] + ys)[1..] == ys;
    }
  }

  /** The file reads back as its sections and symbols exactly when every slash name leads to itself. */
  lemma FileReadIsExact(sections: seq<Section>, symbols: seq<Symbol>, isArm64: bool)
    ensures FileRead(sections, symbols, isArm64) == Some(FileOf(sections, symbols, isArm64))
            <==> NamesRead(sections, 0, StringTable(sections, symbols))
  {
    SectionsReadAreExact(sections, 0, symbols, isArm64, StringTable(sections, symbols));
  }

  // ---- A slash name that is another section's ----

  lemma {:induction false} FirstNameInFront(sections: seq<Section>, n: nat)
    requires 0 < n <= |sections|
    ensures exists rest: Bytes :: SectionNames(sections, n) == LongName(sections[0].name) + rest
  {
    if n == 1 {
      assert SectionNames(sections, 0) == [];
      assert SectionNames(sections, 1) == LongName(sections[0].name) + [];
    } else {
      FirstNameInFront(sections, n - 1);
      var rest: Bytes :| SectionNames(sections, n - 1) == LongName(sections[0].name) + rest;
      Associates(LongName(sections[0].name), rest, LongName(sections[n - 1].name));
    }
  }

  /** The string table of a file whose first section has a long name holds that name at offset 4. */
  lemma FirstLongName(sections: seq<Section>, symbols: seq<Symbol>)
    requires sections != [] && |sections[0].name| > 8 && 0 !in sections[0].name
    ensures Holds(StringTable(sections, symbols), 4, sections[0].name)
  {
    FirstNameInFront(sections, |sections|);
    var name := sections[0].name;
    var rest: Bytes :| SectionNames(sections, |sections|) == LongName(name) + rest;
    HoldsFirst(name, rest, SectionNames(sections, |sections|), SymbolNames(symbols, |symbols|));
  }

  lemma HoldsFirst(name: Bytes, rest: Bytes, a: Bytes, b: Bytes)
    requires 0 !in name && a == name + [0] + rest
    ensures Holds(TableOf(a + a + b), 4, name)
  {
    var others := rest + a + b;
    assert TableOf(a + a + b)[4..] == a + a + b == name + [0] + others;
    ReadsString(name, others);
  }

  /** Behind a first section with a long name, a section "/4" reads back under that name. */
  lemma SlashNameIsLost(sections: seq<Section>, symbols: seq<Symbol>, isArm64: bool)
    requires |sections| == 2 && |sections[0].name| > 8 && 0 !in sections[0].name && sections[1].name == [47, 52]
    ensures var file := FileRead(sections, symbols, isArm64);
            && file != Some(FileOf(sections, symbols, isArm64))
            && file.Some? && |file.value.sections| == 2
            && file.value.sections[0].name == file.value.sections[1].name == sections[0].name
  {
    var name, strtab := sections[1].name, StringTable(sections, symbols);
    FirstLongName(sections, symbols);
    ParsesDecimal(4);
    assert name[1..] == Decimal(4);
    assert NameRead(name, strtab) == Some(sections[0].name);
    FileReadIsExact(sections, symbols, isArm64);
    TwoSectionsRead(sections, symbols, isArm64, strtab, sections[0].name);
  }

  lemma TwoSectionsRead(sections: seq<Section>, symbols: seq<Symbol>, isArm64: bool, strtab: Bytes, name: Bytes)
    requires |sections| == 2
    requires NameRead(sections[0].name, strtab) == NameRead(sections[1].name, strtab) == Some(name)
    ensures SectionsReadFrom(sections, 0, symbols, isArm64, strtab)
            == Some([SectionOf(sections[0], symbols, 4, isArm64).(name := name),
                     SectionOf(sections[1], symbols, 4, isArm64).(name := name)])
  {
    var first := SectionOf(sections[0], symbols, 4, isArm64).(name := name);
    var second := SectionOf(sections[1], symbols, 4, isArm64).(name := name);
    assert SectionRead(sections[1], symbols, 4, isArm64, strtab) == Some(second);
    assert SectionsReadFrom(sections, 1, symbols, isArm64, strtab) == Some([second] + []);
    assert SectionsReadFrom(sections, 0, symbols, isArm64, strtab) == Some([first] + ([second] + []));
    assert [first] + ([second] + []) == [first, second];
  }

  // ---- The pieces of the file ----

  function Raws(sections: seq<Section>): (parts: seq<Bytes>)
    ensures |parts| == |sections| && forall i: nat :: i < |parts| ==> parts[i] == Raw(sections[i])
  {
    seq(|sections|, i requires 0 <= i < |sections| => Raw(sections[i]))
  }

  function RelocationTables(sections: seq<Section>, symbols: seq<Symbol>, isArm64: bool): (parts: seq<Bytes>)
    ensures |parts| == |sections|
    ensures forall i: nat :: i < |parts| ==>
              parts[i] == RelocationBytes(RelocationsOf(sections[i].relocations, symbols, 2 * |sections|, isArm64))
  {
    seq(|sections|, i requires 0 <= i < |sections| =>
      RelocationBytes(RelocationsOf(sections[i].relocations, symbols, 2 * |sections|, isArm64)))
  }

  function HeaderTable(headers: seq<SectionHeader>): (parts: seq<Bytes>)
    requires forall i: nat :: i < |headers| ==> |headers[i].name| == 8
    ensures |parts| == |headers| && forall i: nat :: i < |parts| ==> parts[i] == HeaderBytes(headers[i])
  {
    seq(|headers|, i requires 0 <= i < |headers| => HeaderBytes(headers[i]))
  }

  function FileHeader(machine: nat, sectionCount: nat, symbolsAt: nat, symbolCount: nat): (s: Bytes)
    ensures |s| == 20
  {
    LE(machine, 2) + LE(sectionCount, 2) + LE(0, 4) + LE(symbolsAt, 4) + LE(symbolCount, 4) + LE(0, 2) + LE(0x20, 2)
  }

  // ---- Sections read back ----

  /** The header describes the section, and its offsets lead to the section's parts. */
  ghost predicate Describes(h: SectionHeader, sections: seq<Section>, i: nat, raws: seq<Bytes>, tables: seq<Bytes>,
                            strtab: Bytes)
    requires i < |sections| == |raws| == |tables|
  {
    && StandsFor(h.name, sections[i].name, strtab)
    && h.virtualSize == VirtualSize(sections[i]) && h.characteristics == Characteristics(sections[i])
    && h.rawSize == |raws[i]|
    && h.rawAt == (if IsBss(sections[i]) then 0 else 20 + 40 * |sections| + Offset(raws, i))
    && h.relocationCount == |sections[i].relocations|
    && h.relocationsAt == if h.relocationCount == 0 then 0
                          else 20 + 40 * |sections| + |Concat(raws)| + Offset(tables, i)
  }

  /** A part of a region that begins at `at` in the bytes. */
  lemma PartInRegion(bytes: Bytes, at: nat, parts: seq<Bytes>, i: nat)
    requires i < |parts| && at + |Concat(parts)| <= |bytes| && bytes[at..at + |Concat(parts)|] == Concat(parts)
    ensures at + Offset(parts, i) + |parts[i]| <= |bytes|
    ensures bytes[at + Offset(parts, i)..at + Offset(parts, i) + |parts[i]|] == parts[i]
  {
    PartAt(parts, i);
    var from, k := Offset(parts, i), |parts[i]|;
    SliceOfSlice(bytes, at, |Concat(parts)|, from, k);
    assert bytes[at..at + |Concat(parts)|][from..from + k] == parts[i];
  }

  ghost predicate HasRegions(bytes: Bytes, n: nat, raws: seq<Bytes>, tables: seq<Bytes>) {
    var rawsAt := 20 + 40 * n;
    var tablesAt := rawsAt + |Concat(raws)|;
    && tablesAt + |Concat(tables)| <= |bytes| < Pow256(4)
    && bytes[rawsAt..rawsAt + |Concat(raws)|] == Concat(raws)
    && bytes[tablesAt..tablesAt + |Concat(tables)|] == Concat(tables)
  }

  lemma RawReads(h: SectionHeader, sections: seq<Section>, i: nat, raws: seq<Bytes>, tables: seq<Bytes>,
                 strtab: Bytes, bytes: Bytes)
    requires i < |sections| == |raws| == |tables|
    requires raws[i] == Raw(sections[i])
    requires Describes(h, sections, i, raws, tables, strtab) && HasRegions(bytes, |sections|, raws, tables)
    ensures h.rawAt + h.rawSize <= |bytes| && bytes[h.rawAt..h.rawAt + h.rawSize] == raws[i]
  {
    if IsBss(sections[i]) {
      assert raws[i] == [];
    } else {
      PartInRegion(bytes, 20 + 40 * |sections|, raws, i);
    }
  }

  lemma TableReads(h: SectionHeader, sections: seq<Section>, i: nat, raws: seq<Bytes>, tables: seq<Bytes>,
                   strtab: Bytes, bytes: Bytes)
    requires i < |sections| == |raws| == |tables| && |tables[i]| == 10 * h.relocationCount
    requires Describes(h, sections, i, raws, tables, strtab) && HasRegions(bytes, |sections|, raws, tables)
    ensures h.relocationsAt + 10 * h.relocationCount <= |bytes|
    ensures bytes[h.relocationsAt..h.relocationsAt + 10 * h.relocationCount] == tables[i]
  {
    if h.relocationCount > 0 {
      PartInRegion(bytes, 20 + 40 * |sections| + |Concat(raws)|, tables, i);
    } else {
      assert tables[i] == [];
    }
  }

  lemma {:induction false} RelocationsOfFit(rs: seq<Relocation>, symbols: seq<Symbol>, base: nat, isArm64: bool)
    ensures RelocationsFit(RelocationsOf(rs, symbols, base, isArm64))
  {
    if rs != [] {
      RelocationsOfFit(rs[..|rs| - 1], symbols, base, isArm64);
      var out := RelocationsOf(rs, symbols, base, isArm64);
      assert out[..|out| - 1] == RelocationsOf(rs[..|rs| - 1], symbols, base, isArm64);
      assert Pow256(1) == 256;
    }
  }

  /** A section under the name that is read for it. */
  function UnderName(name: Option<Bytes>, virtualSize: nat, raw: Bytes, rs: seq<CoffRelocation>, characteristics: nat)
    : Option<CoffSection> {
    match name
    case None => None
    case Some(n) => Some(CoffSection(n, virtualSize, raw, rs, characteristics))
  }

  lemma ReadsSectionFrom(bytes: Bytes, header: Bytes, h: SectionHeader, strtab: Bytes, name: Option<Bytes>, raw: Bytes,
                         table: Bytes, rs: seq<CoffRelocation>)
    requires |header| == 40 && header[..8] == h.name && ReadSectionName(h.name, strtab) == name
    requires FromLE(header[8..12]) == h.virtualSize && FromLE(header[16..20]) == h.rawSize
    requires FromLE(header[20..24]) == h.rawAt && FromLE(header[24..28]) == h.relocationsAt
    requires FromLE(header[32..34]) == h.relocationCount && FromLE(header[36..40]) == h.characteristics
    requires h.rawAt + h.rawSize <= |bytes| && bytes[h.rawAt..h.rawAt + h.rawSize] == raw
    requires h.relocationsAt + 10 * h.relocationCount <= |bytes| && |table| == 10 * h.relocationCount
    requires bytes[h.relocationsAt..h.relocationsAt + 10 * h.relocationCount] == table
    requires ReadRelocations(table, h.relocationCount) == rs
    ensures ReadSection(bytes, header, strtab) == UnderName(name, h.virtualSize, raw, rs, h.characteristics)
  {
  }

  lemma SectionReads(h: SectionHeader, sections: seq<Section>, i: nat, symbols: seq<Symbol>, isArm64: bool,
                     raws: seq<Bytes>, tables: seq<Bytes>, strtab: Bytes, bytes: Bytes)
    requires i < |sections| && raws == Raws(sections) && tables == RelocationTables(sections, symbols, isArm64)
    requires |sections[i].relocations| < Pow256(2) && 0 !in sections[i].name
    requires Describes(h, sections, i, raws, tables, strtab) && HasRegions(bytes, |sections|, raws, tables)
    ensures ReadSection(bytes, HeaderBytes(h), strtab)
            == SectionRead(sections[i], symbols, 2 * |sections|, isArm64, strtab)
  {
    var rs := RelocationsOf(sections[i].relocations, symbols, 2 * |sections|, isArm64);
    assert tables[i] == RelocationBytes(rs) && raws[i] == Raw(sections[i]);
    RawReads(h, sections, i, raws, tables, strtab, bytes);
    TableReads(h, sections, i, raws, tables, strtab, bytes);
    assert ReadRelocations(tables[i], h.relocationCount) == rs by {
      RelocationsOfFit(sections[i].relocations, symbols, 2 * |sections|, isArm64);
      RelocationsRead(rs);
    }
    assert Fits(h) by { CharacteristicsFit(sections[i]); }
    HeaderFields(h);
    FieldReads(h.name, sections[i].name, strtab);
    ReadsSectionFrom(bytes, HeaderBytes(h), h, strtab, NameRead(sections[i].name, strtab), raws[i], tables[i], rs);
  }

  lemma CharacteristicsFit(s: Section)
    ensures Characteristics(s) < Pow256(4)
  {
    WordWidths();
  }

  ghost predicate AllDescribed(headers: seq<SectionHeader>, sections: seq<Section>, raws: seq<Bytes>,
                               tables: seq<Bytes>, strtab: Bytes)
    requires |headers| == |sections| == |raws| == |tables|
  {
    forall i: nat :: i < |headers| ==> Describes(headers[i], sections, i, raws, tables, strtab)
  }

  ghost predicate SectionsNamed(sections: seq<Section>) {
    forall k: nat :: k < |sections| ==> IsName(sections[k].name)
  }

  ghost predicate FewRelocations(sections: seq<Section>) {
    forall k: nat :: k < |sections| ==> |sections[k].relocations| < Pow256(2)
  }

  lemma {:induction false} SectionsReadWith(headers: seq<Bytes>, read: Bytes -> Option<CoffSection>, i: nat,
                                            sections: seq<Section>, symbols: seq<Symbol>, isArm64: bool, strtab: Bytes)
    requires i <= |sections| == |headers|
    requires forall k: nat :: k < |headers| ==>
               read(headers[k]) == SectionRead(sections[k], symbols, 2 * |sections|, isArm64, strtab)
    ensures ReadSections(headers[i..], read) == SectionsReadFrom(sections, i, symbols, isArm64, strtab)
    decreases |sections| - i
  {
    if i < |sections| {
      SectionsReadWith(headers, read, i + 1, sections, symbols, isArm64, strtab);
      assert headers[i..][1..] == headers[i + 1..];
    }
  }

  lemma SectionsRead(headers: seq<SectionHeader>, sections: seq<Section>, symbols: seq<Symbol>, isArm64: bool,
                     raws: seq<Bytes>, tables: seq<Bytes>, strtab: Bytes, bytes: Bytes)
    requires |sections| == |headers| && raws == Raws(sections)
    requires tables == RelocationTables(sections, symbols, isArm64)
    requires FewRelocations(sections) && SectionsNamed(sections)
    requires AllDescribed(headers, sections, raws, tables, strtab) && HasRegions(bytes, |sections|, raws, tables)
    ensures ReadSections(HeaderTable(headers), SectionReader(bytes, strtab))
            == SectionsReadFrom(sections, 0, symbols, isArm64, strtab)
  {
    var parts, read := HeaderTable(headers), SectionReader(bytes, strtab);
    forall k: nat | k < |parts|
      ensures read(parts[k]) == SectionRead(sections[k], symbols, 2 * |sections|, isArm64, strtab)
    {
      assert IsName(sections[k].name);
      assert Describes(headers[k], sections, k, raws, tables, strtab);
      SectionReads(headers[k], sections, k, symbols, isArm64, raws, tables, strtab, bytes);
    }
    SectionsReadWith(parts, read, 0, sections, symbols, isArm64, strtab);
    assert parts[0..] == parts;
  }

  // ---- Symbols read back ----

  ghost predicate SectionSymbolAt(records: seq<Bytes>, i: nat, s: Section, strtab: Bytes)
    requires 2 * i + 1 < |records|
  {
    && |records[2 * i]| == |records[2 * i + 1]| == 18 && records[2 * i][17] == 1
    && ReadSymbol(records[2 * i], 2 * i, strtab) == Some(SectionSymbol(s, i))
  }

  ghost predicate UserSymbolAt(records: seq<Bytes>, j: nat, s: Symbol, sections: seq<Section>, strtab: Bytes)
    requires 2 * |sections| + j < |records|
  {
    var k := 2 * |sections| + j;
    && |records[k]| == 18 && records[k][17] == 0
    && ReadSymbol(records[k], k, strtab) == Some(UserSymbol(s, j, sections))
  }

  ghost predicate HasSymbols(records: seq<Bytes>, sections: seq<Section>, symbols: seq<Symbol>, strtab: Bytes) {
    && |records| == 2 * |sections| + |symbols| && AllOfSize(records, 18)
    && (forall i: nat :: i < |sections| ==> SectionSymbolAt(records, i, sections[i], strtab))
    && (forall j: nat :: j < |symbols| ==> UserSymbolAt(records, j, symbols[j], sections, strtab))
  }

  lemma {:induction false} UserSymbolsReadWith(records: seq<Bytes>, read: (Bytes, nat) -> Option<CoffSymbol>, j: nat,
                                               sections: seq<Section>, symbols: seq<Symbol>)
    requires AllOfSize(records, 18) && |records| == 2 * |sections| + |symbols| && j <= |symbols|
    requires forall k: nat :: k < |symbols| ==>
              Reads(records, 2 * |sections| + k, read, UserSymbol(symbols[k], k, sections), 0)
    ensures ReadSymbols(records, 2 * |sections| + j, read) == Some(UserSymbolsFrom(symbols, j, sections))
    decreases |symbols| - j
  {
    if j < |symbols| {
      assert Reads(records, 2 * |sections| + j, read, UserSymbol(symbols[j], j, sections), 0);
      UserSymbolsReadWith(records, read, j + 1, sections, symbols);
    }
  }

  lemma {:induction false} SymbolsReadWith(records: seq<Bytes>, read: (Bytes, nat) -> Option<CoffSymbol>, i: nat,
                                           sections: seq<Section>, symbols: seq<Symbol>)
    requires AllOfSize(records, 18) && |records| == 2 * |sections| + |symbols| && i <= |sections|
    requires forall k: nat :: k < |sections| ==> Reads(records, 2 * k, read, SectionSymbol(sections[k], k), 1)
    requires forall k: nat :: k < |symbols| ==>
              Reads(records, 2 * |sections| + k, read, UserSymbol(symbols[k], k, sections), 0)
    ensures ReadSymbols(records, 2 * i, read) == Some(SymbolsFrom(sections, i, symbols))
    decreases |sections| - i
  {
    if i < |sections| {
      assert Reads(records, 2 * i, read, SectionSymbol(sections[i], i), 1);
      SymbolsReadWith(records, read, i + 1, sections, symbols);
    } else {
      UserSymbolsReadWith(records, read, 0, sections, symbols);
    }
  }

  ghost predicate Reads(records: seq<Bytes>, index: nat, read: (Bytes, nat) -> Option<CoffSymbol>, symbol: CoffSymbol,
                        aux: Byte) {
    index < |records| && |records[index]| == 18 && records[index][17] == aux
    && read(records[index], index) == Some(symbol)
  }

  lemma SymbolsRead(records: seq<Bytes>, sections: seq<Section>, symbols: seq<Symbol>, strtab: Bytes)
    requires HasSymbols(records, sections, symbols, strtab)
    ensures ReadSymbols(records, 0, SymbolReader(strtab)) == Some(SymbolsFrom(sections, 0, symbols))
  {
    var read := SymbolReader(strtab);
    forall k: nat | k < |sections| ensures Reads(records, 2 * k, read, SectionSymbol(sections[k], k), 1) {
      assert SectionSymbolAt(records, k, sections[k], strtab);
    }
    forall k: nat | k < |symbols|
      ensures Reads(records, 2 * |sections| + k, read, UserSymbol(symbols[k], k, sections), 0)
    {
      assert UserSymbolAt(records, k, symbols[k], sections, strtab);
    }
    SymbolsReadWith(records, read, 0, sections, symbols);
  }

  // ---- The file read back ----

  function FileBytes(machine: nat, sectionCount: nat, symbolsAt: nat, headers: Bytes, raws: Bytes, tables: Bytes,
                     records: Bytes, recordCount: nat, strtab: Bytes): Bytes {
    FileHeader(machine, sectionCount, symbolsAt, recordCount) + headers + raws + tables + records + strtab
  }

  lemma FileHeaderSlices(a: Bytes, b: Bytes, c: Bytes, d: Bytes, e: Bytes, f: Bytes, g: Bytes)
    requires |a| == |b| == |f| == |g| == 2 && |c| == |d| == |e| == 4
    ensures var s := a + b + c + d + e + f + g;
            s[..2] == a && s[2..4] == b && s[8..12] == d && s[12..16] == e
  {
  }

  lemma FileHeaderFields(machine: nat, sectionCount: nat, symbolsAt: nat, symbolCount: nat, rest: Bytes)
    requires machine < Pow256(2) && sectionCount < Pow256(2) && symbolsAt < Pow256(4) && symbolCount < Pow256(4)
    ensures var s := FileHeader(machine, sectionCount, symbolsAt, symbolCount) + rest;
            && FromLE(s[..2]) == machine && FromLE(s[2..4]) == sectionCount
            && FromLE(s[8..12]) == symbolsAt && FromLE(s[12..16]) == symbolCount
  {
    var h := FileHeader(machine, sectionCount, symbolsAt, symbolCount);
    FileHeaderSlices(LE(machine, 2), LE(sectionCount, 2), LE(0, 4), LE(symbolsAt, 4), LE(symbolCount, 4), LE(0, 2),
                     LE(0x20, 2));
    assert (h + rest)[..2] == h[..2] && (h + rest)[2..4] == h[2..4];
    assert (h + rest)[8..12] == h[8..12] && (h + rest)[12..16] == h[12..16];
    FromLEOfLE(machine, 2);
    FromLEOfLE(sectionCount, 2);
    FromLEOfLE(symbolsAt, 4);
    FromLEOfLE(symbolCount, 4);
  }

  lemma FileSlices(a: Bytes, b: Bytes, c: Bytes, d: Bytes, e: Bytes, f: Bytes)
    ensures var s := a + b + c + d + e + f;
            var cAt := |a| + |b|;
            var dAt := cAt + |c|;
            var eAt := dAt + |d|;
            && s == a + (b + c + d + e + f)
            && s[|a|..cAt] == b && s[cAt..dAt] == c && s[dAt..eAt] == d
            && s[eAt..eAt + |e|] == e && s[eAt + |e|..] == f
  {
  }

  lemma ReadsTables(bytes: Bytes, n: nat, at: nat, m: nat, headers: seq<Bytes>, records: seq<Bytes>, strtab: Bytes,
                    sections: Option<seq<CoffSection>>, symbols: seq<CoffSymbol>)
    requires 20 + 40 * n <= |bytes| && at + 18 * m <= |bytes|
    requires Split(bytes[20..20 + 40 * n], 40, n) == headers && Split(bytes[at..at + 18 * m], 18, m) == records
    requires ReadSections(headers, SectionReader(bytes, strtab)) == sections
    requires ReadSymbols(records, 0, SymbolReader(strtab)) == Some(symbols)
    ensures ReadTables(bytes, n, at, m, strtab) == Pair(sections, symbols)
  {
  }

  lemma FileRegions(bytes: Bytes, machine: nat, n: nat, at: nat, m: nat, headers: Bytes, raws: seq<Bytes>,
                    tables: seq<Bytes>, records: Bytes, strtab: Bytes)
    requires |headers| == 40 * n && |records| == 18 * m && at == 20 + 40 * n + |Concat(raws)| + |Concat(tables)|
    requires bytes == FileBytes(machine, n, at, headers, Concat(raws), Concat(tables), records, m, strtab)
    requires |bytes| < Pow256(4)
    ensures |bytes| == at + 18 * m + |strtab| && HasRegions(bytes, n, raws, tables)
    ensures bytes[20..20 + 40 * n] == headers && bytes[at..at + 18 * m] == records && bytes[at + 18 * m..] == strtab
  {
    FileSlices(FileHeader(machine, n, at, m), headers, Concat(raws), Concat(tables), records, strtab);
  }

  lemma FileNumbers(bytes: Bytes, machine: nat, n: nat, at: nat, m: nat, headers: Bytes, raws: Bytes, tables: Bytes,
                    records: Bytes, strtab: Bytes)
    requires bytes == FileBytes(machine, n, at, headers, raws, tables, records, m, strtab)
    requires machine < Pow256(2) && n < Pow256(2) && at < Pow256(4) && m < Pow256(4)
    ensures |bytes| >= 20 && FromLE(bytes[..2]) == machine && FromLE(bytes[2..4]) == n
    ensures FromLE(bytes[8..12]) == at && FromLE(bytes[12..16]) == m
  {
    var head := FileHeader(machine, n, at, m);
    FileSlices(head, headers, raws, tables, records, strtab);
    FileHeaderFields(machine, n, at, m, headers + raws + tables + records + strtab);
  }

  predicate Numbered(bytes: Bytes, machine: nat, n: nat, at: nat, m: nat) {
    && |bytes| >= 20 && FromLE(bytes[..2]) == machine && FromLE(bytes[2..4]) == n
    && FromLE(bytes[8..12]) == at && FromLE(bytes[12..16]) == m
  }

  /** Where the pieces of a file are. */
  ghost predicate InPlace(bytes: Bytes, n: nat, at: nat, m: nat, headers: Bytes, raws: seq<Bytes>, tables: seq<Bytes>,
                          records: Bytes) {
    && HasRegions(bytes, n, raws, tables) && 20 + 40 * n <= |bytes| && at + 18 * m <= |bytes|
    && bytes[20..20 + 40 * n] == headers && bytes[at..at + 18 * m] == records
  }

  lemma PiecesInPlace(bytes: Bytes, machine: nat, n: nat, at: nat, m: nat, headers: Bytes, raws: seq<Bytes>,
                      tables: seq<Bytes>, records: Bytes, strtab: Bytes)
    requires |headers| == 40 * n && |records| == 18 * m && at == 20 + 40 * n + |Concat(raws)| + |Concat(tables)|
    requires bytes == FileBytes(machine, n, at, headers, Concat(raws), Concat(tables), records, m, strtab)
    requires |bytes| < Pow256(4)
    ensures InPlace(bytes, n, at, m, headers, raws, tables, records)
    ensures |bytes| == at + 18 * m + |strtab| && bytes[at + 18 * m..] == strtab
  {
    FileRegions(bytes, machine, n, at, m, headers, raws, tables, records, strtab);
  }

  /** The file header leads to the tables. */
  lemma ReadCoffReadsTables(bytes: Bytes, machine: nat, n: nat, at: nat, m: nat, strtab: Bytes)
    requires Numbered(bytes, machine, n, at, m)
    requires 20 + 40 * n <= |bytes| == at + 18 * m + |strtab| && bytes[at + 18 * m..] == strtab
    requires |strtab| >= 4 && FromLE(strtab[..4]) == |strtab|
    ensures ReadCoff(bytes) == FromTables(machine, ReadTables(bytes, n, at, m, strtab))
  {
  }

  lemma TablesRead(bytes: Bytes, sections: seq<Section>, symbols: seq<Symbol>, isArm64: bool,
                   headers: seq<SectionHeader>, records: seq<Bytes>, strtab: Bytes, raws: seq<Bytes>,
                   tables: seq<Bytes>, headerBytes: Bytes, recordBytes: Bytes, n: nat, at: nat, m: nat)
    requires |headers| == |sections| == n && m == |records| && raws == Raws(sections)
    requires tables == RelocationTables(sections, symbols, isArm64)
    requires FewRelocations(sections) && SectionsNamed(sections)
    requires AllDescribed(headers, sections, raws, tables, strtab) && HasSymbols(records, sections, symbols, strtab)
    requires headerBytes == Concat(HeaderTable(headers)) && recordBytes == Concat(records)
    requires InPlace(bytes, n, at, m, headerBytes, raws, tables, recordBytes)
    ensures ReadTables(bytes, n, at, m, strtab)
            == Pair(SectionsReadFrom(sections, 0, symbols, isArm64, strtab), SymbolsFrom(sections, 0, symbols))
  {
    assert Split(bytes[20..20 + 40 * n], 40, n) == HeaderTable(headers) by { SplitsConcat(HeaderTable(headers), 40); }
    assert Split(bytes[at..at + 18 * m], 18, m) == records by { SplitsConcat(records, 18); }
    SectionsRead(headers, sections, symbols, isArm64, raws, tables, strtab, bytes);
    SymbolsRead(records, sections, symbols, strtab);
    ReadsTables(bytes, n, at, m, HeaderTable(headers), records, strtab,
                SectionsReadFrom(sections, 0, symbols, isArm64, strtab), SymbolsFrom(sections, 0, symbols));
  }

  // ---- Relocations and the symbols they name ----

  function NameOfRecord(listed: seq<CoffSymbol>, index: nat): Option<Bytes> {
    if listed == [] then None
    else if listed[0].index == index then Some(listed[0].name)
    else NameOfRecord(listed[1..], index)
  }

  lemma {:induction false} UserSymbolName(sections: seq<Section>, symbols: seq<Symbol>, j: nat, k: nat)
    requires j <= k < |symbols|
    ensures NameOfRecord(UserSymbolsFrom(symbols, j, sections), 2 * |sections| + k) == Some(symbols[k].name)
    decreases k - j
  {
    if j < k {
      UserSymbolName(sections, symbols, j + 1, k);
    }
  }

  lemma {:induction false} SymbolName(sections: seq<Section>, symbols: seq<Symbol>, i: nat, index: nat)
    requires i <= |sections| && 2 * i <= index < 2 * |sections| + |symbols|
    requires index < 2 * |sections| ==> index % 2 == 0
    ensures NameOfRecord(SymbolsFrom(sections, i, symbols), index)
            == Some(if index < 2 * |sections| then sections[index / 2].name else symbols[index - 2 * |sections|].name)
    decreases |sections| - i
  {
    if i == |sections| {
      UserSymbolName(sections, symbols, 0, index - 2 * |sections|);
    } else if index > 2 * i {
      SymbolName(sections, symbols, i + 1, index);
    }
  }

  lemma {:induction false} SymbolIndexIsLast(symbols: seq<Symbol>, n: nat, base: nat, name: Bytes)
    requires n <= |symbols| && base > 0
    ensures var k := SymbolIndex(symbols, n, base, name);
            && (k > 0 ==> base <= k < base + n && symbols[k - base].name == name)
            && (k == 0 <==> forall j: nat :: j < n ==> symbols[j].name != name)
  {
    if n > 0 {
      SymbolIndexIsLast(symbols, n - 1, base, name);
      if SymbolIndex(symbols, n, base, name) == 0 {
        forall j: nat | j < n ensures symbols[j].name != name {
          assert j < n - 1 ==> symbols[j].name != name;
        }
      } else if symbols[n - 1].name != name {
        var k := SymbolIndex(symbols, n - 1, base, name);
        assert symbols[k - base].name == name;
      } else {
        assert symbols[n - 1].name == name;
      }
    }
  }

  lemma {:induction false} RelocationAt(rs: seq<Relocation>, symbols: seq<Symbol>, base: nat, isArm64: bool, k: nat)
    requires k < |rs|
    ensures RelocationsOf(rs, symbols, base, isArm64)[k].symbolIndex
            == SymbolIndex(symbols, |symbols|, base, rs[k].symbol) % Pow256(4)
    decreases |rs|
  {
    if k < |rs| - 1 {
      RelocationAt(rs[..|rs| - 1], symbols, base, isArm64, k);
    }
  }

  /** A relocation's symbol index leads to a record of the requested name exactly when that symbol was added, or
      when record 0, which stands in for every missing symbol, happens to have the name. */
  lemma RelocationsNameTheirSymbols(sections: seq<Section>, symbols: seq<Symbol>, isArm64: bool, i: nat, k: nat)
    requires i < |sections| && k < |sections[i].relocations| && 2 * |sections| + |symbols| < Pow256(4)
    ensures var name := sections[i].relocations[k].symbol;
            var index := RelocationsOf(sections[i].relocations, symbols, 2 * |sections|, isArm64)[k].symbolIndex;
            NameOfRecord(FileOf(sections, symbols, isArm64).symbols, index) == Some(name)
            <==> (exists j: nat :: j < |symbols| && symbols[j].name == name) || sections[0].name == name
  {
    var name, base := sections[i].relocations[k].symbol, 2 * |sections|;
    var index := SymbolIndex(symbols, |symbols|, base, name);
    RelocationAt(sections[i].relocations, symbols, base, isArm64, k);
    SymbolIndexIsLast(symbols, |symbols|, base, name);
    QuotientAndRemainder(Pow256(4), 0, index);
    SymbolName(sections, symbols, 0, index);
  }
}

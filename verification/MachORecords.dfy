/** The records of a Mach-O object and what they read back as. */
module MachORecords {
  import opened Arithmetic
  import opened ByteStreams
  import opened MachOFormat
  import opened ObjectFiles
  import opened Options

  // ---- Names ----

  /** Section and segment name: common names are mapped, others cut to 15 bytes. */
  function MappedName(name: Bytes): (r: (Bytes, Bytes))
    ensures |r.0| <= 16 && |r.1| <= 16 && (0 !in name ==> 0 !in r.0) && 0 !in r.1
  {
    var text, data := [95, 95, 84, 69, 88, 84], [95, 95, 68, 65, 84, 65];   // "__TEXT", "__DATA"
    if name == [46, 116, 101, 120, 116] then ([95, 95, 116, 101, 120, 116], text)   // ".text": "__text"
    else if name == [46, 100, 97, 116, 97] then ([95, 95, 100, 97, 116, 97], data)   // ".data": "__data"
    else if name == [46, 98, 115, 115] then ([95, 95, 98, 115, 115], data)   // ".bss": "__bss"
    else if name == [46, 114, 111, 100, 97, 116, 97] || name == [46, 99, 111, 110, 115, 116]
    then ([95, 95, 99, 111, 110, 115, 116], text)   // ".rodata" and ".const": "__const"
    else (if |name| <= 15 then name else name[..15], data)
  }

  /** The five names with a convention of their own. */
  predicate IsRenamed(name: Bytes) {
    name in [[46, 116, 101, 120, 116], [46, 100, 97, 116, 97], [46, 98, 115, 115], [46, 114, 111, 100, 97, 116, 97],
             [46, 99, 111, 110, 115, 116]]
  }

  /** A section keeps its name exactly if that is not one of the five and has at most 15 bytes. */
  lemma NameIsKept(name: Bytes)
    ensures MappedName(name).0 == name <==> !IsRenamed(name) && |name| <= 15
  {
    if IsRenamed(name) {
      assert MappedName(name).0[0] == 95 && name[0] == 46;
    }
  }

  /** "_" and the name. */
  function Mangled(name: Bytes): Bytes {
    [95] + name
  }

  /** The string table of the first n symbols. */
  function Strings(symbols: seq<Symbol>, n: nat): (s: Bytes)
    requires n <= |symbols|
    ensures |s| >= 2
  {
    if n == 0 then [0x20, 0] else Strings(symbols, n - 1) + (Mangled(symbols[n - 1].name) + [0])
  }

  lemma {:induction false} StringsExtend(symbols: seq<Symbol>, j: nat, n: nat)
    requires j <= n <= |symbols|
    ensures Strings(symbols, j) <= Strings(symbols, n)
  {
    if j < n {
      StringsExtend(symbols, j, n - 1);
    }
  }

  lemma StringReads(symbols: seq<Symbol>, j: nat)
    requires j < |symbols| && 0 !in symbols[j].name
    ensures var strings := Strings(symbols, |symbols|);
            var at := |Strings(symbols, j)|;
            at < |strings| && ReadString(strings[at..]).Some?
            && ReadString(strings[at..]).value.0 == Mangled(symbols[j].name)
  {
    var strings, name := Strings(symbols, |symbols|), Mangled(symbols[j].name);
    StringsExtend(symbols, j + 1, |symbols|);
    StringInside(Strings(symbols, j), name, strings);
  }

  lemma StringInside(front: Bytes, name: Bytes, strings: Bytes)
    requires front + (name + [0]) <= strings && 0 !in name
    ensures |front| < |strings| && ReadString(strings[|front|..]).Some?
    ensures ReadString(strings[|front|..]).value.0 == name
  {
    var rest := strings[|front| + |name| + 1..];
    assert strings == front + (name + [0]) + rest;
    Associates(front, name + [0], rest);
    assert strings[|front|..] == name + [0] + rest;
    ReadsString(name, rest);
  }

  // ---- Relocations ----

  /** The number of the last of the first n symbols with this name, or 0. */
  function SymbolNumber(symbols: seq<Symbol>, n: nat, name: Bytes): (k: nat)
    requires n <= |symbols|
    ensures k == 0 || k < n
  {
    if n == 0 then 0 else if symbols[n - 1].name == name then n - 1 else SymbolNumber(symbols, n - 1, name)
  }

  lemma {:induction false} SymbolNumberIsLast(symbols: seq<Symbol>, n: nat, name: Bytes)
    requires n <= |symbols|
    ensures (exists j: nat :: j < n && symbols[j].name == name)
            <==> n > 0 && symbols[SymbolNumber(symbols, n, name)].name == name
  {
    if n > 0 {
      SymbolNumberIsLast(symbols, n - 1, name);
      if symbols[n - 1].name != name && exists j: nat :: j < n && symbols[j].name == name {
        var j: nat :| j < n && symbols[j].name == name;
        assert j < n - 1;
      }
    }
  }

  /** A relocation's symbol number leads to the requested name exactly when such a symbol was added. */
  lemma RelocationsNameTheirSymbols(r: Relocation, symbols: seq<Symbol>, isArm64: bool)
    requires |symbols| <= 0x100_0000
    ensures var k := RelocationOf(r, symbols, isArm64).symbolNumber;
            (k < |symbols| && symbols[k].name == r.symbol) <==>
              (exists j: nat :: j < |symbols| && symbols[j].name == r.symbol)
  {
    SymbolNumberIsLast(symbols, |symbols|, r.symbol);
    QuotientAndRemainder(0x100_0000, 0, SymbolNumber(symbols, |symbols|, r.symbol));
  }

  function RelocationOf(r: Relocation, symbols: seq<Symbol>, isArm64: bool): MachRelocation {
    var number := SymbolNumber(symbols, |symbols|, r.symbol) % 0x100_0000;
    var address := r.offset % Pow256(4);
    if isArm64 && (r.kind == 2 || r.kind == 3)
    then MachRelocation(address, number, if r.kind == 2 then 1 else 0, 2, 1, if r.kind == 2 then 3 else 4)
    else if r.kind == 1 then MachRelocation(address, number, 1, 2, 1, 2)
    else MachRelocation(address, number, 0, 3, 1, 0)
  }

  function Pack(r: MachRelocation): nat {
    r.symbolNumber + 0x100_0000 * r.pcRelative + 0x200_0000 * r.length + 0x800_0000 * r.extern_ + 0x1000_0000 * r.kind
  }

  predicate Packable(r: MachRelocation) {
    && r.address < Pow256(4) && r.symbolNumber < 0x100_0000 && r.pcRelative < 2 && r.length < 4 && r.extern_ < 2
    && r.kind < 16
  }

  lemma UnpacksPacked(r: MachRelocation)
    requires Packable(r)
    ensures Unpack(r.address, Pack(r)) == r && Pack(r) < 0x1_0000_0000
  {
    var above25 := r.length + 4 * (r.extern_ + 2 * r.kind);
    var above24 := r.pcRelative + 2 * above25;
    var below25 := r.symbolNumber + 0x100_0000 * r.pcRelative;
    var below27 := below25 + 0x200_0000 * r.length;
    QuotientAndRemainder(0x100_0000, above24, r.symbolNumber);
    QuotientAndRemainder(2, above25, r.pcRelative);
    QuotientAndRemainder(0x200_0000, above25, below25);
    QuotientAndRemainder(4, r.extern_ + 2 * r.kind, r.length);
    QuotientAndRemainder(0x800_0000, r.extern_ + 2 * r.kind, below27);
    QuotientAndRemainder(2, r.kind, r.extern_);
    QuotientAndRemainder(0x1000_0000, r.kind, below27 + 0x800_0000 * r.extern_);
  }

  function RelocationRecord(r: MachRelocation): (s: Bytes)
    ensures |s| == 8
  {
    LE(r.address, 4) + LE(Pack(r), 4)
  }

  lemma RelocationReads(r: MachRelocation)
    requires Packable(r)
    ensures ReadRelocation(RelocationRecord(r)) == r
  {
    var s := RelocationRecord(r);
    assert s[..4] == LE(r.address, 4) && s[4..8] == LE(Pack(r), 4);
    UnpacksPacked(r);
    WordWidths();
    FromLEOfLE(r.address, 4);
    FromLEOfLE(Pack(r), 4);
  }

  function RelocationsOf(s: Section, symbols: seq<Symbol>, isArm64: bool): (rs: seq<MachRelocation>)
    ensures |rs| == |s.relocations|
    ensures forall k: nat :: k < |rs| ==> rs[k] == RelocationOf(s.relocations[k], symbols, isArm64)
  {
    seq(|s.relocations|, k requires 0 <= k < |s.relocations| => RelocationOf(s.relocations[k], symbols, isArm64))
  }

  function RelocationRecords(s: Section, symbols: seq<Symbol>, isArm64: bool): (parts: seq<Bytes>)
    ensures |parts| == |s.relocations| && AllOfSize(parts, 8)
    ensures forall k: nat :: k < |parts| ==>
              parts[k] == RelocationRecord(RelocationOf(s.relocations[k], symbols, isArm64))
  {
    seq(|s.relocations|, k requires 0 <= k < |s.relocations| =>
      RelocationRecord(RelocationOf(s.relocations[k], symbols, isArm64)))
  }

  lemma RecordsRead(parts: seq<Bytes>, rs: seq<MachRelocation>)
    requires AllOfSize(parts, 8) && |parts| == |rs|
    requires forall k: nat :: k < |parts| ==> ReadRelocation(parts[k]) == rs[k]
    ensures |Concat(parts)| == 8 * |rs| && ReadRelocations(Concat(parts), |rs|) == rs
  {
    SplitsConcat(parts, 8);
  }

  lemma TableReads(s: Section, symbols: seq<Symbol>, isArm64: bool)
    ensures var table := Concat(RelocationRecords(s, symbols, isArm64));
            |table| == 8 * |s.relocations|
            && ReadRelocations(table, |s.relocations|) == RelocationsOf(s, symbols, isArm64)
  {
    var parts, rs := RelocationRecords(s, symbols, isArm64), RelocationsOf(s, symbols, isArm64);
    forall k: nat | k < |parts| ensures ReadRelocation(parts[k]) == rs[k] {
      RelocationReads(rs[k]);
    }
    RecordsRead(parts, rs);
  }

  // ---- Section headers ----

  function Field16(s: Bytes): (f: Bytes)
    requires |s| <= 16
    ensures |f| == 16
  {
    s + Zeros(16 - |s|)
  }

  function HeaderFront(name: Bytes): (s: Bytes)
    ensures |s| == 40
  {
    Field16(MappedName(name).0) + Field16(MappedName(name).1) + LE(0, 8)
  }

  function HeaderMiddle(size: nat, at: nat, tableAt: nat, count: nat): (s: Bytes)
    ensures |s| == 24
  {
    LE(size, 8) + LE(at, 4) + LE(4, 4) + LE(tableAt, 4) + LE(count, 4)
  }

  function SectionFlags(name: Bytes): nat {
    if name == [46, 116, 101, 120, 116] then 0x8000_0400 else 0
  }

  function HeaderBack(name: Bytes): (s: Bytes)
    ensures |s| == 16
  {
    LE(SectionFlags(name), 4) + LE(0, 12)
  }

  lemma HeaderFlags(name: Bytes)
    ensures FromLE(HeaderBack(name)[..4]) == SectionFlags(name)
  {
    WordWidths();
    FromLEOfLE(SectionFlags(name), 4);
    assert HeaderBack(name)[..4] == LE(SectionFlags(name), 4);
  }

  function SectionHeader(sections: seq<Section>, i: nat): (s: Bytes)
    requires i < |sections|
    ensures |s| == 80
  {
    var sec := sections[i];
    HeaderFront(sec.name)
    + HeaderMiddle(|sec.data|, DataAt(sections, i), if sec.relocations == [] then 0 else TableAt(sections, i),
                   |sec.relocations|)
    + HeaderBack(sec.name)
  }

  lemma FrontSlices(a: Bytes, b: Bytes, c: Bytes)
    requires |a| == |b| == 16 && |c| == 8
    ensures (a + b + c)[..16] == a && (a + b + c)[16..32] == b
  {
  }

  lemma MiddleSlices(a: Bytes, b: Bytes, c: Bytes, d: Bytes, e: Bytes)
    requires |a| == 8 && |b| == |c| == |d| == |e| == 4
    ensures var s := a + b + c + d + e;
            s[..8] == a && s[8..12] == b && s[12..16] == c && s[16..20] == d && s[20..24] == e
  {
  }

  lemma ThirdsSlices(a: Bytes, b: Bytes, c: Bytes)
    requires |a| == 40 && |b| == 24 && |c| == 16
    ensures var s := a + b + c;
            && s[..16] == a[..16] && s[16..32] == a[16..32] && s[40..48] == b[..8] && s[48..52] == b[8..12]
            && s[52..56] == b[12..16] && s[56..60] == b[16..20] && s[60..64] == b[20..24] && s[64..68] == c[..4]
  {
  }

  lemma HeaderNames(name: Bytes)
    requires 0 !in name
    ensures UpToNul(HeaderFront(name)[..16]) == MappedName(name).0
    ensures UpToNul(HeaderFront(name)[16..32]) == MappedName(name).1
  {
    var (sect, seg) := MappedName(name);
    FrontSlices(Field16(sect), Field16(seg), LE(0, 8));
    UpToNulOfPadded(sect, 16 - |sect|);
    UpToNulOfPadded(seg, 16 - |seg|);
  }

  lemma HeaderNumbers(size: nat, at: nat, tableAt: nat, count: nat)
    requires size < Pow256(8) && at < Pow256(4) && tableAt < Pow256(4) && count < Pow256(4)
    ensures var m := HeaderMiddle(size, at, tableAt, count);
            && FromLE(m[..8]) == size && FromLE(m[8..12]) == at && FromLE(m[12..16]) == 4
            && FromLE(m[16..20]) == tableAt && FromLE(m[20..24]) == count
  {
    MiddleSlices(LE(size, 8), LE(at, 4), LE(4, 4), LE(tableAt, 4), LE(count, 4));
    FromLEOfLE(size, 8);
    FromLEOfLE(at, 4);
    WordWidths();
    FromLEOfLE(4, 4);
    FromLEOfLE(tableAt, 4);
    FromLEOfLE(count, 4);
  }

  // ---- Symbols ----

  /** The number of the first section with this name, counted from 1; 0 if there is none. */
  function FirstSection(sections: seq<Section>, i: nat, name: Bytes): (k: nat)
    requires i <= |sections|
    ensures k <= |sections| && (k > 0 ==> i < k && sections[k - 1].name == name)
    ensures forall j: nat :: i <= j && j < (if k == 0 then |sections| else k - 1) ==> sections[j].name != name
    decreases |sections| - i
  {
    if i == |sections| then 0 else if sections[i].name == name then i + 1 else FirstSection(sections, i + 1, name)
  }

  function SymbolKind(s: Symbol, section: nat): nat {
    (if section != 0 then 0x0e else 0) + (if s.isGlobal then 1 else 0)
  }

  function SymbolRecord(at: nat, kind: Byte, section: nat, value: nat): (s: Bytes)
    ensures |s| == 16
  {
    LE(at, 4) + [kind, section % 256] + LE(0, 2) + LE(value, 8)
  }

  lemma SymbolSlices(a: Bytes, x: Byte, y: Byte, c: Bytes, d: Bytes)
    requires |a| == 4 && |c| == 2 && |d| == 8
    ensures var s := a + [x, y] + c + d; s[..4] == a && s[4] == x && s[5] == y && s[8..16] == d
  {
  }

  function SymbolRecords(sections: seq<Section>, symbols: seq<Symbol>): (parts: seq<Bytes>)
    ensures |parts| == |symbols| && AllOfSize(parts, 16)
    ensures forall j: nat :: j < |parts| ==> parts[j] == SymbolRecordOf(sections, symbols, j)
  {
    seq(|symbols|, j requires 0 <= j < |symbols| => SymbolRecordOf(sections, symbols, j))
  }

  function SymbolRecordOf(sections: seq<Section>, symbols: seq<Symbol>, j: nat): (s: Bytes)
    requires j < |symbols|
    ensures |s| == 16
  {
    var section := FirstSection(sections, 0, symbols[j].section) % 256;
    SymbolRecord(|Strings(symbols, j)|, SymbolKind(symbols[j], section), section, symbols[j].offset)
  }

  function SymbolOf(sections: seq<Section>, symbols: seq<Symbol>, j: nat): MachSymbol
    requires j < |symbols|
  {
    var section := FirstSection(sections, 0, symbols[j].section);
    MachSymbol(Mangled(symbols[j].name), SymbolKind(symbols[j], section), section, symbols[j].offset % Pow256(8))
  }

  lemma SymbolReads(sections: seq<Section>, symbols: seq<Symbol>, j: nat)
    requires j < |symbols| && 0 !in symbols[j].name && |sections| < 256
    requires |Strings(symbols, |symbols|)| < Pow256(4)
    ensures ReadSymbol(Strings(symbols, |symbols|), SymbolRecordOf(sections, symbols, j))
            == Some(SymbolOf(sections, symbols, j))
  {
    var s := symbols[j];
    var section, at := FirstSection(sections, 0, s.section), |Strings(symbols, j)|;
    StringReads(symbols, j);
    SymbolFields(at, SymbolKind(s, section), section, s.offset);
    ReadsSymbolFrom(Strings(symbols, |symbols|), SymbolRecordOf(sections, symbols, j), at, SymbolKind(s, section),
                    section, s.offset % Pow256(8), Mangled(s.name));
  }

  lemma SymbolFields(at: nat, kind: Byte, section: nat, value: nat)
    requires at < Pow256(4) && section < 256
    ensures var r := SymbolRecord(at, kind, section, value);
            FromLE(r[..4]) == at && r[4] == kind && r[5] == section && FromLE(r[8..16]) == value % Pow256(8)
  {
    SymbolSlices(LE(at, 4), kind, section % 256, LE(0, 2), LE(value, 8));
    FromLEOfLE(at, 4);
    FromLEIsRemainder(value, 8);
  }

  lemma ReadsSymbolFrom(strings: Bytes, r: Bytes, at: nat, kind: nat, section: nat, value: nat, name: Bytes)
    requires |r| == 16 && FromLE(r[..4]) == at && r[4] == kind && r[5] == section && FromLE(r[8..16]) == value
    requires at < |strings| && ReadString(strings[at..]).Some? && ReadString(strings[at..]).value.0 == name
    ensures ReadSymbol(strings, r) == Some(MachSymbol(name, kind, section, value))
  {
  }

  // ---- Load commands ----

  function MachHeader(isArm64: bool, sizeOfCommands: nat): (s: Bytes)
    ensures |s| == 32
  {
    LE(0xFEED_FACF, 4) + LE(Cpu(isArm64), 4) + LE(if isArm64 then 0 else 3, 4) + LE(1, 4) + LE(3, 4)
    + LE(sizeOfCommands, 4) + LE(0, 4) + LE(0, 4)
  }

  function Cpu(isArm64: bool): nat {
    if isArm64 then 0x0100_000C else 0x0100_0007
  }

  function SegmentFront(size: nat): (s: Bytes)
    ensures |s| == 8
  {
    LE(0x19, 4) + LE(size, 4)
  }

  function SegmentMiddle(start: nat, vmSize: nat): (s: Bytes)
    ensures |s| == 56
  {
    Zeros(16) + LE(0, 8) + LE(vmSize, 8) + LE(start, 8) + LE(vmSize, 8) + LE(7, 4) + LE(7, 4)
  }

  function SegmentCommand(start: nat, vmSize: nat, count: nat): (s: Bytes)
    ensures |s| == 72
  {
    SegmentFront(72 + 80 * count) + SegmentMiddle(start, vmSize) + LE(count, 4) + LE(0, 4)
  }

  function SymtabCommand(symbolsAt: nat, count: nat, stringsAt: nat, stringsSize: nat): (s: Bytes)
    ensures |s| == 24
  {
    LE(2, 4) + LE(24, 4) + LE(symbolsAt, 4) + LE(count, 4) + LE(stringsAt, 4) + LE(stringsSize, 4)
  }

  /** Platform macOS, version 14.0, no tools. */
  function BuildVersionCommand(): (s: Bytes)
    ensures |s| == 24
  {
    LE(0x32, 4) + LE(24, 4) + LE(1, 4) + LE(0x000E_0000, 4) + LE(0, 4) + LE(0, 4)
  }
}

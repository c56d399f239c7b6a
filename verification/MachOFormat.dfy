/** Mach-O object files: the places that the builder announces, and a reader that goes by the announced places. */
module MachOFormat {
  import opened Arithmetic
  import opened ByteStreams
  import opened ObjectFiles
  import opened Options

  datatype MachRelocation = MachRelocation(address: nat, symbolNumber: nat, pcRelative: nat, length: nat, extern_: nat,
                                           kind: nat)

  datatype MachSection = MachSection(name: Bytes, segment: Bytes, data: Bytes, alignment: nat,
                                     relocations: seq<MachRelocation>, flags: nat)

  datatype MachSymbol = MachSymbol(name: Bytes, kind: nat, section: nat, value: nat)

  datatype MachFile = MachFile(cpu: nat, sections: seq<Option<MachSection>>, symbols: seq<Option<MachSymbol>>)

  // ---- Layout ----

  /** (x + a - 1) & ~(a - 1) for a power of two. */
  function Up(x: nat, a: nat): nat
    requires a > 0
  {
    x + a - 1 - (x + a - 1) % a
  }

  lemma UpIsTight(x: nat, a: nat)
    requires a > 0
    ensures x <= Up(x, a) < x + a && Up(x, a) % a == 0
  {
    var y := x + a - 1;
    assert y - y % a == a * (y / a) + 0;
    QuotientAndRemainder(a, y / a, 0);
  }

  /** Where section i begins; for i past the last section, where its data ends, aligned. */
  function DataAt(sections: seq<Section>, i: nat): nat
    requires i <= |sections|
  {
    if i == 0 then Up(152 + 80 * |sections|, 16) else Up(DataAt(sections, i - 1) + |sections[i - 1].data|, 16)
  }

  function TableAt(sections: seq<Section>, i: nat): nat
    requires i <= |sections|
  {
    if i == 0 then DataAt(sections, |sections|)
    else if sections[i - 1].relocations == [] then TableAt(sections, i - 1)
    else Up(TableAt(sections, i - 1) + 8 * |sections[i - 1].relocations|, 4)
  }

  function StringsAt(sections: seq<Section>): nat {
    TableAt(sections, |sections|)
  }

  function SymbolsAt(sections: seq<Section>, stringsSize: nat): nat {
    StringsAt(sections) + Up(stringsSize, 8)
  }

  lemma {:induction false} DataIsAligned(sections: seq<Section>, i: nat, j: nat)
    requires i < j <= |sections|
    ensures DataAt(sections, i) % 16 == 0 && DataAt(sections, j) % 16 == 0
    ensures 152 + 80 * |sections| <= DataAt(sections, i)
    ensures DataAt(sections, i) + |sections[i].data| <= DataAt(sections, j)
  {
    UpIsTight(152 + 80 * |sections|, 16);
    UpIsTight(DataAt(sections, j - 1) + |sections[j - 1].data|, 16);
    if i < j - 1 {
      DataIsAligned(sections, i, j - 1);
    } else if i > 0 {
      DataIsAligned(sections, 0, i);
    }
  }

  lemma DataEndsAligned(sections: seq<Section>)
    ensures DataAt(sections, |sections|) % 8 == 0
  {
    UpIsTight(152 + 80 * |sections|, 16);
    if sections != [] {
      DataIsAligned(sections, 0, |sections|);
    }
    var end := DataAt(sections, |sections|);
    assert end == 8 * (2 * (end / 16)) + 0;
    QuotientAndRemainder(8, 2 * (end / 16), 0);
  }

  lemma {:induction false} TablesAreAligned(sections: seq<Section>, i: nat)
    requires i <= |sections|
    ensures TableAt(sections, i) % 8 == 0
  {
    if i == 0 {
      DataEndsAligned(sections);
    } else {
      TablesAreAligned(sections, i - 1);
      var start, count := TableAt(sections, i - 1), |sections[i - 1].relocations|;
      assert start + 8 * count == 8 * (start / 8 + count) + 0;
      QuotientAndRemainder(8, start / 8 + count, 0);
      EightStays(start + 8 * count);
    }
  }

  lemma EightStays(x: nat)
    requires x % 8 == 0
    ensures Up(x, 4) == x
  {
    assert x + 3 == 4 * (2 * (x / 8)) + 3;
    QuotientAndRemainder(4, 2 * (x / 8), 3);
  }

  lemma {:induction false} TablesGrow(sections: seq<Section>, i: nat, j: nat)
    requires i < j <= |sections|
    ensures DataAt(sections, |sections|) <= TableAt(sections, i)
    ensures TableAt(sections, i) + 8 * |sections[i].relocations| <= TableAt(sections, j)
  {
    UpIsTight(TableAt(sections, j - 1) + 8 * |sections[j - 1].relocations|, 4);
    if i < j - 1 {
      TablesGrow(sections, i, j - 1);
    } else if i > 0 {
      TablesGrow(sections, 0, i);
    }
  }

  /** The announced regions follow each other without overlap: sections at multiples of 16, relocation tables, string
      table and symbol table at multiples of 8. So the alignment step in front of the symbol table lands exactly on
      its announced place. */
  lemma RegionsAreOrdered(sections: seq<Section>, i: nat, stringsSize: nat)
    requires i < |sections|
    ensures DataAt(sections, i) % 16 == 0 && TableAt(sections, i) % 8 == 0
    ensures StringsAt(sections) % 8 == 0 && SymbolsAt(sections, stringsSize) % 8 == 0
    ensures 152 + 80 * |sections| <= DataAt(sections, i)
    ensures DataAt(sections, i) + |sections[i].data| <= DataAt(sections, i + 1)
    ensures DataAt(sections, |sections|) <= TableAt(sections, i)
    ensures TableAt(sections, i) + 8 * |sections[i].relocations| <= TableAt(sections, i + 1) <= StringsAt(sections)
    ensures Up(StringsAt(sections) + stringsSize, 8) == SymbolsAt(sections, stringsSize)
  {
    DataIsAligned(sections, i, i + 1);
    TablesAreAligned(sections, i);
    TablesAreAligned(sections, |sections|);
    TablesGrow(sections, i, i + 1);
    if i + 1 < |sections| {
      TablesGrow(sections, i + 1, |sections|);
    }
    UpFromAligned(StringsAt(sections), stringsSize);
    assert TableAt(sections, i + 1) <= StringsAt(sections);
  }

  lemma UpFromAligned(x: nat, n: nat)
    requires x % 8 == 0
    ensures Up(x + n, 8) == x + Up(n, 8) && (x + Up(n, 8)) % 8 == 0
  {
    var k, y := x / 8, n + 7;
    assert x + y == 8 * (k + y / 8) + y % 8;
    QuotientAndRemainder(8, k + y / 8, y % 8);
    UpIsTight(n, 8);
    assert x + Up(n, 8) == 8 * (k + y / 8) + 0;
    QuotientAndRemainder(8, k + y / 8, 0);
  }

  // ---- Reading ----

  /** symbol number (24 bits), pc-relative (1), length (2), extern (1), type (4) */
  function Unpack(address: nat, packed: nat): MachRelocation {
    MachRelocation(address, packed % 0x100_0000, packed / 0x100_0000 % 2, packed / 0x200_0000 % 4,
                   packed / 0x800_0000 % 2, packed / 0x1000_0000)
  }

  function ReadRelocation(r: Bytes): MachRelocation
    requires |r| == 8
  {
    Unpack(FromLE(r[..4]), FromLE(r[4..8]))
  }

  function ReadRelocations(bytes: Bytes, count: nat): (rs: seq<MachRelocation>)
    requires |bytes| == 8 * count
  {
    var records := Split(bytes, 8, count);
    seq(count, i requires 0 <= i < count => ReadRelocation(records[i]))
  }

  datatype RawHeader = RawHeader(name: Bytes, segment: Bytes, size: nat, at: nat, alignment: nat, tableAt: nat,
                                 count: nat, flags: nat)

  function ParseHeader(h: Bytes): RawHeader
    requires |h| == 80
  {
    RawHeader(UpToNul(h[..16]), UpToNul(h[16..32]), FromLE(h[40..48]), FromLE(h[48..52]), FromLE(h[52..56]),
              FromLE(h[56..60]), FromLE(h[60..64]), FromLE(h[64..68]))
  }

  function ReadParsed(bytes: Bytes, h: RawHeader): Option<MachSection> {
    if h.at + h.size > |bytes| || h.tableAt + 8 * h.count > |bytes| then None
    else Some(MachSection(h.name, h.segment, bytes[h.at..h.at + h.size], h.alignment,
                          ReadRelocations(bytes[h.tableAt..h.tableAt + 8 * h.count], h.count), h.flags))
  }

  function ReadSection(bytes: Bytes, h: Bytes): Option<MachSection>
    requires |h| == 80
  {
    ReadParsed(bytes, ParseHeader(h))
  }

  function ReadSymbol(strings: Bytes, r: Bytes): Option<MachSymbol>
    requires |r| == 16
  {
    var at := FromLE(r[..4]);
    if at >= |strings| then None
    else
      match ReadString(strings[at..])
      case None => None
      case Some((name, _)) => Some(MachSymbol(name, r[4], r[5], FromLE(r[8..16])))
  }

  function SectionReader(bytes: Bytes): Bytes -> Option<MachSection> {
    (h: Bytes) => if |h| == 80 then ReadSection(bytes, h) else None
  }

  function SymbolReader(strings: Bytes): Bytes -> Option<MachSymbol> {
    (r: Bytes) => if |r| == 16 then ReadSymbol(strings, r) else None
  }

  function ReadAll<T>(records: seq<Bytes>, read: Bytes -> T): (out: seq<T>)
    ensures |out| == |records| && forall i: nat :: i < |records| ==> out[i] == read(records[i])
  {
    seq(|records|, i requires 0 <= i < |records| => read(records[i]))
  }

  /** What the two load commands announce. */
  datatype Announced = Announced(cpu: nat, sectionCount: nat, symbolsAt: nat, symbolCount: nat, stringsAt: nat,
                                 stringsSize: nat)

  /** The segment command comes first and the symbol table command after it. */
  function ReadCommands(bytes: Bytes): Option<Announced> {
    if |bytes| < 104 || FromLE(bytes[..4]) != 0xFEED_FACF || FromLE(bytes[32..36]) != 0x19 then None
    else
      var next := 32 + FromLE(bytes[36..40]);
      if next + 24 > |bytes| || FromLE(bytes[next..next + 4]) != 2 then None
      else Some(Announced(FromLE(bytes[4..8]), FromLE(bytes[96..100]),
                          FromLE(bytes[next + 8..next + 12]), FromLE(bytes[next + 12..next + 16]),
                          FromLE(bytes[next + 16..next + 20]), FromLE(bytes[next + 20..next + 24])))
  }

  datatype Regions = Regions(headers: seq<Bytes>, records: seq<Bytes>, strings: Bytes)

  function RegionsOf(bytes: Bytes, a: Announced): Option<Regions> {
    if 104 + 80 * a.sectionCount > |bytes| || a.stringsAt + a.stringsSize > |bytes|
       || a.symbolsAt + 16 * a.symbolCount > |bytes| then None
    else
      Some(Regions(Split(bytes[104..104 + 80 * a.sectionCount], 80, a.sectionCount),
                   Split(bytes[a.symbolsAt..a.symbolsAt + 16 * a.symbolCount], 16, a.symbolCount),
                   bytes[a.stringsAt..a.stringsAt + a.stringsSize]))
  }

  function ReadMachO(bytes: Bytes): Option<MachFile> {
    match ReadCommands(bytes)
    case None => None
    case Some(a) =>
      match RegionsOf(bytes, a)
      case None => None
      case Some(r) => Some(MachFile(a.cpu, ReadAll(r.headers, SectionReader(bytes)),
                                    ReadAll(r.records, SymbolReader(r.strings))))
  }
}

/** The records of a COFF object as the builder writes them, each with what it reads back as. */
module CoffRecords {
  import opened ByteStreams
  import opened CoffFormat
  import opened ObjectFiles
  import opened Options

  // ---- Section headers ----

  datatype SectionHeader = SectionHeader(name: Bytes, virtualSize: nat, rawSize: nat, rawAt: nat, relocationsAt: nat,
                                         relocationCount: nat, characteristics: nat)

  function HeaderFront(h: SectionHeader): (s: Bytes)
    requires |h.name| == 8
    ensures |s| == 20
  {
    h.name + LE(h.virtualSize, 4) + LE(0, 4) + LE(h.rawSize, 4)
  }

  function HeaderBack(h: SectionHeader): (s: Bytes)
    ensures |s| == 20
  {
    LE(h.rawAt, 4) + LE(h.relocationsAt, 4) + LE(0, 4) + LE(h.relocationCount, 2) + LE(0, 2) + LE(h.characteristics, 4)
  }

  function HeaderBytes(h: SectionHeader): (s: Bytes)
    requires |h.name| == 8
    ensures |s| == 40
  {
    HeaderFront(h) + HeaderBack(h)
  }

  lemma FrontSlices(a: Bytes, b: Bytes, c: Bytes, d: Bytes)
    requires |a| == 8 && |b| == |c| == |d| == 4
    ensures var s := a + b + c + d; s[..8] == a && s[8..12] == b && s[16..20] == d
  {
  }

  lemma BackSlices(a: Bytes, b: Bytes, c: Bytes, d: Bytes, e: Bytes, f: Bytes)
    requires |a| == |b| == |c| == |f| == 4 && |d| == |e| == 2
    ensures var s := a + b + c + d + e + f;
            s[..4] == a && s[4..8] == b && s[12..14] == d && s[16..20] == f
  {
  }

  lemma HalvesSlices(front: Bytes, back: Bytes)
    requires |front| == |back| == 20
    ensures var s := front + back;
            && s[..8] == front[..8] && s[8..12] == front[8..12] && s[16..20] == front[16..20]
            && s[20..24] == back[..4] && s[24..28] == back[4..8] && s[32..34] == back[12..14]
            && s[36..40] == back[16..20]
  {
  }

  predicate Fits(h: SectionHeader) {
    && |h.name| == 8 && h.virtualSize < Pow256(4) && h.rawSize < Pow256(4) && h.rawAt < Pow256(4)
    && h.relocationsAt < Pow256(4) && h.relocationCount < Pow256(2) && h.characteristics < Pow256(4)
  }

  lemma HeaderFields(h: SectionHeader)
    requires Fits(h)
    ensures var s := HeaderBytes(h);
            && s[..8] == h.name && FromLE(s[8..12]) == h.virtualSize && FromLE(s[16..20]) == h.rawSize
            && FromLE(s[20..24]) == h.rawAt && FromLE(s[24..28]) == h.relocationsAt
            && FromLE(s[32..34]) == h.relocationCount && FromLE(s[36..40]) == h.characteristics
  {
    FrontSlices(h.name, LE(h.virtualSize, 4), LE(0, 4), LE(h.rawSize, 4));
    BackSlices(LE(h.rawAt, 4), LE(h.relocationsAt, 4), LE(0, 4), LE(h.relocationCount, 2), LE(0, 2),
               LE(h.characteristics, 4));
    HalvesSlices(HeaderFront(h), HeaderBack(h));
    FromLEOfLE(h.virtualSize, 4);
    FromLEOfLE(h.rawSize, 4);
    FromLEOfLE(h.rawAt, 4);
    FromLEOfLE(h.relocationsAt, 4);
    FromLEOfLE(h.relocationCount, 2);
    FromLEOfLE(h.characteristics, 4);
  }

  // ---- Symbols ----

  function SymbolRecord(field: Bytes, value: nat, sectionNumber: nat, kind: nat, storageClass: Byte,
                        aux: Byte): (r: Bytes)
    requires |field| == 8
    ensures |r| == 18 && r[17] == aux
  {
    field + LE(value, 4) + LE(sectionNumber, 2) + LE(kind, 2) + [storageClass, aux]
  }

  /** The auxiliary record of a section symbol. */
  function SectionAux(size: nat, relocationCount: nat): (r: Bytes)
    ensures |r| == 18
  {
    LE(size, 4) + LE(relocationCount, 2) + Zeros(12)
  }

  lemma SymbolSlices(a: Bytes, b: Bytes, c: Bytes, d: Bytes, x: Byte, y: Byte)
    requires |a| == 8 && |b| == 4 && |c| == |d| == 2
    ensures var s := a + b + c + d + [x, y];
            s[..8] == a && s[8..12] == b && s[12..14] == c && s[14..16] == d && s[16] == x
  {
  }

  lemma SymbolReads(name: Bytes, offset: nat, value: nat, sectionNumber: nat, kind: nat, storageClass: Byte, aux: Byte,
                    index: nat, strtab: Bytes)
    requires name != [] && 0 !in name && sectionNumber < Pow256(2) && kind < Pow256(2)
    requires |name| > 8 ==> offset < Pow256(4) && Holds(strtab, offset, name)
    ensures var r := SymbolRecord(SymbolNameField(name, offset), value, sectionNumber, kind, storageClass, aux);
            ReadSymbol(r, index, strtab)
            == Some(CoffSymbol(index, name, value % Pow256(4), sectionNumber, kind, storageClass))
  {
    SymbolNameReads(name, offset, strtab);
    SymbolSlices(SymbolNameField(name, offset), LE(value, 4), LE(sectionNumber, 2), LE(kind, 2), storageClass, aux);
    FromLEIsRemainder(value, 4);
    FromLEOfLE(sectionNumber, 2);
    FromLEOfLE(kind, 2);
  }

  // ---- Relocations ----

  function RelocationRecord(r: CoffRelocation): (s: Bytes)
    ensures |s| == 10
  {
    LE(r.address, 4) + LE(r.symbolIndex, 4) + LE(r.kind, 2)
  }

  function RelocationBytes(rs: seq<CoffRelocation>): (s: Bytes)
    ensures |s| == 10 * |rs|
  {
    if rs == [] then [] else RelocationBytes(rs[..|rs| - 1]) + RelocationRecord(rs[|rs| - 1])
  }

  predicate RelocationFits(r: CoffRelocation) {
    r.address < Pow256(4) && r.symbolIndex < Pow256(4) && r.kind < Pow256(2)
  }

  predicate RelocationsFit(rs: seq<CoffRelocation>) {
    rs == [] || (RelocationsFit(rs[..|rs| - 1]) && RelocationFits(rs[|rs| - 1]))
  }

  lemma RelocationSlices(a: Bytes, b: Bytes, c: Bytes)
    requires |a| == |b| == 4 && |c| == 2
    ensures var r := a + b + c; r[..4] == a && r[4..8] == b && r[8..10] == c
  {
  }

  lemma LastTen(front: Bytes, last: Bytes, count: nat)
    requires |front| == 10 * count && |last| == 10
    ensures (front + last)[10 * count..10 * (count + 1)] == last
  {
  }

  lemma RelocationReads(front: Bytes, r: CoffRelocation, count: nat)
    requires |front| == 10 * count && RelocationFits(r)
    ensures ReadRelocations(front + RelocationRecord(r), count + 1) == ReadRelocations(front, count) + [r]
  {
    ReadRelocationsOfPrefix(front, RelocationRecord(r), count);
    LastTen(front, RelocationRecord(r), count);
    RelocationSlices(LE(r.address, 4), LE(r.symbolIndex, 4), LE(r.kind, 2));
    FromLEOfLE(r.address, 4);
    FromLEOfLE(r.symbolIndex, 4);
    FromLEOfLE(r.kind, 2);
  }

  lemma {:induction false} RelocationsRead(rs: seq<CoffRelocation>)
    requires RelocationsFit(rs)
    ensures ReadRelocations(RelocationBytes(rs), |rs|) == rs
  {
    if rs != [] {
      var front, r := rs[..|rs| - 1], rs[|rs| - 1];
      RelocationsRead(front);
      RelocationReads(RelocationBytes(front), r, |front|);
      assert front + [r] == rs;
    }
  }

  lemma {:induction false} ReadRelocationsOfPrefix(bytes: Bytes, more: Bytes, count: nat)
    requires 10 * count <= |bytes|
    ensures ReadRelocations(bytes + more, count) == ReadRelocations(bytes, count)
  {
    if count > 0 {
      ReadRelocationsOfPrefix(bytes, more, count - 1);
      SliceOfFront(bytes, more, 10 * (count - 1), 10);
    }
  }
}

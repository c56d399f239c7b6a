/** The COFF object builder. */
module CoffBuilders {
  import opened ByteStreams
  import opened CoffContents
  import opened CoffFormat
  import opened CoffLayout
  import opened CoffRecords
  import opened ObjectFiles
  import opened Options

  // ---- String table space ----

  function SectionStrings(sections: seq<Section>, n: nat): nat
    requires n <= |sections|
  {
    |SectionNames(sections, n)|
  }

  function SymbolStrings(symbols: seq<Symbol>, n: nat): nat
    requires n <= |symbols|
  {
    |SymbolNames(symbols, n)|
  }

  lemma {:induction false} SectionStringsGrow(sections: seq<Section>, i: nat, j: nat)
    requires i <= j <= |sections|
    ensures SectionStrings(sections, i) <= SectionStrings(sections, j)
  {
    if i < j {
      SectionStringsGrow(sections, i, j - 1);
    }
  }

  lemma {:induction false} SymbolStringsGrow(symbols: seq<Symbol>, i: nat, j: nat)
    requires i <= j <= |symbols|
    ensures SymbolStrings(symbols, i) <= SymbolStrings(symbols, j)
  {
    if i < j {
      SymbolStringsGrow(symbols, i, j - 1);
    }
  }

  ghost predicate SectionsRepresentable(sections: seq<Section>) {
    && |sections| < 0x8000
    && FewRelocations(sections) && SectionsNamed(sections)
    && 4 + SectionStrings(sections, |sections|) <= Pow10(7)
  }

  ghost predicate SymbolsNamed(symbols: seq<Symbol>) {
    forall j: nat :: j < |symbols| ==> IsName(symbols[j].name)
  }

  /** What the fields of a COFF object can hold: names, counts, and offsets of seven decimal digits or 32 bits. */
  ghost predicate Representable(sections: seq<Section>, symbols: seq<Symbol>) {
    && SectionsRepresentable(sections)
    && SymbolsNamed(symbols)
    && 4 + 2 * SectionStrings(sections, |sections|) + SymbolStrings(symbols, |symbols|) < Pow256(4)
  }

  // ---- What the loops keep ----

  /** A header before the offsets are known. */
  ghost predicate Started(h: SectionHeader, s: Section, strtab: Bytes) {
    && StandsFor(h.name, s.name, strtab)
    && h.virtualSize == VirtualSize(s) && h.characteristics == Characteristics(s) && h.rawSize == |Raw(s)|
    && h.rawAt == h.relocationsAt == h.relocationCount == 0
  }

  ghost predicate AllStarted(headers: seq<SectionHeader>, sections: seq<Section>, strtab: Bytes)
    requires |headers| <= |sections|
  {
    forall k: nat :: k < |headers| ==> Started(headers[k], sections[k], strtab)
  }

  lemma StartsOneMore(headers: seq<SectionHeader>, sections: seq<Section>, before: Bytes, h: SectionHeader,
                      after: Bytes)
    requires |headers| < |sections| && AllStarted(headers, sections, before) && KeepsStrings(before, after)
    requires Started(h, sections[|headers|], after)
    ensures AllStarted(headers + [h], sections, after)
  {
    var longer := headers + [h];
    forall k: nat | k < |longer| ensures Started(longer[k], sections[k], after) {
      if k < |headers| {
        assert Started(headers[k], sections[k], before);
        StandsForStays(headers[k].name, sections[k].name, before, after);
      }
    }
  }

  lemma StartedStay(headers: seq<SectionHeader>, sections: seq<Section>, before: Bytes, after: Bytes)
    requires |headers| <= |sections| && AllStarted(headers, sections, before) && KeepsStrings(before, after)
    ensures AllStarted(headers, sections, after)
  {
    forall k: nat | k < |headers| ensures Started(headers[k], sections[k], after) {
      assert Started(headers[k], sections[k], before);
      StandsForStays(headers[k].name, sections[k].name, before, after);
    }
  }

  /** The map from names to section numbers, counted from 0. */
  ghost predicate NumbersSections(m: map<Bytes, nat>, sections: seq<Section>, n: nat)
    requires n <= |sections|
  {
    forall name :: (if name in m then m[name] + 1 else 0) == SectionNumber(sections, n, name)
  }

  ghost predicate NumbersSymbols(m: map<Bytes, nat>, symbols: seq<Symbol>, n: nat, base: nat)
    requires n <= |symbols|
  {
    forall name :: (if name in m then m[name] else 0) == SymbolIndex(symbols, n, base, name)
  }

  ghost predicate HasSectionSymbols(records: seq<Bytes>, sections: seq<Section>, n: nat, strtab: Bytes)
    requires n <= |sections|
  {
    && |records| == 2 * n && AllOfSize(records, 18)
    && forall i: nat :: i < n ==> SectionSymbolAt(records, i, sections[i], strtab)
  }

  ghost predicate HasSymbolsUpTo(records: seq<Bytes>, sections: seq<Section>, symbols: seq<Symbol>, n: nat,
                                 strtab: Bytes)
    requires n <= |symbols|
  {
    && |records| == 2 * |sections| + n && AllOfSize(records, 18)
    && (forall i: nat :: i < |sections| ==> SectionSymbolAt(records, i, sections[i], strtab))
    && (forall j: nat :: j < n ==> UserSymbolAt(records, j, symbols[j], sections, strtab))
  }

  lemma SectionSymbolStays(records: seq<Bytes>, more: seq<Bytes>, i: nat, s: Section, before: Bytes, after: Bytes)
    requires 2 * i + 1 < |records| && SectionSymbolAt(records, i, s, before) && KeepsStrings(before, after)
    ensures SectionSymbolAt(records + more, i, s, after)
  {
    SymbolStays(records[2 * i], 2 * i, before, after);
  }

  lemma UserSymbolStays(records: seq<Bytes>, more: seq<Bytes>, j: nat, s: Symbol, sections: seq<Section>, before: Bytes,
                        after: Bytes)
    requires 2 * |sections| + j < |records| && UserSymbolAt(records, j, s, sections, before)
    requires KeepsStrings(before, after)
    ensures UserSymbolAt(records + more, j, s, sections, after)
  {
    SymbolStays(records[2 * |sections| + j], 2 * |sections| + j, before, after);
  }

  lemma OneMoreSectionSymbol(records: seq<Bytes>, sections: seq<Section>, n: nat, before: Bytes, after: Bytes,
                             r: Bytes, aux: Bytes)
    requires n < |sections| && HasSectionSymbols(records, sections, n, before) && KeepsStrings(before, after)
    requires |r| == |aux| == 18 && r[17] == 1
    requires ReadSymbol(r, 2 * n, after) == Some(SectionSymbol(sections[n], n))
    ensures HasSectionSymbols(records + [r, aux], sections, n + 1, after)
  {
    var longer := records + [r, aux];
    forall i: nat | i < n + 1 ensures SectionSymbolAt(longer, i, sections[i], after) {
      if i < n {
        assert SectionSymbolAt(records, i, sections[i], before);
        SectionSymbolStays(records, [r, aux], i, sections[i], before, after);
      }
    }
  }

  lemma OneMoreUserSymbol(records: seq<Bytes>, sections: seq<Section>, symbols: seq<Symbol>, n: nat, before: Bytes,
                          after: Bytes, r: Bytes)
    requires n < |symbols| && HasSymbolsUpTo(records, sections, symbols, n, before) && KeepsStrings(before, after)
    requires |r| == 18 && r[17] == 0
    requires ReadSymbol(r, 2 * |sections| + n, after) == Some(UserSymbol(symbols[n], n, sections))
    ensures HasSymbolsUpTo(records + [r], sections, symbols, n + 1, after)
  {
    var longer := records + [r];
    forall i: nat | i < |sections| ensures SectionSymbolAt(longer, i, sections[i], after) {
      assert SectionSymbolAt(records, i, sections[i], before);
      SectionSymbolStays(records, [r], i, sections[i], before, after);
    }
    forall j: nat | j < n + 1 ensures UserSymbolAt(longer, j, symbols[j], sections, after) {
      if j < n {
        assert UserSymbolAt(records, j, symbols[j], sections, before);
        UserSymbolStays(records, [r], j, symbols[j], sections, before, after);
      }
    }
  }

  lemma SymbolsStay(records: seq<Bytes>, sections: seq<Section>, symbols: seq<Symbol>, before: Bytes, after: Bytes)
    requires HasSymbolsUpTo(records, sections, symbols, |symbols|, before) && KeepsStrings(before, after)
    ensures HasSymbols(records, sections, symbols, after)
  {
    assert records + [] == records;
    forall i: nat | i < |sections| ensures SectionSymbolAt(records, i, sections[i], after) {
      assert SectionSymbolAt(records, i, sections[i], before);
      SectionSymbolStays(records, [], i, sections[i], before, after);
    }
    forall j: nat | j < |symbols| ensures UserSymbolAt(records, j, symbols[j], sections, after) {
      assert UserSymbolAt(records, j, symbols[j], sections, before);
      UserSymbolStays(records, [], j, symbols[j], sections, before, after);
    }
  }

  // ---- Names ----

  /** Appends a long name to the string table; offset is where it would begin. */
  method AddName(strtab: Bytes, name: Bytes) returns (newStrtab: Bytes, offset: nat)
    requires |strtab| >= 4 && 0 !in name
    ensures offset == |strtab| && newStrtab == strtab + LongName(name) && KeepsStrings(strtab, newStrtab)
    ensures |name| > 8 ==> Holds(newStrtab, offset, name)
  {
    offset := |strtab|;
    newStrtab := strtab;
    if |name| > 8 {
      newStrtab := strtab + name + [0];
      StringAdded(strtab, name);
      Associates(strtab, name, [0]);
      AppendKeepsStrings(strtab, name + [0]);
    } else {
      assert strtab + LongName(name) == strtab;
    }
  }

  // ---- Section headers and symbols ----

  method StartHeader(s: Section, strtab: Bytes) returns (h: SectionHeader, newStrtab: Bytes)
    requires IsName(s.name) && 4 <= |strtab| && |strtab| + |LongName(s.name)| <= Pow10(7)
    ensures Started(h, s, newStrtab) && newStrtab == strtab + LongName(s.name) && KeepsStrings(strtab, newStrtab)
  {
    var offset;
    newStrtab, offset := AddName(strtab, s.name);
    FieldStandsFor(s.name, offset, newStrtab);
    h := SectionHeader(SectionNameField(s.name, offset), if IsBss(s) then |s.data| % Pow256(4) else 0,
                       if IsBss(s) then 0 else |s.data|, 0, 0, 0, Characteristics(s));
  }

  method StartHeaders(sections: seq<Section>)
    returns (headers: seq<SectionHeader>, strtab: Bytes, nameToIndex: map<Bytes, nat>)
    requires SectionsRepresentable(sections)
    ensures |headers| == |sections| && AllStarted(headers, sections, strtab)
    ensures strtab == [0, 0, 0, 0] + SectionNames(sections, |sections|)
    ensures NumbersSections(nameToIndex, sections, |sections|)
  {
    headers, strtab, nameToIndex := [], [0, 0, 0, 0], map[];
    for i := 0 to |sections|
      invariant |headers| == i && AllStarted(headers, sections, strtab)
      invariant strtab == [0, 0, 0, 0] + SectionNames(sections, i)
      invariant NumbersSections(nameToIndex, sections, i)
    {
      SectionStringsGrow(sections, i + 1, |sections|);
      assert IsName(sections[i].name);
      ghost var before := strtab;
      var h;
      h, strtab := StartHeader(sections[i], strtab);
      Associates([0, 0, 0, 0], SectionNames(sections, i), LongName(sections[i].name));
      StartsOneMore(headers, sections, before, h, strtab);
      nameToIndex := nameToIndex[sections[i].name := |headers|];
      headers := headers + [h];
    }
  }

  method MakeSectionSymbol(s: Section, i: nat, strtab: Bytes) returns (r: Bytes, newStrtab: Bytes)
    requires s.name != [] && 0 !in s.name && i < 0x8000
    requires |strtab| >= 4 && |strtab| + |LongName(s.name)| < Pow256(4)
    ensures |r| == 18 && r[17] == 1 && ReadSymbol(r, 2 * i, newStrtab) == Some(SectionSymbol(s, i))
    ensures KeepsStrings(strtab, newStrtab) && newStrtab == strtab + LongName(s.name)
  {
    var offset;
    newStrtab, offset := AddName(strtab, s.name);
    WordWidths();
    SymbolReads(s.name, offset, 0, i + 1, 0, 3, 1, 2 * i, newStrtab);
    r := SymbolRecord(SymbolNameField(s.name, offset), 0, i + 1, 0, 3, 1);
  }

  /** The first n section symbols are in the records and in the string table that grew from start. */
  ghost predicate SectionsAdded(records: seq<Bytes>, strtab: Bytes, start: Bytes, sections: seq<Section>, n: nat) {
    && n <= |sections| && HasSectionSymbols(records, sections, n, strtab)
    && strtab == start + SectionNames(sections, n) && KeepsStrings(start, strtab)
  }

  method AddSectionSymbol(sections: seq<Section>, i: nat, records: seq<Bytes>, strtab: Bytes, ghost start: Bytes)
    returns (newRecords: seq<Bytes>, newStrtab: Bytes)
    requires i < |sections| && SectionsRepresentable(sections) && |start| >= 4
    requires |start| + SectionStrings(sections, |sections|) < Pow256(4)
    requires SectionsAdded(records, strtab, start, sections, i)
    ensures SectionsAdded(newRecords, newStrtab, start, sections, i + 1)
  {
    var s := sections[i];
    SectionStringsGrow(sections, i + 1, |sections|);
    var r;
    r, newStrtab := MakeSectionSymbol(s, i, strtab);
    KeepsStringsTwice(start, strtab, newStrtab);
    Associates(start, SectionNames(sections, i), LongName(s.name));
    var aux := SectionAux(|s.data|, |s.relocations|);
    OneMoreSectionSymbol(records, sections, i, strtab, newStrtab, r, aux);
    newRecords := records + [r, aux];
  }

  method AddSectionSymbols(sections: seq<Section>, startTable: Bytes) returns (records: seq<Bytes>, strtab: Bytes)
    requires SectionsRepresentable(sections) && |startTable| >= 4
    requires |startTable| + SectionStrings(sections, |sections|) < Pow256(4)
    ensures SectionsAdded(records, strtab, startTable, sections, |sections|)
  {
    records, strtab := [], startTable;
    assert startTable + SectionNames(sections, 0) == startTable;
    for i := 0 to |sections|
      invariant SectionsAdded(records, strtab, startTable, sections, i)
    {
      records, strtab := AddSectionSymbol(sections, i, records, strtab, startTable);
    }
  }

  method MakeUserSymbol(s: Symbol, j: nat, sections: seq<Section>, nameToIndex: map<Bytes, nat>, strtab: Bytes)
    returns (r: Bytes, newStrtab: Bytes)
    requires s.name != [] && 0 !in s.name && |sections| < 0x8000
    requires |strtab| >= 4 && |strtab| + |LongName(s.name)| < Pow256(4)
    requires NumbersSections(nameToIndex, sections, |sections|)
    ensures |r| == 18 && r[17] == 0
    ensures ReadSymbol(r, 2 * |sections| + j, newStrtab) == Some(UserSymbol(s, j, sections))
    ensures KeepsStrings(strtab, newStrtab) && newStrtab == strtab + LongName(s.name)
  {
    var offset;
    newStrtab, offset := AddName(strtab, s.name);
    var sectionNumber := if s.section in nameToIndex then nameToIndex[s.section] + 1 else 0;
    assert sectionNumber == SectionNumber(sections, |sections|, s.section);
    var kind, storageClass := if s.isFunction then 0x20 else 0, if s.isGlobal then 2 else 3;
    WordWidths();
    SymbolReads(s.name, offset, s.offset, sectionNumber, kind, storageClass, 0, 2 * |sections| + j, newStrtab);
    r := SymbolRecord(SymbolNameField(s.name, offset), s.offset, sectionNumber, kind, storageClass, 0);
  }

  lemma NumbersOneMoreSymbol(m: map<Bytes, nat>, symbols: seq<Symbol>, n: nat, base: nat)
    requires n < |symbols| && NumbersSymbols(m, symbols, n, base)
    ensures NumbersSymbols(m[symbols[n].name := base + n], symbols, n + 1, base)
  {
    var after := m[symbols[n].name := base + n];
    forall name ensures (if name in after then after[name] else 0) == SymbolIndex(symbols, n + 1, base, name) {
      assert (if name in m then m[name] else 0) == SymbolIndex(symbols, n, base, name);
    }
  }

  /** The first n symbols are in the records, in the string table that grew from start, and in the map. */
  ghost predicate Added(records: seq<Bytes>, strtab: Bytes, symbolIndex: map<Bytes, nat>, start: Bytes,
                        sections: seq<Section>, symbols: seq<Symbol>, n: nat) {
    && n <= |symbols| && HasSymbolsUpTo(records, sections, symbols, n, strtab)
    && strtab == start + SymbolNames(symbols, n) && KeepsStrings(start, strtab)
    && NumbersSymbols(symbolIndex, symbols, n, 2 * |sections|)
  }

  lemma AddsOneMore(records: seq<Bytes>, strtab: Bytes, symbolIndex: map<Bytes, nat>, start: Bytes,
                    sections: seq<Section>, symbols: seq<Symbol>, j: nat, r: Bytes, newStrtab: Bytes)
    requires j < |symbols| && Added(records, strtab, symbolIndex, start, sections, symbols, j)
    requires |r| == 18 && r[17] == 0
    requires ReadSymbol(r, 2 * |sections| + j, newStrtab) == Some(UserSymbol(symbols[j], j, sections))
    requires KeepsStrings(strtab, newStrtab) && newStrtab == strtab + LongName(symbols[j].name)
    ensures Added(records + [r], newStrtab, symbolIndex[symbols[j].name := |records|], start, sections, symbols, j + 1)
  {
    assert KeepsStrings(start, newStrtab) by { KeepsStringsTwice(start, strtab, newStrtab); }
    assert newStrtab == start + SymbolNames(symbols, j + 1) by {
      Associates(start, SymbolNames(symbols, j), LongName(symbols[j].name));
    }
    OneMoreUserSymbol(records, sections, symbols, j, strtab, newStrtab, r);
    NumbersOneMoreSymbol(symbolIndex, symbols, j, 2 * |sections|);
  }

  method AddUserSymbol(sections: seq<Section>, symbols: seq<Symbol>, j: nat, nameToIndex: map<Bytes, nat>,
                       records: seq<Bytes>, strtab: Bytes, symbolIndex: map<Bytes, nat>, ghost start: Bytes)
    returns (newRecords: seq<Bytes>, newStrtab: Bytes, newIndex: map<Bytes, nat>)
    requires j < |symbols| && |sections| < 0x8000 && SymbolsNamed(symbols) && |start| >= 4
    requires |start| + SymbolStrings(symbols, |symbols|) < Pow256(4)
    requires Added(records, strtab, symbolIndex, start, sections, symbols, j)
    requires NumbersSections(nameToIndex, sections, |sections|)
    ensures Added(newRecords, newStrtab, newIndex, start, sections, symbols, j + 1)
  {
    SymbolStringsGrow(symbols, j + 1, |symbols|);
    var r;
    r, newStrtab := MakeUserSymbol(symbols[j], j, sections, nameToIndex, strtab);
    AddsOneMore(records, strtab, symbolIndex, start, sections, symbols, j, r, newStrtab);
    newIndex := symbolIndex[symbols[j].name := |records|];
    newRecords := records + [r];
  }

  method AddUserSymbols(sections: seq<Section>, symbols: seq<Symbol>, nameToIndex: map<Bytes, nat>,
                        startRecords: seq<Bytes>, startTable: Bytes)
    returns (records: seq<Bytes>, strtab: Bytes, symbolIndex: map<Bytes, nat>)
    requires |sections| < 0x8000 && SymbolsNamed(symbols) && |startTable| >= 4
    requires HasSectionSymbols(startRecords, sections, |sections|, startTable)
    requires |startTable| + SymbolStrings(symbols, |symbols|) < Pow256(4)
    requires NumbersSections(nameToIndex, sections, |sections|)
    ensures Added(records, strtab, symbolIndex, startTable, sections, symbols, |symbols|)
  {
    records, strtab, symbolIndex := startRecords, startTable, map[];
    for j := 0 to |symbols|
      invariant Added(records, strtab, symbolIndex, startTable, sections, symbols, j)
    {
      records, strtab, symbolIndex :=
        AddUserSymbol(sections, symbols, j, nameToIndex, records, strtab, symbolIndex, startTable);
    }
  }

  // ---- Relocations and offsets ----

  method MakeRelocations(rs: seq<Relocation>, symbols: seq<Symbol>, symbolIndex: map<Bytes, nat>, ghost base: nat,
                         isArm64: bool)
    returns (out: seq<CoffRelocation>)
    requires NumbersSymbols(symbolIndex, symbols, |symbols|, base)
    ensures out == RelocationsOf(rs, symbols, base, isArm64)
  {
    out := [];
    for k := 0 to |rs|
      invariant out == RelocationsOf(rs[..k], symbols, base, isArm64)
    {
      var r := rs[k];
      var index := if r.symbol in symbolIndex then symbolIndex[r.symbol] else 0;
      assert index == SymbolIndex(symbols, |symbols|, base, r.symbol);
      var kind := if isArm64 then 3 else if r.kind == 0 then 1 else 4;
      out := out + [CoffRelocation(r.offset % Pow256(4), index % Pow256(4), kind)];
      assert rs[..k + 1][..k] == rs[..k];
    }
    assert rs[..|rs|] == rs;
  }

  method MakeTables(sections: seq<Section>, symbols: seq<Symbol>, symbolIndex: map<Bytes, nat>, isArm64: bool)
    returns (relocations: seq<seq<CoffRelocation>>)
    requires NumbersSymbols(symbolIndex, symbols, |symbols|, 2 * |sections|)
    ensures |relocations| == |sections| && AreRelocations(relocations, sections, symbols, isArm64)
  {
    relocations := [];
    for i := 0 to |sections|
      invariant |relocations| == i && AreRelocations(relocations, sections, symbols, isArm64)
    {
      var out := MakeRelocations(sections[i].relocations, symbols, symbolIndex, 2 * |sections|, isArm64);
      relocations := relocations + [out];
    }
  }

  ghost predicate AreRelocations(relocations: seq<seq<CoffRelocation>>, sections: seq<Section>, symbols: seq<Symbol>,
                                 isArm64: bool) {
    |relocations| <= |sections|
    && forall i: nat :: i < |relocations| ==>
         relocations[i] == RelocationsOf(sections[i].relocations, symbols, 2 * |sections|, isArm64)
  }

  ghost predicate AllPlaced(headers: seq<SectionHeader>, sections: seq<Section>, raws: seq<Bytes>, strtab: Bytes) {
    |headers| == |sections| == |raws|
    && forall k: nat :: k < |headers| ==> Placed(headers[k], sections, k, raws, strtab)
  }

  /** A header with the place of its raw data. */
  ghost predicate Placed(h: SectionHeader, sections: seq<Section>, i: nat, raws: seq<Bytes>, strtab: Bytes)
    requires i < |sections| == |raws|
  {
    && StandsFor(h.name, sections[i].name, strtab)
    && h.virtualSize == VirtualSize(sections[i]) && h.characteristics == Characteristics(sections[i])
    && h.rawSize == |raws[i]|
    && h.rawAt == (if IsBss(sections[i]) then 0 else 20 + 40 * |sections| + Offset(raws, i))
    && h.relocationsAt == h.relocationCount == 0
  }

  lemma GetsRawData(h: SectionHeader, sections: seq<Section>, i: nat, strtab: Bytes, cursor: nat)
    requires i < |sections| && Started(h, sections[i], strtab)
    requires cursor == 20 + 40 * |sections| + Offset(Raws(sections), i)
    ensures Placed(if IsBss(sections[i]) then h else h.(rawAt := cursor), sections, i, Raws(sections), strtab)
    ensures cursor + |Raw(sections[i])| == 20 + 40 * |sections| + Offset(Raws(sections), i + 1)
  {
    NextOffset(Raws(sections), i);
    PartAt(Raws(sections), i);
  }

  method PlaceRawData(sections: seq<Section>, headers: seq<SectionHeader>, ghost strtab: Bytes)
    returns (placed: seq<SectionHeader>, cursor: nat)
    requires |headers| == |sections| && AllStarted(headers, sections, strtab)
    ensures |placed| == |sections| && AllPlaced(placed, sections, Raws(sections), strtab)
    ensures cursor == 20 + 40 * |sections| + |Concat(Raws(sections))|
  {
    ghost var raws := Raws(sections);
    placed, cursor := headers, 20 + 40 * |sections|;
    assert raws[..0] == [];
    for i := 0 to |sections|
      invariant |placed| == |sections| && cursor == 20 + 40 * |sections| + Offset(raws, i)
      invariant forall k: nat :: k < i ==> Placed(placed[k], sections, k, raws, strtab)
      invariant forall k: nat :: i <= k < |sections| ==> placed[k] == headers[k]
    {
      assert Started(headers[i], sections[i], strtab);
      GetsRawData(headers[i], sections, i, strtab, cursor);
      if !IsBss(sections[i]) {
        placed := placed[i := placed[i].(rawAt := cursor)];
        cursor := cursor + |sections[i].data|;
      }
    }
    assert raws[..|sections|] == raws;
  }

  lemma GetsTable(h: SectionHeader, sections: seq<Section>, i: nat, raws: seq<Bytes>, tables: seq<Bytes>, strtab: Bytes,
                  count: nat, cursor: nat)
    requires i < |sections| == |raws| == |tables| && Placed(h, sections, i, raws, strtab)
    requires count == |sections[i].relocations| && |tables[i]| == 10 * count
    requires cursor == 20 + 40 * |sections| + |Concat(raws)| + Offset(tables, i)
    ensures Describes(if count == 0 then h else h.(relocationsAt := cursor, relocationCount := count), sections, i,
                      raws, tables, strtab)
    ensures cursor + 10 * count == 20 + 40 * |sections| + |Concat(raws)| + Offset(tables, i + 1)
  {
    NextOffset(tables, i);
  }

  /** The first n headers are complete, the others as they were. */
  ghost predicate CompleteUpTo(placed: seq<SectionHeader>, headers: seq<SectionHeader>, n: nat, sections: seq<Section>,
                               raws: seq<Bytes>, tables: seq<Bytes>, strtab: Bytes)
    requires |headers| == |sections| == |raws| == |tables|
  {
    && |placed| == |headers| && n <= |headers| && placed[n..] == headers[n..]
    && forall k: nat :: k < n ==> Describes(placed[k], sections, k, raws, tables, strtab)
  }

  lemma CompletesOneMore(placed: seq<SectionHeader>, headers: seq<SectionHeader>, n: nat, sections: seq<Section>,
                         raws: seq<Bytes>, tables: seq<Bytes>, strtab: Bytes, h: SectionHeader)
    requires |headers| == |sections| == |raws| == |tables|
    requires CompleteUpTo(placed, headers, n, sections, raws, tables, strtab) && n < |headers|
    requires Describes(h, sections, n, raws, tables, strtab)
    ensures CompleteUpTo(placed[n := h], headers, n + 1, sections, raws, tables, strtab)
  {
    assert placed[n..][1..] == headers[n..][1..];
    var after := placed[n := h];
    forall k: nat | k < n + 1 ensures Describes(after[k], sections, k, raws, tables, strtab) {
      if k < n {
        assert Describes(placed[k], sections, k, raws, tables, strtab);
      }
    }
  }

  method PlaceTables(sections: seq<Section>, headers: seq<SectionHeader>, relocations: seq<seq<CoffRelocation>>,
                     start: nat, ghost symbols: seq<Symbol>, ghost isArm64: bool, ghost strtab: Bytes)
    returns (placed: seq<SectionHeader>, cursor: nat)
    requires |headers| == |sections| == |relocations|
    requires AllPlaced(headers, sections, Raws(sections), strtab)
    requires AreRelocations(relocations, sections, symbols, isArm64)
    requires start == 20 + 40 * |sections| + |Concat(Raws(sections))|
    ensures |placed| == |sections|
    ensures var tables := RelocationTables(sections, symbols, isArm64);
            && AllDescribed(placed, sections, Raws(sections), tables, strtab)
            && cursor == start + |Concat(tables)|
  {
    ghost var raws, tables := Raws(sections), RelocationTables(sections, symbols, isArm64);
    placed, cursor := headers, start;
    assert tables[..0] == [];
    for i := 0 to |sections|
      invariant CompleteUpTo(placed, headers, i, sections, raws, tables, strtab)
      invariant cursor == start + Offset(tables, i)
    {
      assert placed[i] == placed[i..][0] == headers[i];
      var h := headers[i];
      assert Placed(h, sections, i, raws, strtab) && |tables[i]| == 10 * |relocations[i]|;
      GetsTable(h, sections, i, raws, tables, strtab, |relocations[i]|, cursor);
      if relocations[i] != [] {
        h := h.(relocationsAt := cursor, relocationCount := |relocations[i]|);
        cursor := cursor + 10 * |relocations[i]|;
      }
      CompletesOneMore(placed, headers, i, sections, raws, tables, strtab, h);
      placed := placed[i := h];
    }
    assert tables[..|sections|] == tables;
  }

  // ---- Serialisation ----

  ghost predicate AreTables(tables: seq<Bytes>, relocations: seq<seq<CoffRelocation>>)
    requires |tables| == |relocations|
  {
    forall i: nat :: i < |tables| ==> tables[i] == RelocationBytes(relocations[i])
  }

  method AppendHeaders(out: ByteBuffer, headers: seq<SectionHeader>)
    requires forall i: nat :: i < |headers| ==> |headers[i].name| == 8
    modifies out
    ensures out.data == old(out.data) + Concat(HeaderTable(headers))
  {
    ghost var start, parts := out.data, HeaderTable(headers);
    assert parts[..0] == [];
    for i := 0 to |headers|
      invariant out.data == start + Concat(parts[..i])
    {
      out.Append(HeaderBytes(headers[i]));
      NextOffset(parts, i);
      Associates(start, Concat(parts[..i]), parts[i]);
    }
    assert parts[..|headers|] == parts;
  }

  method AppendRawData(out: ByteBuffer, sections: seq<Section>)
    modifies out
    ensures out.data == old(out.data) + Concat(Raws(sections))
  {
    ghost var start, parts := out.data, Raws(sections);
    assert parts[..0] == [];
    for i := 0 to |sections|
      invariant out.data == start + Concat(parts[..i])
    {
      NextOffset(parts, i);
      Associates(start, Concat(parts[..i]), parts[i]);
      if !IsBss(sections[i]) && sections[i].data != [] {
        out.Append(sections[i].data);
      } else {
        assert parts[i] == [] && Concat(parts[..i]) + [] == Concat(parts[..i]);
      }
    }
    assert parts[..|sections|] == parts;
  }

  method AppendTables(out: ByteBuffer, relocations: seq<seq<CoffRelocation>>, ghost parts: seq<Bytes>)
    requires |parts| == |relocations| && AreTables(parts, relocations)
    modifies out
    ensures out.data == old(out.data) + Concat(parts)
  {
    ghost var start := out.data;
    assert parts[..0] == [];
    for i := 0 to |relocations|
      invariant out.data == start + Concat(parts[..i])
    {
      NextOffset(parts, i);
      Associates(start, Concat(parts[..i]), parts[i]);
      if relocations[i] != [] {
        out.Append(RelocationBytes(relocations[i]));
      } else {
        assert parts[i] == [] && Concat(parts[..i]) + [] == Concat(parts[..i]);
      }
    }
    assert parts[..|relocations|] == parts;
  }

  method AppendRecords(out: ByteBuffer, records: seq<Bytes>)
    modifies out
    ensures out.data == old(out.data) + Concat(records)
  {
    ghost var start := out.data;
    assert records[..0] == [];
    for i := 0 to |records|
      invariant out.data == start + Concat(records[..i])
    {
      NextOffset(records, i);
      Associates(start, Concat(records[..i]), records[i]);
      out.Append(records[i]);
    }
    assert records[..|records|] == records;
  }

  method Serialise(machine: nat, sections: seq<Section>, headers: seq<SectionHeader>,
                   relocations: seq<seq<CoffRelocation>>, symbolsAt: nat, records: seq<Bytes>, strtab: Bytes,
                   ghost tables: seq<Bytes>)
    returns (out: ByteBuffer)
    requires forall i: nat :: i < |headers| ==> |headers[i].name| == 8
    requires |tables| == |relocations|
    requires AreTables(tables, relocations)
    ensures fresh(out)
    ensures out.data == FileBytes(machine, |sections|, symbolsAt, Concat(HeaderTable(headers)), Concat(Raws(sections)),
                                  Concat(tables), Concat(records), |records|, strtab)
  {
    out := new ByteBuffer();
    var fileHeader := FileHeader(machine, |sections|, symbolsAt, |records|);
    out.Append(fileHeader);
    assert [] + fileHeader == fileHeader;
    AppendHeaders(out, headers);
    AppendRawData(out, sections);
    AppendTables(out, relocations, tables);
    AppendRecords(out, records);
    out.Append(strtab);
  }

  /** Each piece is at the place that the headers announce. */
  method WriteFile(machine: nat, sections: seq<Section>, headers: seq<SectionHeader>,
                   relocations: seq<seq<CoffRelocation>>, symbolsAt: nat, records: seq<Bytes>, strtab: Bytes,
                   ghost raws: seq<Bytes>, ghost tables: seq<Bytes>)
    returns (out: ByteBuffer)
    requires |headers| == |sections| < 0x8000 && machine < Pow256(2) && AllOfSize(records, 18) && raws == Raws(sections)
    requires symbolsAt == 20 + 40 * |sections| + |Concat(raws)| + |Concat(tables)|
    requires forall i: nat :: i < |headers| ==> |headers[i].name| == 8
    requires |tables| == |relocations|
    requires AreTables(tables, relocations)
    requires |strtab| >= 4 && FromLE(strtab[..4]) == |strtab|
    ensures fresh(out)
    ensures |out.data| < Pow256(4) ==>
              && InPlace(out.data, |sections|, symbolsAt, |records|, Concat(HeaderTable(headers)), raws, tables,
                         Concat(records))
              && ReadCoff(out.data) ==
                 FromTables(machine, ReadTables(out.data, |sections|, symbolsAt, |records|, strtab))
  {
    out := Serialise(machine, sections, headers, relocations, symbolsAt, records, strtab, tables);
    UniformSize(HeaderTable(headers), 40);
    UniformSize(records, 18);
    if |out.data| < Pow256(4) {
      WrittenReads(out.data, machine, |sections|, symbolsAt, |records|, Concat(HeaderTable(headers)), raws, tables,
                   Concat(records), strtab);
    }
  }

  lemma WrittenReads(bytes: Bytes, machine: nat, n: nat, at: nat, m: nat, headers: Bytes, raws: seq<Bytes>,
                     tables: seq<Bytes>, records: Bytes, strtab: Bytes)
    requires |headers| == 40 * n && |records| == 18 * m && at == 20 + 40 * n + |Concat(raws)| + |Concat(tables)|
    requires bytes == FileBytes(machine, n, at, headers, Concat(raws), Concat(tables), records, m, strtab)
    requires |bytes| < Pow256(4) && machine < Pow256(2) && n < 0x8000
    requires |strtab| >= 4 && FromLE(strtab[..4]) == |strtab|
    ensures InPlace(bytes, n, at, m, headers, raws, tables, records)
    ensures ReadCoff(bytes) == FromTables(machine, ReadTables(bytes, n, at, m, strtab))
  {
    PiecesInPlace(bytes, machine, n, at, m, headers, raws, tables, records, strtab);
    assert n < Pow256(2) by { WordWidths(); }
    FileNumbers(bytes, machine, n, at, m, headers, Concat(raws), Concat(tables), records, strtab);
    ReadCoffReadsTables(bytes, machine, n, at, m, strtab);
  }

  // ---- The builder ----

  class COFFBuilder {
    const isArm64: bool
    var sections: seq<Section>
    var symbols: seq<Symbol>

    constructor (isArm64: bool)
      ensures this.isArm64 == isArm64 && sections == [] && symbols == []
    {
      this.isArm64 := isArm64;
      sections, symbols := [], [];
    }

    method AddSection(section: Section)
      modifies this
      ensures sections == old(sections) + [section] && symbols == old(symbols)
    {
      sections := sections + [section];
    }

    method AddSymbol(symbol: Symbol)
      modifies this
      ensures symbols == old(symbols) + [symbol] && sections == old(sections)
    {
      symbols := symbols + [symbol];
    }

    /** Every symbol record, and the string table with its size in front. */
    method BuildSymbols(startTable: Bytes, nameToIndex: map<Bytes, nat>)
      returns (records: seq<Bytes>, strtab: Bytes, symbolIndex: map<Bytes, nat>)
      requires Representable(sections, symbols)
      requires startTable == [0, 0, 0, 0] + SectionNames(sections, |sections|)
      requires NumbersSections(nameToIndex, sections, |sections|)
      ensures HasSymbols(records, sections, symbols, strtab) && KeepsStrings(startTable, strtab)
      ensures strtab == StringTable(sections, symbols) && |strtab| >= 4 && FromLE(strtab[..4]) == |strtab|
      ensures NumbersSymbols(symbolIndex, symbols, |symbols|, 2 * |sections|)
    {
      var sectionRecords, sectionTable := AddSectionSymbols(sections, startTable);
      var grown;
      records, grown, symbolIndex := AddUserSymbols(sections, symbols, nameToIndex, sectionRecords, sectionTable);
      strtab := LE(|grown|, 4) + grown[4..];
      SizeInFront(grown, sections, symbols);
      assert strtab[..4] == LE(|grown|, 4);
      FromLEOfLE(|grown|, 4);
      PatchKeepsStrings(grown, LE(|grown|, 4));
      SymbolsStay(records, sections, symbols, grown, strtab);
      KeepsStringsTwice(startTable, sectionTable, grown);
      KeepsStringsTwice(startTable, grown, strtab);
    }

    /** A file below 4 GB reads back as the sections and symbols that were added, but for the names of FileRead. */
    method Build() returns (out: ByteBuffer)
      requires Representable(sections, symbols)
      ensures fresh(out)
      ensures |out.data| < Pow256(4) ==> ReadsBack(out.data, sections, symbols, isArm64)
    {
      var headers, startTable, nameToIndex := StartHeaders(sections);
      var records, strtab, symbolIndex := BuildSymbols(startTable, nameToIndex);
      StartedStay(headers, sections, startTable, strtab);
      var relocations := MakeTables(sections, symbols, symbolIndex, isArm64);
      var cursor;
      headers, cursor := PlaceRawData(sections, headers, strtab);
      headers, cursor := PlaceTables(sections, headers, relocations, cursor, symbols, isArm64, strtab);
      ghost var tables := RelocationTables(sections, symbols, isArm64);
      Named(headers, sections, Raws(sections), tables, strtab);
      out := WriteFile(Machine(isArm64), sections, headers, relocations, cursor, records, strtab, Raws(sections),
                       tables);
      if |out.data| < Pow256(4) {
        TablesRead(out.data, sections, symbols, isArm64, headers, records, strtab, Raws(sections), tables,
                   Concat(HeaderTable(headers)), Concat(records), |sections|, cursor, |records|);
        FileReadsBack(out.data, sections, symbols, isArm64);
      }
    }
  }

  lemma SizeInFront(grown: Bytes, sections: seq<Section>, symbols: seq<Symbol>)
    requires grown == [0, 0, 0, 0] + SectionNames(sections, |sections|) + SectionNames(sections, |sections|)
                      + SymbolNames(symbols, |symbols|)
    ensures |grown| >= 4 && LE(|grown|, 4) + grown[4..] == StringTable(sections, symbols)
  {
    var a, b := SectionNames(sections, |sections|), SymbolNames(symbols, |symbols|);
    assert Strings(sections, symbols) == a + a + b;
    BehindFour(grown, a, b);
  }

  lemma BehindFour(grown: Bytes, a: Bytes, b: Bytes)
    requires grown == [0, 0, 0, 0] + a + a + b
    ensures |grown| >= 4 && LE(|grown|, 4) + grown[4..] == TableOf(a + a + b)
  {
    var front: Bytes := [0, 0, 0, 0];
    Associates(front, a, a);
    Associates(front, a + a, b);
    WithoutFront(grown, front, a + a + b);
  }

  lemma WithoutFront(s: Bytes, front: Bytes, back: Bytes)
    requires s == front + back
    ensures |s| == |front| + |back| && s[|front|..] == back
  {
  }

  lemma Named(headers: seq<SectionHeader>, sections: seq<Section>, raws: seq<Bytes>, tables: seq<Bytes>, strtab: Bytes)
    requires |headers| == |sections| == |raws| == |tables| && AllDescribed(headers, sections, raws, tables, strtab)
    ensures forall i: nat :: i < |headers| ==> |headers[i].name| == 8
  {
    forall i: nat | i < |headers| ensures |headers[i].name| == 8 {
      assert Describes(headers[i], sections, i, raws, tables, strtab);
    }
  }
}

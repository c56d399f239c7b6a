/** What the sections and symbols given to the COFF builder look like in the file, field by field. */
module CoffContents {
  import opened ByteStreams
  import opened CoffFormat
  import opened CoffLayout
  import opened ObjectFiles
  import opened Options

  // The constants of the Microsoft PE/COFF specification.
  const IMAGE_FILE_MACHINE_AMD64: nat := 0x8664
  const IMAGE_FILE_MACHINE_ARM64: nat := 0xAA64
  const IMAGE_SCN_CNT_CODE: nat := 0x20
  const IMAGE_SCN_CNT_INITIALIZED_DATA: nat := 0x40
  const IMAGE_SCN_CNT_UNINITIALIZED_DATA: nat := 0x80
  const IMAGE_SCN_MEM_EXECUTE: nat := 0x2000_0000
  const IMAGE_SCN_MEM_READ: nat := 0x4000_0000
  const IMAGE_SCN_MEM_WRITE: nat := 0x8000_0000
  const IMAGE_REL_AMD64_ADDR64: nat := 1
  const IMAGE_REL_AMD64_REL32: nat := 4
  const IMAGE_REL_ARM64_BRANCH26: nat := 3
  const IMAGE_SYM_DTYPE_FUNCTION: nat := 0x20
  const IMAGE_SYM_CLASS_EXTERNAL: nat := 2
  const IMAGE_SYM_CLASS_STATIC: nat := 3

  /** Of the first n symbols, number j is the last with the name. */
  ghost predicate IsLastSymbol(symbols: seq<Symbol>, n: nat, name: Bytes, j: nat)
    requires n <= |symbols|
  {
    j < n && symbols[j].name == name && forall l: nat :: j < l < n ==> symbols[l].name != name
  }

  ghost predicate IsLastSection(sections: seq<Section>, n: nat, name: Bytes, i: nat)
    requires n <= |sections|
  {
    i < n && sections[i].name == name && forall l: nat :: i < l < n ==> sections[l].name != name
  }

  ghost predicate NoSymbol(symbols: seq<Symbol>, n: nat, name: Bytes)
    requires n <= |symbols|
  {
    forall j: nat :: j < n ==> symbols[j].name != name
  }

  ghost predicate NoSection(sections: seq<Section>, n: nat, name: Bytes)
    requires n <= |sections|
  {
    forall i: nat :: i < n ==> sections[i].name != name
  }

  ghost predicate HoldsRelocation(c: CoffRelocation, r: Relocation, symbols: seq<Symbol>, base: nat, isArm64: bool) {
    && c.address == r.offset % Pow256(4)
    && c.kind == (if isArm64 then IMAGE_REL_ARM64_BRANCH26
                  else if r.kind == 0 then IMAGE_REL_AMD64_ADDR64 else IMAGE_REL_AMD64_REL32)
    && (forall j: nat :: IsLastSymbol(symbols, |symbols|, r.symbol, j) ==> c.symbolIndex == (base + j) % Pow256(4))
    && (NoSymbol(symbols, |symbols|, r.symbol) ==> c.symbolIndex == 0)
  }

  predicate HoldsFlags(flags: nat, name: Bytes) {
    if name in [Text(".bss"), Text("__bss")] then
      flags == IMAGE_SCN_CNT_UNINITIALIZED_DATA + IMAGE_SCN_MEM_READ + IMAGE_SCN_MEM_WRITE
    else if name in [Text(".text"), Text(".code"), Text("__text")] then
      flags == IMAGE_SCN_CNT_CODE + IMAGE_SCN_MEM_EXECUTE + IMAGE_SCN_MEM_READ
    else if name in [Text(".rdata"), Text(".rodata"), Text("__const")] then
      flags == IMAGE_SCN_CNT_INITIALIZED_DATA + IMAGE_SCN_MEM_READ
    else
      flags == IMAGE_SCN_CNT_INITIALIZED_DATA + IMAGE_SCN_MEM_READ + IMAGE_SCN_MEM_WRITE
  }

  /** The section's bytes unless its name says that it has none, and its relocations in order. */
  ghost predicate HoldsSection(c: CoffSection, s: Section, symbols: seq<Symbol>, base: nat, isArm64: bool) {
    && (!IsSlashName(s.name) ==> c.name == s.name)
    && (if s.name in [Text(".bss"), Text("__bss")] then c.raw == [] && c.virtualSize == |s.data| % Pow256(4)
        else c.raw == s.data && c.virtualSize == 0)
    && HoldsFlags(c.characteristics, s.name)
    && |c.relocations| == |s.relocations|
    && forall k: nat :: k < |s.relocations| ==>
         HoldsRelocation(c.relocations[k], s.relocations[k], symbols, base, isArm64)
  }

  ghost predicate HoldsSymbol(c: CoffSymbol, s: Symbol, index: nat, sections: seq<Section>) {
    && c.index == index && c.name == s.name && c.value == s.offset % Pow256(4)
    && c.kind == (if s.isFunction then IMAGE_SYM_DTYPE_FUNCTION else 0)
    && c.storageClass == (if s.isGlobal then IMAGE_SYM_CLASS_EXTERNAL else IMAGE_SYM_CLASS_STATIC)
    && (forall i: nat :: IsLastSection(sections, |sections|, s.section, i) ==> c.sectionNumber == i + 1)
    && (NoSection(sections, |sections|, s.section) ==> c.sectionNumber == 0)
  }

  /** The symbol of section i, whose auxiliary record takes the next index. */
  predicate HoldsSectionSymbol(c: CoffSymbol, s: Section, i: nat) {
    && c.index == 2 * i && c.name == s.name && c.value == 0 && c.sectionNumber == i + 1 && c.kind == 0
    && c.storageClass == IMAGE_SYM_CLASS_STATIC
  }

  /** Machine, sections and symbols, each in the order in which they were added. */
  ghost predicate HoldsInputs(file: CoffFile, sections: seq<Section>, symbols: seq<Symbol>, isArm64: bool) {
    && file.machine == (if isArm64 then IMAGE_FILE_MACHINE_ARM64 else IMAGE_FILE_MACHINE_AMD64)
    && |file.sections| == |sections| && |file.symbols| == |sections| + |symbols|
    && (forall i: nat :: i < |sections| ==>
          && HoldsSection(file.sections[i], sections[i], symbols, 2 * |sections|, isArm64)
          && HoldsSectionSymbol(file.symbols[i], sections[i], i))
    && (forall j: nat :: j < |symbols| ==>
          HoldsSymbol(file.symbols[|sections| + j], symbols[j], 2 * |sections| + j, sections))
  }

  // ---- The file that is read holds the inputs ----

  lemma SectionTexts()
    ensures Text(".bss") == [46, 98, 115, 115] && Text("__bss") == [95, 95, 98, 115, 115]
    ensures Text(".text") == [46, 116, 101, 120, 116] && Text(".code") == [46, 99, 111, 100, 101]
    ensures Text("__text") == [95, 95, 116, 101, 120, 116] && Text(".rdata") == [46, 114, 100, 97, 116, 97]
    ensures Text(".rodata") == [46, 114, 111, 100, 97, 116, 97] && Text("__const") == [95, 95, 99, 111, 110, 115, 116]
  {
  }

  lemma LastRelocationHeld(r: Relocation, symbols: seq<Symbol>, base: nat, isArm64: bool)
    ensures HoldsRelocation(CoffRelocation(r.offset % Pow256(4),
                                           SymbolIndex(symbols, |symbols|, base, r.symbol) % Pow256(4),
                                           RelocationKind(r, isArm64)),
                            r, symbols, base, isArm64)
  {
    forall j: nat | IsLastSymbol(symbols, |symbols|, r.symbol, j)
      ensures SymbolIndex(symbols, |symbols|, base, r.symbol) == base + j
    {
      LastIndexed(symbols, |symbols|, base, r.symbol, j);
    }
    if NoSymbol(symbols, |symbols|, r.symbol) { MissingIndexed(symbols, |symbols|, base, r.symbol); }
  }

  lemma {:induction false} RelocationHeld(rs: seq<Relocation>, symbols: seq<Symbol>, base: nat, isArm64: bool, k: nat)
    requires k < |rs|
    ensures HoldsRelocation(RelocationsOf(rs, symbols, base, isArm64)[k], rs[k], symbols, base, isArm64)
    decreases |rs|
  {
    if k < |rs| - 1 {
      RelocationHeld(rs[..|rs| - 1], symbols, base, isArm64, k);
    } else {
      LastRelocationHeld(rs[k], symbols, base, isArm64);
    }
  }

  lemma {:induction false} LastIndexed(symbols: seq<Symbol>, n: nat, base: nat, name: Bytes, j: nat)
    requires n <= |symbols| && IsLastSymbol(symbols, n, name, j)
    ensures SymbolIndex(symbols, n, base, name) == base + j
  {
    if j < n - 1 { LastIndexed(symbols, n - 1, base, name, j); }
  }

  lemma {:induction false} MissingIndexed(symbols: seq<Symbol>, n: nat, base: nat, name: Bytes)
    requires n <= |symbols| && NoSymbol(symbols, n, name)
    ensures SymbolIndex(symbols, n, base, name) == 0
  {
    if n > 0 { MissingIndexed(symbols, n - 1, base, name); }
  }

  lemma {:induction false} LastNumbered(sections: seq<Section>, n: nat, name: Bytes, i: nat)
    requires n <= |sections| && IsLastSection(sections, n, name, i)
    ensures SectionNumber(sections, n, name) == i + 1
  {
    if i < n - 1 { LastNumbered(sections, n - 1, name, i); }
  }

  lemma SectionHeld(s: Section, symbols: seq<Symbol>, base: nat, isArm64: bool, strtab: Bytes)
    requires SectionRead(s, symbols, base, isArm64, strtab).Some?
    ensures HoldsSection(SectionRead(s, symbols, base, isArm64, strtab).value, s, symbols, base, isArm64)
  {
    SectionTexts();
    forall k: nat | k < |s.relocations|
      ensures HoldsRelocation(RelocationsOf(s.relocations, symbols, base, isArm64)[k], s.relocations[k], symbols, base,
                              isArm64)
    {
      RelocationHeld(s.relocations, symbols, base, isArm64, k);
    }
  }

  lemma {:induction false} SectionReadAt(sections: seq<Section>, from: nat, symbols: seq<Symbol>, isArm64: bool,
                                         strtab: Bytes, i: nat)
    requires from <= i < |sections| && SectionsReadFrom(sections, from, symbols, isArm64, strtab).Some?
    ensures var read := SectionsReadFrom(sections, from, symbols, isArm64, strtab).value;
            |read| == |sections| - from
            && SectionRead(sections[i], symbols, 2 * |sections|, isArm64, strtab) == Some(read[i - from])
    decreases |sections| - from
  {
    if from + 1 < |sections| {
      SectionReadAt(sections, from + 1, symbols, isArm64, strtab, if i > from then i else i + 1);
    }
  }

  lemma {:induction false} ListedUserSymbol(symbols: seq<Symbol>, from: nat, sections: seq<Section>, j: nat)
    requires from <= j < |symbols|
    ensures |UserSymbolsFrom(symbols, from, sections)| == |symbols| - from
    ensures UserSymbolsFrom(symbols, from, sections)[j - from] == UserSymbol(symbols[j], j, sections)
    decreases |symbols| - from
  {
    if from + 1 < |symbols| { ListedUserSymbol(symbols, from + 1, sections, if j > from then j else j + 1); }
  }

  lemma {:induction false} SymbolCount(sections: seq<Section>, from: nat, symbols: seq<Symbol>)
    requires from <= |sections|
    ensures |SymbolsFrom(sections, from, symbols)| == |sections| - from + |symbols|
    decreases |sections| - from
  {
    if from < |sections| {
      SymbolCount(sections, from + 1, symbols);
    } else if symbols != [] {
      ListedUserSymbol(symbols, 0, sections, 0);
    }
  }

  lemma {:induction false} ListedSectionSymbol(sections: seq<Section>, from: nat, symbols: seq<Symbol>, i: nat)
    requires from <= i < |sections|
    ensures |SymbolsFrom(sections, from, symbols)| == |sections| - from + |symbols|
    ensures SymbolsFrom(sections, from, symbols)[i - from] == SectionSymbol(sections[i], i)
    decreases |sections| - from
  {
    SymbolCount(sections, from, symbols);
    if from < i { ListedSectionSymbol(sections, from + 1, symbols, i); }
  }

  lemma {:induction false} ListedSymbol(sections: seq<Section>, from: nat, symbols: seq<Symbol>, j: nat)
    requires from <= |sections| && j < |symbols|
    ensures |SymbolsFrom(sections, from, symbols)| == |sections| - from + |symbols|
    ensures SymbolsFrom(sections, from, symbols)[|sections| - from + j] == UserSymbol(symbols[j], j, sections)
    decreases |sections| - from
  {
    SymbolCount(sections, from, symbols);
    if from < |sections| {
      ListedSymbol(sections, from + 1, symbols, j);
    } else {
      ListedUserSymbol(symbols, 0, sections, j);
    }
  }

  lemma SymbolHeld(s: Symbol, j: nat, sections: seq<Section>)
    ensures HoldsSymbol(UserSymbol(s, j, sections), s, 2 * |sections| + j, sections)
  {
    forall i: nat | IsLastSection(sections, |sections|, s.section, i)
      ensures SectionNumber(sections, |sections|, s.section) == i + 1
    {
      LastNumbered(sections, |sections|, s.section, i);
    }
  }

  lemma SectionsHeld(read: seq<CoffSection>, sections: seq<Section>, symbols: seq<Symbol>, isArm64: bool,
                     strtab: Bytes)
    requires SectionsReadFrom(sections, 0, symbols, isArm64, strtab) == Some(read)
    ensures |read| == |sections|
    ensures forall i: nat :: i < |sections| ==>
              HoldsSection(read[i], sections[i], symbols, 2 * |sections|, isArm64)
  {
    if sections != [] { SectionReadAt(sections, 0, symbols, isArm64, strtab, 0); }
    forall i: nat | i < |sections| ensures HoldsSection(read[i], sections[i], symbols, 2 * |sections|, isArm64) {
      SectionReadAt(sections, 0, symbols, isArm64, strtab, i);
      SectionHeld(sections[i], symbols, 2 * |sections|, isArm64, strtab);
    }
  }

  lemma SymbolsHeld(read: seq<CoffSymbol>, sections: seq<Section>, symbols: seq<Symbol>)
    requires read == SymbolsFrom(sections, 0, symbols)
    ensures |read| == |sections| + |symbols|
    ensures forall i: nat :: i < |sections| ==> HoldsSectionSymbol(read[i], sections[i], i)
    ensures forall j: nat :: j < |symbols| ==>
              HoldsSymbol(read[|sections| + j], symbols[j], 2 * |sections| + j, sections)
  {
    SymbolCount(sections, 0, symbols);
    forall i: nat | i < |sections| ensures HoldsSectionSymbol(read[i], sections[i], i) {
      ListedSectionSymbol(sections, 0, symbols, i);
    }
    forall j: nat | j < |symbols|
      ensures HoldsSymbol(read[|sections| + j], symbols[j], 2 * |sections| + j, sections)
    {
      ListedSymbol(sections, 0, symbols, j);
      SymbolHeld(symbols[j], j, sections);
    }
  }

  /** Whatever is read holds the inputs, and something is read if no short name begins with a slash. */
  lemma FileReadHoldsInputs(sections: seq<Section>, symbols: seq<Symbol>, isArm64: bool)
    ensures FileRead(sections, symbols, isArm64).Some? ==>
              HoldsInputs(FileRead(sections, symbols, isArm64).value, sections, symbols, isArm64)
    ensures (forall i: nat :: i < |sections| ==> !IsSlashName(sections[i].name)) ==>
              FileRead(sections, symbols, isArm64).Some?
  {
    var strtab := StringTable(sections, symbols);
    FileReadIsExact(sections, symbols, isArm64);
    if FileRead(sections, symbols, isArm64).Some? {
      var file := FileRead(sections, symbols, isArm64).value;
      SectionsHeld(file.sections, sections, symbols, isArm64, strtab);
      SymbolsHeld(file.symbols, sections, symbols);
    }
  }

  /** The bytes read as FileRead says, and whatever is read holds the inputs. */
  ghost predicate ReadsBack(bytes: Bytes, sections: seq<Section>, symbols: seq<Symbol>, isArm64: bool) {
    && ReadCoff(bytes) == FileRead(sections, symbols, isArm64)
    && (ReadCoff(bytes).Some? ==> HoldsInputs(ReadCoff(bytes).value, sections, symbols, isArm64))
  }

  lemma FileReadsBack(bytes: Bytes, sections: seq<Section>, symbols: seq<Symbol>, isArm64: bool)
    requires ReadCoff(bytes) == FileRead(sections, symbols, isArm64)
    ensures ReadsBack(bytes, sections, symbols, isArm64)
  {
    FileReadHoldsInputs(sections, symbols, isArm64);
  }
}

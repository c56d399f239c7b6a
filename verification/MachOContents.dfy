/** What the sections and symbols given to the Mach-O builder look like in the file, field by field. */
module MachOContents {
  import opened ByteStreams
  import opened MachOFormat
  import opened MachORecords
  import opened ObjectFiles
  import opened Options

  // The constants of the Mach-O file format.
  const CPU_TYPE_X86_64: nat := 0x0100_0007
  const CPU_TYPE_ARM64: nat := 0x0100_000C
  const S_ATTR_PURE_INSTRUCTIONS: nat := 0x8000_0000
  const S_ATTR_SOME_INSTRUCTIONS: nat := 0x400
  const RELOC_UNSIGNED: nat := 0
  const RELOC_BRANCH: nat := 2
  const ARM64_RELOC_PAGE21: nat := 3
  const ARM64_RELOC_PAGEOFF12: nat := 4
  const N_SECT: nat := 0x0e
  const N_EXT: nat := 0x01

  /** Of the first n symbols, number j is the last with the name. */
  ghost predicate IsLastSymbol(symbols: seq<Symbol>, n: nat, name: Bytes, j: nat)
    requires n <= |symbols|
  {
    j < n && symbols[j].name == name && forall l: nat :: j < l < n ==> symbols[l].name != name
  }

  ghost predicate NoSymbol(symbols: seq<Symbol>, n: nat, name: Bytes)
    requires n <= |symbols|
  {
    forall j: nat :: j < n ==> symbols[j].name != name
  }

  ghost predicate IsFirstSection(sections: seq<Section>, name: Bytes, i: nat) {
    i < |sections| && sections[i].name == name && forall l: nat :: l < i ==> sections[l].name != name
  }

  ghost predicate NoSection(sections: seq<Section>, name: Bytes) {
    forall i: nat :: i < |sections| ==> sections[i].name != name
  }

  /** Where the relocation applies, whether it is relative to the instruction, the width as a power of two, its type. */
  predicate HasType(c: MachRelocation, pcRelative: bool, length: nat, kind: nat) {
    c.pcRelative == (if pcRelative then 1 else 0) && c.length == length && c.kind == kind
  }

  ghost predicate HoldsRelocation(c: MachRelocation, r: Relocation, symbols: seq<Symbol>, isArm64: bool) {
    && c.address == r.offset % Pow256(4) && c.extern_ == 1
    && (if isArm64 && r.kind == 2 then HasType(c, true, 2, ARM64_RELOC_PAGE21)
        else if isArm64 && r.kind == 3 then HasType(c, false, 2, ARM64_RELOC_PAGEOFF12)
        else if r.kind == 1 then HasType(c, true, 2, RELOC_BRANCH)
        else HasType(c, false, 3, RELOC_UNSIGNED))
    && (forall j: nat :: IsLastSymbol(symbols, |symbols|, r.symbol, j) ==> c.symbolNumber == j % 0x100_0000)
    && (NoSymbol(symbols, |symbols|, r.symbol) ==> c.symbolNumber == 0)
  }

  /** Five names have a convention of their own; all others are cut to 15 bytes. */
  predicate HoldsName(c: MachSection, name: Bytes) {
    if name == Text(".text") then c.name == Text("__text") && c.segment == Text("__TEXT")
    else if name == Text(".data") then c.name == Text("__data") && c.segment == Text("__DATA")
    else if name == Text(".bss") then c.name == Text("__bss") && c.segment == Text("__DATA")
    else if name in [Text(".rodata"), Text(".const")] then c.name == Text("__const") && c.segment == Text("__TEXT")
    else c.name == name[..if |name| < 15 then |name| else 15] && c.segment == Text("__DATA")
  }

  /** Every section's bytes are in the file, aligned to 2 to the 4th. */
  ghost predicate HoldsSection(c: MachSection, s: Section, symbols: seq<Symbol>, isArm64: bool) {
    && HoldsName(c, s.name) && c.data == s.data && c.alignment == 4
    && c.flags == (if s.name == Text(".text") then S_ATTR_PURE_INSTRUCTIONS + S_ATTR_SOME_INSTRUCTIONS else 0)
    && |c.relocations| == |s.relocations|
    && forall k: nat :: k < |s.relocations| ==>
         HoldsRelocation(c.relocations[k], s.relocations[k], symbols, isArm64)
  }

  ghost predicate HoldsSymbol(c: MachSymbol, s: Symbol, sections: seq<Section>) {
    && c.name == Text("_") + s.name && c.value == s.offset % Pow256(8)
    && c.kind == (if NoSection(sections, s.section) then 0 else N_SECT) + (if s.isGlobal then N_EXT else 0)
    && (forall i: nat :: IsFirstSection(sections, s.section, i) ==> c.section == i + 1)
    && (NoSection(sections, s.section) ==> c.section == 0)
  }

  /** Processor, sections and symbols, each in the order in which they were added. */
  ghost predicate HoldsInputs(file: MachFile, sections: seq<Section>, symbols: seq<Symbol>, isArm64: bool) {
    && file.cpu == (if isArm64 then CPU_TYPE_ARM64 else CPU_TYPE_X86_64)
    && |file.sections| == |sections| && |file.symbols| == |symbols|
    && (forall i: nat :: i < |sections| ==>
          file.sections[i].Some? && HoldsSection(file.sections[i].value, sections[i], symbols, isArm64))
    && (forall j: nat :: j < |symbols| ==>
          file.symbols[j].Some? && HoldsSymbol(file.symbols[j].value, symbols[j], sections))
  }

  // ---- What is to be read back ----

  function SectionOf(s: Section, symbols: seq<Symbol>, isArm64: bool): MachSection {
    MachSection(MappedName(s.name).0, MappedName(s.name).1, s.data, 4, RelocationsOf(s, symbols, isArm64),
                SectionFlags(s.name))
  }

  function SectionsOf(sections: seq<Section>, symbols: seq<Symbol>, isArm64: bool): (out: seq<Option<MachSection>>)
    ensures |out| == |sections|
    ensures forall i: nat :: i < |out| ==> out[i] == Some(SectionOf(sections[i], symbols, isArm64))
  {
    seq(|sections|, i requires 0 <= i < |sections| => Some(SectionOf(sections[i], symbols, isArm64)))
  }

  function SymbolsOf(sections: seq<Section>, symbols: seq<Symbol>): (out: seq<Option<MachSymbol>>)
    ensures |out| == |symbols|
    ensures forall j: nat :: j < |out| ==> out[j] == Some(SymbolOf(sections, symbols, j))
  {
    seq(|symbols|, j requires 0 <= j < |symbols| => Some(SymbolOf(sections, symbols, j)))
  }

  function FileOf(sections: seq<Section>, symbols: seq<Symbol>, isArm64: bool): MachFile {
    MachFile(Cpu(isArm64), SectionsOf(sections, symbols, isArm64), SymbolsOf(sections, symbols))
  }

  // ---- The file that is read holds the inputs ----

  lemma NameTexts()
    ensures Text(".text") == [46, 116, 101, 120, 116] && Text("__text") == [95, 95, 116, 101, 120, 116]
    ensures Text(".data") == [46, 100, 97, 116, 97] && Text("__data") == [95, 95, 100, 97, 116, 97]
    ensures Text(".bss") == [46, 98, 115, 115] && Text("__bss") == [95, 95, 98, 115, 115]
    ensures Text(".rodata") == [46, 114, 111, 100, 97, 116, 97] && Text(".const") == [46, 99, 111, 110, 115, 116]
    ensures Text("__const") == [95, 95, 99, 111, 110, 115, 116] && Text("_") == [95]
    ensures Text("__TEXT") == [95, 95, 84, 69, 88, 84] && Text("__DATA") == [95, 95, 68, 65, 84, 65]
  {
  }

  lemma NameHeld(c: MachSection, name: Bytes)
    requires c.name == MappedName(name).0 && c.segment == MappedName(name).1
    ensures HoldsName(c, name)
  {
    NameTexts();
  }

  lemma {:induction false} LastNumbered(symbols: seq<Symbol>, n: nat, name: Bytes, j: nat)
    requires n <= |symbols| && IsLastSymbol(symbols, n, name, j)
    ensures SymbolNumber(symbols, n, name) == j
  {
    if j < n - 1 { LastNumbered(symbols, n - 1, name, j); }
  }

  lemma {:induction false} MissingNumbered(symbols: seq<Symbol>, n: nat, name: Bytes)
    requires n <= |symbols| && NoSymbol(symbols, n, name)
    ensures SymbolNumber(symbols, n, name) == 0
  {
    if n > 0 { MissingNumbered(symbols, n - 1, name); }
  }

  lemma RelocationHeld(r: Relocation, symbols: seq<Symbol>, isArm64: bool)
    ensures HoldsRelocation(RelocationOf(r, symbols, isArm64), r, symbols, isArm64)
  {
    forall j: nat | IsLastSymbol(symbols, |symbols|, r.symbol, j)
      ensures SymbolNumber(symbols, |symbols|, r.symbol) == j
    {
      LastNumbered(symbols, |symbols|, r.symbol, j);
    }
    if NoSymbol(symbols, |symbols|, r.symbol) { MissingNumbered(symbols, |symbols|, r.symbol); }
  }

  lemma SectionHeld(s: Section, symbols: seq<Symbol>, isArm64: bool)
    ensures HoldsSection(SectionOf(s, symbols, isArm64), s, symbols, isArm64)
  {
    var c := SectionOf(s, symbols, isArm64);
    NameHeld(c, s.name);
    assert Text(".text") == [46, 116, 101, 120, 116];
    forall k: nat | k < |s.relocations|
      ensures HoldsRelocation(c.relocations[k], s.relocations[k], symbols, isArm64)
    {
      RelocationHeld(s.relocations[k], symbols, isArm64);
    }
  }

  lemma SymbolHeld(sections: seq<Section>, symbols: seq<Symbol>, j: nat)
    requires j < |symbols|
    ensures HoldsSymbol(SymbolOf(sections, symbols, j), symbols[j], sections)
  {
    var name := symbols[j].section;
    var k := FirstSection(sections, 0, name);
    assert Text("_") == [95];
    assert k == 0 <==> NoSection(sections, name) by {
      if k > 0 { assert sections[k - 1].name == name; }
    }
    forall i: nat | IsFirstSection(sections, name, i) ensures k == i + 1 {
      assert k > 0 && !(k - 1 < i);
    }
  }

  lemma FileHoldsInputs(sections: seq<Section>, symbols: seq<Symbol>, isArm64: bool)
    ensures HoldsInputs(FileOf(sections, symbols, isArm64), sections, symbols, isArm64)
  {
    forall i: nat | i < |sections|
      ensures HoldsSection(SectionOf(sections[i], symbols, isArm64), sections[i], symbols, isArm64)
    {
      SectionHeld(sections[i], symbols, isArm64);
    }
    forall j: nat | j < |symbols| ensures HoldsSymbol(SymbolOf(sections, symbols, j), symbols[j], sections) {
      SymbolHeld(sections, symbols, j);
    }
  }

  /** The bytes read as the file of the inputs, which holds them. */
  ghost predicate ReadsBack(bytes: Bytes, sections: seq<Section>, symbols: seq<Symbol>, isArm64: bool) {
    && ReadMachO(bytes) == Some(FileOf(sections, symbols, isArm64))
    && HoldsInputs(ReadMachO(bytes).value, sections, symbols, isArm64)
  }

  lemma FileReadsBack(bytes: Bytes, sections: seq<Section>, symbols: seq<Symbol>, isArm64: bool)
    requires ReadMachO(bytes) == Some(FileOf(sections, symbols, isArm64))
    ensures ReadsBack(bytes, sections, symbols, isArm64)
  {
    FileHoldsInputs(sections, symbols, isArm64);
  }
}

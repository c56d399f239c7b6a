/** Reading a COFF object: file header, section table, relocations, symbol table and string table, as laid out in
    the sections of those names of the Microsoft PE/COFF specification. */
module CoffFormat {
  import opened ByteStreams
  import opened ObjectFiles
  import opened Options

  datatype CoffRelocation = CoffRelocation(address: nat, symbolIndex: nat, kind: nat)

  datatype CoffSection = CoffSection(name: Bytes, virtualSize: nat, raw: Bytes, relocations: seq<CoffRelocation>,
                                     characteristics: nat)

  /** index is the number of the symbol's record; auxiliary records are counted but not listed. */
  datatype CoffSymbol = CoffSymbol(index: nat, name: Bytes, value: nat, sectionNumber: nat, kind: nat,
                                   storageClass: nat)

  datatype CoffFile = CoffFile(machine: nat, sections: seq<CoffSection>, symbols: seq<CoffSymbol>)

  // ---- Names ----

  /** The first four bytes of the string table are its size. */
  function ReadStringAt(strtab: Bytes, offset: nat): Option<Bytes> {
    if offset < 4 || offset >= |strtab| then None
    else
      match ReadString(strtab[offset..])
      case None => None
      case Some((s, _)) => Some(s)
  }

  function ParseDigits(digits: Bytes): Option<nat> {
    if digits == [] then Some(0)
    else
      var last := digits[|digits| - 1];
      match ParseDigits(digits[..|digits| - 1])
      case None => None
      case Some(n) => if 48 <= last < 58 then Some(10 * n + (last - 48)) else None
  }

  /** A short name, or a slash and the decimal offset of a long one. */
  function ReadSectionName(field: Bytes, strtab: Bytes): Option<Bytes> {
    var s := UpToNul(field);
    if s != [] && s[0] == 47 then
      (if |s| == 1 then None
       else match ParseDigits(s[1..]) case None => None case Some(offset) => ReadStringAt(strtab, offset))
    else Some(s)
  }

  /** A short name, or four zero bytes and the offset of a long one. */
  function ReadSymbolName(field: Bytes, strtab: Bytes): Option<Bytes>
    requires |field| == 8
  {
    if field[..4] == [0, 0, 0, 0] then ReadStringAt(strtab, FromLE(field[4..8])) else Some(UpToNul(field))
  }

  // ---- Records ----

  function ReadRelocations(bytes: Bytes, count: nat): seq<CoffRelocation>
    requires 10 * count <= |bytes|
  {
    if count == 0 then []
    else
      var r := bytes[10 * (count - 1)..10 * count];
      ReadRelocations(bytes, count - 1) + [CoffRelocation(FromLE(r[..4]), FromLE(r[4..8]), FromLE(r[8..10]))]
  }

  function ReadSection(bytes: Bytes, header: Bytes, strtab: Bytes): Option<CoffSection>
    requires |header| == 40
  {
    var rawSize, rawAt := FromLE(header[16..20]), FromLE(header[20..24]);
    var relocationsAt, count := FromLE(header[24..28]), FromLE(header[32..34]);
    if rawAt + rawSize > |bytes| || relocationsAt + 10 * count > |bytes| then None
    else
      match ReadSectionName(header[..8], strtab)
      case None => None
      case Some(name) =>
        Some(CoffSection(name, FromLE(header[8..12]), bytes[rawAt..rawAt + rawSize],
                         ReadRelocations(bytes[relocationsAt..relocationsAt + 10 * count], count),
                         FromLE(header[36..40])))
  }

  function ReadSections(headers: seq<Bytes>, read: Bytes -> Option<CoffSection>): Option<seq<CoffSection>> {
    if headers == [] then Some([])
    else
      match read(headers[0])
      case None => None
      case Some(first) =>
        match ReadSections(headers[1..], read)
        case None => None
        case Some(rest) => Some([first] + rest)
  }

  function ReadSymbol(r: Bytes, index: nat, strtab: Bytes): Option<CoffSymbol>
    requires |r| == 18
  {
    match ReadSymbolName(r[..8], strtab)
    case None => None
    case Some(name) => Some(CoffSymbol(index, name, FromLE(r[8..12]), FromLE(r[12..14]), FromLE(r[14..16]), r[16]))
  }

  /** The last byte of a record counts the auxiliary records behind it. */
  function ReadSymbols(records: seq<Bytes>, index: nat,
                       read: (Bytes, nat) -> Option<CoffSymbol>): Option<seq<CoffSymbol>>
    requires AllOfSize(records, 18)
    decreases |records| - index
  {
    if index >= |records| then Some([])
    else
      match read(records[index], index)
      case None => None
      case Some(symbol) =>
        match ReadSymbols(records, index + 1 + records[index][17], read)
        case None => None
        case Some(rest) => Some([symbol] + rest)
  }

  function SectionReader(bytes: Bytes, strtab: Bytes): Bytes -> Option<CoffSection> {
    (header: Bytes) => if |header| == 40 then ReadSection(bytes, header, strtab) else None
  }

  function SymbolReader(strtab: Bytes): (Bytes, nat) -> Option<CoffSymbol> {
    (r: Bytes, index: nat) => if |r| == 18 then ReadSymbol(r, index, strtab) else None
  }

  /** The tables, once the file header has told their places. */
  function ReadTables(bytes: Bytes, sectionCount: nat, tableAt: nat, symbolCount: nat, strtab: Bytes)
    : Option<(seq<CoffSection>, seq<CoffSymbol>)>
    requires 20 + 40 * sectionCount <= |bytes| && tableAt + 18 * symbolCount <= |bytes|
  {
    var headers := Split(bytes[20..20 + 40 * sectionCount], 40, sectionCount);
    var records := Split(bytes[tableAt..tableAt + 18 * symbolCount], 18, symbolCount);
    match ReadSections(headers, SectionReader(bytes, strtab))
    case None => None
    case Some(sections) =>
      match ReadSymbols(records, 0, SymbolReader(strtab))
      case None => None
      case Some(symbols) => Some((sections, symbols))
  }

  function ReadCoffAt(bytes: Bytes, machine: nat, sectionCount: nat, tableAt: nat, symbolCount: nat): Option<CoffFile> {
    var stringsAt := tableAt + 18 * symbolCount;
    if 20 + 40 * sectionCount > |bytes| || stringsAt + 4 > |bytes| then None
    else
      var strtab := bytes[stringsAt..];
      if FromLE(strtab[..4]) != |strtab| then None
      else
        FromTables(machine, ReadTables(bytes, sectionCount, tableAt, symbolCount, strtab))
  }

  function FromTables(machine: nat, tables: Option<(seq<CoffSection>, seq<CoffSymbol>)>): Option<CoffFile> {
    match tables
    case None => None
    case Some((sections, symbols)) => Some(CoffFile(machine, sections, symbols))
  }

  function ReadCoff(bytes: Bytes): Option<CoffFile> {
    if |bytes| < 20 then None
    else ReadCoffAt(bytes, FromLE(bytes[..2]), FromLE(bytes[2..4]), FromLE(bytes[8..12]), FromLE(bytes[12..16]))
  }

  // ---- Writing names ----

  /** memcpy into an eight-byte field of zeros. */
  function Field8(s: Bytes): (f: Bytes)
    ensures |f| == 8
  {
    if |s| <= 8 then s + Zeros(8 - |s|) else s[..8]
  }

  function Decimal(n: nat): (s: Bytes)
    ensures |s| > 0 && 0 !in s
  {
    if n < 10 then [48 + n] else Decimal(n / 10) + [48 + n % 10]
  }

  function SectionNameField(name: Bytes, offset: nat): (f: Bytes)
    ensures |f| == 8
  {
    if |name| <= 8 then Field8(name) else Field8([47] + Decimal(offset))
  }

  function SymbolNameField(name: Bytes, offset: nat): (f: Bytes)
    ensures |f| == 8
  {
    if |name| <= 8 then Field8(name) else LE(0, 4) + LE(offset, 4)
  }

  // ---- Names read back ----

  lemma {:induction false} ParsesDecimal(n: nat)
    ensures ParseDigits(Decimal(n)) == Some(n)
  {
    if n >= 10 {
      ParsesDecimal(n / 10);
      assert Decimal(n)[..|Decimal(n)| - 1] == Decimal(n / 10);
    } else {
      assert ParseDigits([]) == Some(0);
      assert Decimal(n)[..0] == [];
    }
  }

  lemma {:induction false} DecimalLength(n: nat, bound: nat, k: nat)
    requires k > 0 && n < bound && bound == Pow10(k)
    ensures |Decimal(n)| <= k
  {
    assert Pow10(1) == 10;
    if n >= 10 {
      DecimalLength(n / 10, Pow10(k - 1), k - 1);
    }
  }

  function Pow10(k: nat): nat {
    if k == 0 then 1 else 10 * Pow10(k - 1)
  }

  predicate Holds(strtab: Bytes, offset: nat, name: Bytes) {
    ReadStringAt(strtab, offset) == Some(name)
  }

  /** A name that its field can end: not empty, no zero byte. */
  predicate IsName(name: Bytes) {
    name != [] && 0 !in name
  }

  /** A name that is written into its field although a reader takes it for an offset. */
  predicate IsSlashName(name: Bytes) {
    name != [] && |name| <= 8 && name[0] == 47
  }

  /** The string at the offset that a slash and digits spell out. */
  function AtSpelledOffset(name: Bytes, strtab: Bytes): Option<Bytes>
    requires name != []
  {
    if |name| == 1 then None
    else match ParseDigits(name[1..]) case None => None case Some(offset) => ReadStringAt(strtab, offset)
  }

  /** What the field of a section's name is read as. */
  function NameRead(name: Bytes, strtab: Bytes): Option<Bytes> {
    if IsSlashName(name) then AtSpelledOffset(name, strtab) else Some(name)
  }

  /** The field that stands for a name: the name itself, or a way to it. */
  ghost predicate StandsFor(field: Bytes, name: Bytes, strtab: Bytes) {
    |field| == 8 && if |name| <= 8 then field == Field8(name) else ReadSectionName(field, strtab) == Some(name)
  }

  lemma FieldStandsFor(name: Bytes, offset: nat, strtab: Bytes)
    requires 0 !in name
    requires |name| > 8 ==> offset < Pow10(7) && Holds(strtab, offset, name)
    ensures StandsFor(SectionNameField(name, offset), name, strtab)
  {
    if |name| > 8 {
      var encoded := [47] + Decimal(offset);
      DecimalLength(offset, Pow10(7), 7);
      UpToNulOfPadded(encoded, 8 - |encoded|);
      ParsesDecimal(offset);
      assert encoded[1..] == Decimal(offset);
    }
  }

  /** Short names with a slash in front are read as offsets, all others as themselves. */
  lemma FieldReads(field: Bytes, name: Bytes, strtab: Bytes)
    requires 0 !in name && StandsFor(field, name, strtab)
    ensures ReadSectionName(field, strtab) == NameRead(name, strtab)
  {
    if |name| <= 8 {
      UpToNulOfPadded(name, 8 - |name|);
    }
  }

  /** A slash name reads back exactly when the string at the offset that it spells out is the name itself. */
  lemma SlashNameReads(name: Bytes, offset: nat, strtab: Bytes)
    requires IsSlashName(name) && 0 !in name
    ensures ReadSectionName(SectionNameField(name, offset), strtab) == Some(name)
            <==> |name| > 1 && ParseDigits(name[1..]).Some?
                 && ReadStringAt(strtab, ParseDigits(name[1..]).value) == Some(name)
  {
    FieldReads(SectionNameField(name, offset), name, strtab);
  }

  lemma SymbolNameReads(name: Bytes, offset: nat, strtab: Bytes)
    requires name != [] && 0 !in name
    requires |name| > 8 ==> offset < Pow256(4) && Holds(strtab, offset, name)
    ensures ReadSymbolName(SymbolNameField(name, offset), strtab) == Some(name)
  {
    var field := SymbolNameField(name, offset);
    if |name| <= 8 {
      assert field[0] == name[0] && field[..4][0] != 0;
      UpToNulOfPadded(name, 8 - |name|);
    } else {
      assert LE(0, 4) == [0, 0, 0, 0];
      assert field[..4] == LE(0, 4) && field[4..8] == LE(offset, 4);
      FromLEOfLE(offset, 4);
    }
  }

  /** Every string of one table is in the other, at the same place. */
  ghost predicate KeepsStrings(before: Bytes, after: Bytes) {
    forall offset: nat :: ReadStringAt(before, offset).Some? ==>
      ReadStringAt(after, offset) == ReadStringAt(before, offset)
  }

  lemma AppendKeepsStrings(strtab: Bytes, more: Bytes)
    ensures KeepsStrings(strtab, strtab + more)
  {
    forall offset: nat | ReadStringAt(strtab, offset).Some?
      ensures ReadStringAt(strtab + more, offset) == ReadStringAt(strtab, offset)
    {
      assert (strtab + more)[offset..] == strtab[offset..] + more;
      ReadStringIgnoresTheRest(strtab[offset..], more);
    }
  }

  lemma PatchKeepsStrings(strtab: Bytes, size: Bytes)
    requires |size| == 4 <= |strtab|
    ensures KeepsStrings(strtab, size + strtab[4..])
  {
    forall offset: nat | ReadStringAt(strtab, offset).Some?
      ensures ReadStringAt(size + strtab[4..], offset) == ReadStringAt(strtab, offset)
    {
      assert (size + strtab[4..])[offset..] == strtab[offset..];
    }
  }

  lemma KeepsStringsTwice(a: Bytes, b: Bytes, c: Bytes)
    requires KeepsStrings(a, b) && KeepsStrings(b, c)
    ensures KeepsStrings(a, c)
  {
  }

  lemma StandsForStays(field: Bytes, name: Bytes, before: Bytes, after: Bytes)
    requires KeepsStrings(before, after) && StandsFor(field, name, before)
    ensures StandsFor(field, name, after)
  {
  }

  lemma SymbolStays(r: Bytes, index: nat, before: Bytes, after: Bytes)
    requires |r| == 18 && KeepsStrings(before, after) && ReadSymbol(r, index, before).Some?
    ensures ReadSymbol(r, index, after) == ReadSymbol(r, index, before)
  {
  }

  lemma StringAdded(strtab: Bytes, name: Bytes)
    requires 0 !in name && |strtab| >= 4
    ensures Holds(strtab + name + [0], |strtab|, name)
  {
    assert (strtab + name + [0])[|strtab|..] == name + [0] + [];
    ReadsString(name, []);
  }
}

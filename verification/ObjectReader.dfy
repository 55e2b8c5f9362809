/**
 What a linker reads: the object file structure of the System V ABI, chapter 4, and the archive
 format of `ar` with a System V symbol index. The reader knows nothing of how the file was laid out.
 */
module ObjectReader {
  import opened Wrappers
  import opened Bytes
  import opened Words
  import opened ObjectLayout

  // ----- Objects -----

  /** The bytes before the first NUL. */
  function UpToNul(s: seq<byte>): (r: seq<byte>)
    ensures |r| <= |s|
  {
    if s == [] || s[0] == 0 then [] else [s[0]] + UpToNul(s[1..])
  }

  datatype Elf = Elf(wide: bool, order: Order, header: ElfHeader) {
    function Word(): Width { if wide then W64 else W32 }

    function SectionSize(): nat { if wide then 64 else 40 }

    function SymbolSize(): nat { if wide then 24 else 16 }
  }

  function DecodeHeader(wide: bool, order: Order, b: seq<byte>): ElfHeader
    requires |b| >= if wide then 64 else 52
  {
    var word := if wide then W64 else W32;
    var w := word.Size();
    ElfHeader(
      NumberAt(order, W16, b, 16), NumberAt(order, W16, b, 18), NumberAt(order, W32, b, 20),
      NumberAt(order, word, b, 24), NumberAt(order, word, b, 24 + w), NumberAt(order, word, b, 24 + 2 * w),
      NumberAt(order, W32, b, 24 + 3 * w), NumberAt(order, W16, b, 28 + 3 * w), NumberAt(order, W16, b, 30 + 3 * w),
      NumberAt(order, W16, b, 32 + 3 * w), NumberAt(order, W16, b, 34 + 3 * w), NumberAt(order, W16, b, 36 + 3 * w),
      NumberAt(order, W16, b, 38 + 3 * w))
  }

  function DecodeSection(wide: bool, order: Order, b: seq<byte>): Section
    requires |b| == if wide then 64 else 40
  {
    var word := if wide then W64 else W32;
    var w := word.Size();
    Section(
      NumberAt(order, W32, b, 0), NumberAt(order, W32, b, 4), NumberAt(order, word, b, 8),
      NumberAt(order, word, b, 8 + w), NumberAt(order, word, b, 8 + 2 * w), NumberAt(order, word, b, 8 + 3 * w),
      NumberAt(order, W32, b, 8 + 4 * w), NumberAt(order, W32, b, 12 + 4 * w),
      NumberAt(order, word, b, 16 + 4 * w), NumberAt(order, word, b, 16 + 5 * w))
  }

  function DecodeSymbol(wide: bool, order: Order, b: seq<byte>): Symbol
    requires |b| == if wide then 24 else 16
  {
    if wide then
      Symbol(
        NumberAt(order, W32, b, 0), NumberAt(order, W64, b, 8), NumberAt(order, W64, b, 16),
        NumberAt(order, W8, b, 4), NumberAt(order, W8, b, 5), NumberAt(order, W16, b, 6))
    else
      Symbol(
        NumberAt(order, W32, b, 0), NumberAt(order, W32, b, 4), NumberAt(order, W32, b, 8),
        NumberAt(order, W8, b, 12), NumberAt(order, W8, b, 13), NumberAt(order, W16, b, 14))
  }

  function ReadElf(obj: seq<byte>): Option<Elf> {
    if |obj| < 16 || obj[..4] != [0x7f, 0x45, 0x4c, 0x46] || !(1 <= obj[4] <= 2) || !(1 <= obj[5] <= 2) || obj[6] != 1
    then None
    else
      var wide, order := obj[4] == 2, if obj[5] == 2 then Big else Little;
      if |obj| < if wide then 64 else 52 then None else Some(Elf(wide, order, DecodeHeader(wide, order, obj)))
  }

  function SectionAt(obj: seq<byte>, elf: Elf, i: nat): Option<Section> {
    var at := elf.header.sectionHeaders + i * elf.header.sectionSize;
    if i >= elf.header.sectionCount || at + elf.SectionSize() > |obj| then None
    else Some(DecodeSection(elf.wide, elf.order, obj[at..at + elf.SectionSize()]))
  }

  /** The bytes a section holds. */
  function Contents(obj: seq<byte>, s: Section): Option<seq<byte>> {
    if s.offset + s.size > |obj| then None else Some(obj[s.offset..s.offset + s.size])
  }

  function StringAt(table: seq<byte>, at: nat): seq<byte> {
    if at > |table| then [] else UpToNul(table[at..])
  }

  /** The section name table. */
  function NamesOf(obj: seq<byte>, elf: Elf): Option<seq<byte>> {
    match SectionAt(obj, elf, elf.header.nameSection)
    case None => None
    case Some(names) => Contents(obj, names)
  }

  function SectionName(obj: seq<byte>, elf: Elf, i: nat): Option<seq<byte>> {
    match NamesOf(obj, elf)
    case None => None
    case Some(table) =>
      match SectionAt(obj, elf, i)
      case None => None
      case Some(s) => Some(StringAt(table, s.name))
  }

  const SYMTAB := 2

  /** The first symbol table. */
  function FindSymtab(obj: seq<byte>, elf: Elf, from: nat): Option<Section>
    decreases elf.header.sectionCount - from
  {
    if from >= elf.header.sectionCount then None
    else
      match SectionAt(obj, elf, from)
      case None => None
      case Some(s) => if s.kind == SYMTAB then Some(s) else FindSymtab(obj, elf, from + 1)
  }

  /** The first symbol of that name among the entries at `at` and later; entry 0 is undefined. */
  function FindSymbol(
    elf: Elf, entries: seq<byte>, strings: seq<byte>, entrySize: nat, at: nat, name: seq<byte>): Option<Symbol>
    decreases |entries| - at
  {
    if entrySize < elf.SymbolSize() || at + elf.SymbolSize() > |entries| then None
    else
      var s := DecodeSymbol(elf.wide, elf.order, entries[at..at + elf.SymbolSize()]);
      if StringAt(strings, s.name) == name then Some(s)
      else FindSymbol(elf, entries, strings, entrySize, at + entrySize, name)
  }

  function SymbolNamed(obj: seq<byte>, elf: Elf, name: seq<byte>): Option<Symbol> {
    match FindSymtab(obj, elf, 0)
    case None => None
    case Some(symtab) =>
      match SectionAt(obj, elf, symtab.link)
      case None => None
      case Some(strtab) =>
        match Contents(obj, symtab)
        case None => None
        case Some(entries) =>
          match Contents(obj, strtab)
          case None => None
          case Some(strings) => FindSymbol(elf, entries, strings, symtab.entrySize, symtab.entrySize, name)
  }

  /** The bytes a symbol covers. */
  function DataOf(obj: seq<byte>, elf: Elf, symbol: Symbol): Option<seq<byte>> {
    match SectionAt(obj, elf, symbol.section)
    case None => None
    case Some(s) =>
      match Contents(obj, s)
      case None => None
      case Some(data) =>
        if symbol.value + symbol.size > |data| then None
        else Some(data[symbol.value..symbol.value + symbol.size])
  }

  /** The bytes the symbol of that name covers. */
  function ReadObject(obj: seq<byte>, name: seq<byte>): Option<seq<byte>> {
    match ReadElf(obj)
    case None => None
    case Some(elf) =>
      match SymbolNamed(obj, elf, name)
      case None => None
      case Some(symbol) => DataOf(obj, elf, symbol)
  }

  // ----- Libraries -----

  function TrimSpaces(b: seq<byte>): seq<byte> {
    if b != [] && b[|b| - 1] == 0x20 then TrimSpaces(b[..|b| - 1]) else b
  }

  predicate IsDecimal(b: seq<byte>) {
    b != [] && forall i :: 0 <= i < |b| ==> 0x30 <= b[i] <= 0x39
  }

  function DecimalValue(b: seq<byte>): nat
    requires forall i :: 0 <= i < |b| ==> 0x30 <= b[i] <= 0x39
  {
    if b == [] then 0 else DecimalValue(b[..|b| - 1]) * 10 + (b[|b| - 1] - 0x30)
  }

  const MEMBER_HEADER := 60

  /** Name field and size of the member whose header is at `at`. */
  function ReadMemberHeader(file: seq<byte>, at: nat): Option<(seq<byte>, nat)> {
    if at + MEMBER_HEADER > |file| then None
    else
      var b := file[at..at + MEMBER_HEADER];
      var size := TrimSpaces(b[48..58]);
      if b[58..] != [0x60, 0x0a] || !IsDecimal(size) then None else Some((b[..16], DecimalValue(size)))
  }

  function ReadMemberAt(file: seq<byte>, at: nat): Option<seq<byte>> {
    match ReadMemberHeader(file, at)
    case None => None
    case Some(header) =>
      var from := at + MEMBER_HEADER;
      if from + header.1 > |file| then None else Some(file[from..from + header.1])
  }

  /** Which of the first `count` names of the list is `name`. */
  function IndexOfName(names: seq<byte>, count: nat, name: seq<byte>): Option<nat>
    decreases count
  {
    if count == 0 then None
    else
      var first := UpToNul(names);
      if first == name then Some(0)
      else if |first| + 1 > |names| then None
      else
        match IndexOfName(names[|first| + 1..], count - 1, name)
        case None => None
        case Some(i) => Some(i + 1)
  }

  /** The offset of the member that defines `name`, by the index. */
  function MemberDefining(index: seq<byte>, name: seq<byte>): Option<nat> {
    if |index| < 4 then None
    else
      var count := NumberAt(Big, W32, index, 0);
      if 4 + 4 * count > |index| then None
      else
        match IndexOfName(index[4 + 4 * count..], count, name)
        case None => None
        case Some(i) => if 4 + 4 * i + 4 > |index| then None else Some(NumberAt(Big, W32, index, 4 + 4 * i))
  }

  /** The member that the index of the library says defines `name`. */
  function IndexedMember(file: seq<byte>, name: seq<byte>): Option<seq<byte>> {
    if |file| < 8 || file[..8] != Magic() then None
    else
      match ReadMemberHeader(file, 8)
      case None => None
      case Some(header) =>
        if header.0 != Padded([0x2f], 16) then None
        else
          match ReadMemberAt(file, 8)
          case None => None
          case Some(index) =>
            match MemberDefining(index, name)
            case None => None
            case Some(at) => ReadMemberAt(file, at)
  }

  /** The bytes of the symbol `name` in the member that defines it. */
  function ReadLibrary(file: seq<byte>, name: seq<byte>): Option<seq<byte>> {
    match IndexedMember(file, name)
    case None => None
    case Some(obj) => ReadObject(obj, name)
  }

  // ----- Records are read back -----

  lemma SectionReads(f: Format, s: Section)
    requires s.Fits(f)
    ensures |Flatten(s.Cells(f))| == f.SectionSize()
    ensures DecodeSection(f.wide, f.order, Flatten(s.Cells(f))) == s
  {
    var cells := s.Cells(f);
    SectionLength(f, s);
    SectionOffsets(f, s);
    FieldReads(f.order, cells, 0, s.name, W32);
    FieldReads(f.order, cells, 1, s.kind, W32);
    FieldReads(f.order, cells, 2, s.flags, f.Word());
    FieldReads(f.order, cells, 3, s.address, f.Word());
    FieldReads(f.order, cells, 4, s.offset, f.Word());
    FieldReads(f.order, cells, 5, s.size, f.Word());
    FieldReads(f.order, cells, 6, s.link, W32);
    FieldReads(f.order, cells, 7, s.info, W32);
    FieldReads(f.order, cells, 8, s.alignment, f.Word());
    FieldReads(f.order, cells, 9, s.entrySize, f.Word());
  }

  lemma SymbolReads(f: Format, s: Symbol)
    requires s.Fits(f)
    ensures |Flatten(s.Cells(f))| == f.SymbolSize()
    ensures DecodeSymbol(f.wide, f.order, Flatten(s.Cells(f))) == s
  {
    var cells := s.Cells(f);
    SymbolLength(f, s);
    SymbolOffsets(f, s);
    FieldReads(f.order, cells, 0, s.name, W32);
    if f.wide {
      FieldReads(f.order, cells, 1, s.info, W8);
      FieldReads(f.order, cells, 2, s.other, W8);
      FieldReads(f.order, cells, 3, s.section, W16);
      FieldReads(f.order, cells, 4, s.value, W64);
      FieldReads(f.order, cells, 5, s.size, W64);
    } else {
      FieldReads(f.order, cells, 1, s.value, W32);
      FieldReads(f.order, cells, 2, s.size, W32);
      FieldReads(f.order, cells, 3, s.info, W8);
      FieldReads(f.order, cells, 4, s.other, W8);
      FieldReads(f.order, cells, 5, s.section, W16);
    }
  }

  lemma HeaderReads(f: Format, h: ElfHeader)
    requires h.Fits(f)
    ensures |Flatten(h.Cells(f))| == DATA
    ensures DecodeHeader(f.wide, f.order, Flatten(h.Cells(f))) == h
  {
    var cells := h.Cells(f);
    HeaderLength(f, h);
    HeaderOffsets(f, h);
    FieldReads(f.order, cells, 2, h.kind, W16);
    FieldReads(f.order, cells, 3, h.machine, W16);
    FieldReads(f.order, cells, 4, h.version, W32);
    FieldReads(f.order, cells, 5, h.entry, f.Word());
    FieldReads(f.order, cells, 6, h.programHeaders, f.Word());
    FieldReads(f.order, cells, 7, h.sectionHeaders, f.Word());
    FieldReads(f.order, cells, 8, h.flags, W32);
    FieldReads(f.order, cells, 9, h.headerSize, W16);
    FieldReads(f.order, cells, 10, h.programSize, W16);
    FieldReads(f.order, cells, 11, h.programCount, W16);
    FieldReads(f.order, cells, 12, h.sectionSize, W16);
    FieldReads(f.order, cells, 13, h.sectionCount, W16);
    FieldReads(f.order, cells, 14, h.nameSection, W16);
  }
}

/**
 The object and library headers written around the embedded archive: `Fields`, `elf_object`,
 `ar_library_header`, `ar_member_header`, `ObjectFormat::library` and `BlobWriter`
 (crates/tex-kpse/build.rs). Every offset is computed from lengths before any data is known.

 `Number` stands for the methods u8, u16, u32 and u64 of the source; its precondition is what
 `packed` demands of the 32-bit one.
 */
module ObjectLayout {
  import opened Bytes
  import opened Words

  /** Where the blob starts in the object. */
  const DATA := 64

  type Half = x: nat | x < 0x1_0000
  type Full = x: nat | x < 0x1_0000_0000

  datatype Format = Format(wide: bool, order: Order, machine: Half, flags: Full) {
    function Word(): Width { if wide then W64 else W32 }

    function HeaderSize(): Half { if wide then 64 else 52 }

    function SectionSize(): Half { if wide then 64 else 40 }

    function SymbolSize(): Half { if wide then 24 else 16 }
  }

  function Align8(offset: nat): (r: nat)
    ensures offset <= r < offset + 8 && r % 8 == 0
  {
    if offset % 8 == 0 then offset else offset + (8 - offset % 8)
  }

  function Zeros(n: nat): seq<byte> {
    Repeat<byte>(0, n)
  }

  predicate NoNul(s: seq<byte>) {
    forall i :: 0 <= i < |s| ==> s[i] != 0
  }

  // ----- Section names -----

  predicate IsName(name: seq<byte>) {
    |name| <= 25 && NoNul(name)
  }

  /** What the layout needs of the five section names. */
  predicate AreNames(names: seq<seq<byte>>) {
    |names| == 5 && forall i :: 0 <= i < |names| ==> IsName(names[i])
  }

  function SectionNames(): (names: seq<seq<byte>>)
    ensures AreNames(names)
  {
    [RodataName(), NoteName(), SymtabName(), StrtabName(), NamesName()]
  }

  function RodataName(): (name: seq<byte>)
    ensures IsName(name)
  {
    Ascii(".rodata.tex_kpse_packages")
  }

  function NoteName(): (name: seq<byte>)
    ensures IsName(name)
  {
    Ascii(".note.GNU-stack")
  }

  function SymtabName(): (name: seq<byte>)
    ensures IsName(name)
  {
    Ascii(".symtab")
  }

  function StrtabName(): (name: seq<byte>)
    ensures IsName(name)
  {
    Ascii(".strtab")
  }

  function NamesName(): (name: seq<byte>)
    ensures IsName(name)
  {
    Ascii(".shstrtab")
  }

  /** A NUL, then each name with a NUL behind it. */
  function NameTable(names: seq<seq<byte>>): (table: seq<byte>)
    ensures |table| > 0
  {
    if names == [] then [0] else NameTable(names[..|names| - 1]) + names[|names| - 1] + [0]
  }

  /** Where name `i` starts. */
  function NameOffset(names: seq<seq<byte>>, i: nat): nat
    requires i <= |names|
  {
    |NameTable(names[..i])|
  }

  function NameOffsets(names: seq<seq<byte>>): (offsets: seq<nat>)
    ensures |offsets| == |names|
    ensures forall i :: 0 <= i < |names| ==> offsets[i] == NameOffset(names, i)
  {
    seq(|names|, i requires 0 <= i < |names| => NameOffset(names, i))
  }

  lemma {:induction false} NameTableLength(names: seq<seq<byte>>)
    requires forall i :: 0 <= i < |names| ==> IsName(names[i])
    ensures |NameTable(names)| <= 1 + 26 * |names|
  {
    if names != [] {
      NameTableLength(names[..|names| - 1]);
    }
  }

  lemma NameOffsetsFit(names: seq<seq<byte>>, i: nat)
    requires AreNames(names) && i <= 5
    ensures NameOffset(names, i) <= 131
  {
    NameTableLength(names[..i]);
  }

  // ----- The plan of an object -----

  datatype Plan = Plan(dataEnd: nat, symtab: nat, strtab: nat, shstrtab: nat, tableEnd: nat, sectionHeaders: nat)

  function PlanOf(f: Format, symbol: nat, table: nat, len: nat): Plan {
    var dataEnd := DATA + len;
    var symtab := Align8(dataEnd);
    var strtab := symtab + 2 * f.SymbolSize();
    var shstrtab := strtab + symbol + 2;
    Plan(dataEnd, symtab, strtab, shstrtab, shstrtab + table, Align8(shstrtab + table))
  }

  function ObjectLength(f: Format, symbol: nat, table: nat, len: nat): nat {
    PlanOf(f, symbol, table, len).sectionHeaders + 6 * f.SectionSize()
  }

  /** The body of the symbol index: a count, an offset and the padded symbol. */
  function IndexLength(symbol: nat): nat {
    Align8(8 + symbol + 1)
  }

  const MEMBER_SIZE_LIMIT := 10_000_000_000

  /**
   The sizes fit their fields: 32-bit offsets in a 32-bit object and in the index, and ten decimal
   digits in the member header.
   */
  predicate Fits(f: Format, names: seq<seq<byte>>, symbol: nat, len: nat) {
    && PlanOf(f, symbol, |NameTable(names)|, len).sectionHeaders < f.Word().Limit()
    && ObjectLength(f, symbol, |NameTable(names)|, len) < MEMBER_SIZE_LIMIT
    && 8 + 60 + IndexLength(symbol) < 0x1_0000_0000
  }

  // ----- Records -----

  datatype Section = Section(
    name: nat, kind: nat, flags: nat, address: nat, offset: nat, size: nat, link: nat, info: nat,
    alignment: nat, entrySize: nat)
  {
    predicate Fits(f: Format) {
      && name < W32.Limit() && kind < W32.Limit() && link < W32.Limit() && info < W32.Limit()
      && flags < f.Word().Limit() && address < f.Word().Limit() && offset < f.Word().Limit()
      && size < f.Word().Limit() && alignment < f.Word().Limit() && entrySize < f.Word().Limit()
    }

    function StartCells(f: Format): (cells: seq<seq<byte>>)
      ensures |cells| == 5
    {
      [ Encode(f.order, name, W32), Encode(f.order, kind, W32), Encode(f.order, flags, f.Word()),
        Encode(f.order, address, f.Word()), Encode(f.order, offset, f.Word())]
    }

    function RestCells(f: Format): (cells: seq<seq<byte>>)
      ensures |cells| == 5
    {
      [ Encode(f.order, size, f.Word()), Encode(f.order, link, W32), Encode(f.order, info, W32),
        Encode(f.order, alignment, f.Word()), Encode(f.order, entrySize, f.Word())]
    }

    function Cells(f: Format): (cells: seq<seq<byte>>)
      ensures |cells| == 10
    {
      StartCells(f) + RestCells(f)
    }
  }

  datatype Symbol = Symbol(name: nat, value: nat, size: nat, info: nat, other: nat, section: nat) {
    predicate Fits(f: Format) {
      && name < W32.Limit() && value < f.Word().Limit() && size < f.Word().Limit()
      && info < W8.Limit() && other < W8.Limit() && section < W16.Limit()
    }

    function Cells(f: Format): (cells: seq<seq<byte>>)
      ensures |cells| == 6
    {
      if f.wide then
        [ Encode(f.order, name, W32), Encode(f.order, info, W8), Encode(f.order, other, W8),
          Encode(f.order, section, W16), Encode(f.order, value, W64), Encode(f.order, size, W64)]
      else
        [ Encode(f.order, name, W32), Encode(f.order, value, W32), Encode(f.order, size, W32),
          Encode(f.order, info, W8), Encode(f.order, other, W8), Encode(f.order, section, W16)]
    }
  }

  /** STB_GLOBAL and STT_OBJECT, STV_HIDDEN, in section 1. */
  function BlobSymbolEntry(len: nat): Symbol {
    Symbol(1, 0, len, 0x11, 2, 1)
  }

  /** The sections after the null one; names begin at `names` in a table of `table` bytes. */
  function Sections(f: Format, names: seq<nat>, table: nat, symbol: nat, len: nat): (sections: seq<Section>)
    requires |names| == 5
    ensures |sections| == 5
  {
    var p := PlanOf(f, symbol, table, len);
    [ Section(names[0], 1, 2, 0, DATA, len, 0, 0, 16, 0),
      Section(names[1], 1, 0, 0, p.dataEnd, 0, 0, 0, 1, 0),
      Section(names[2], 2, 0, 0, p.symtab, 2 * f.SymbolSize(), 4, 1, 8, f.SymbolSize()),
      Section(names[3], 3, 0, 0, p.strtab, symbol + 2, 0, 0, 1, 0),
      Section(names[4], 3, 0, 0, p.shstrtab, table, 0, 0, 1, 0)]
  }

  function Identification(f: Format): (b: seq<byte>)
    ensures |b| == 7
  {
    [0x7f, 0x45, 0x4c, 0x46, if f.wide then 2 else 1, if f.order == Big then 2 else 1, 1]
  }

  datatype ElfHeader = ElfHeader(
    kind: nat, machine: nat, version: nat, entry: nat, programHeaders: nat, sectionHeaders: nat, flags: nat,
    headerSize: nat, programSize: nat, programCount: nat, sectionSize: nat, sectionCount: nat, nameSection: nat)
  {
    predicate Fits(f: Format) {
      && kind < W16.Limit() && machine < W16.Limit() && version < W32.Limit() && flags < W32.Limit()
      && entry < f.Word().Limit() && programHeaders < f.Word().Limit() && sectionHeaders < f.Word().Limit()
      && headerSize < W16.Limit() && programSize < W16.Limit() && programCount < W16.Limit()
      && sectionSize < W16.Limit() && sectionCount < W16.Limit() && nameSection < W16.Limit()
    }

    function StartCells(f: Format): (cells: seq<seq<byte>>)
      ensures |cells| == 5
    {
      [ Identification(f), Zeros(9), Encode(f.order, kind, W16), Encode(f.order, machine, W16),
        Encode(f.order, version, W32)]
    }

    function PlaceCells(f: Format): (cells: seq<seq<byte>>)
      ensures |cells| == 5
    {
      [ Encode(f.order, entry, f.Word()), Encode(f.order, programHeaders, f.Word()),
        Encode(f.order, sectionHeaders, f.Word()), Encode(f.order, flags, W32), Encode(f.order, headerSize, W16)]
    }

    function CountCells(f: Format): (cells: seq<seq<byte>>)
      ensures |cells| == 5
    {
      [ Encode(f.order, programSize, W16), Encode(f.order, programCount, W16), Encode(f.order, sectionSize, W16),
        Encode(f.order, sectionCount, W16), Encode(f.order, nameSection, W16)]
    }

    /** The header padded to `DATA` bytes. */
    function Cells(f: Format): (cells: seq<seq<byte>>)
      ensures |cells| == 16
    {
      StartCells(f) + PlaceCells(f) + CountCells(f) + [Zeros(DATA - f.HeaderSize())]
    }
  }

  function HeaderOf(f: Format, sectionHeaders: nat): ElfHeader {
    ElfHeader(1, f.machine, 1, 0, 0, sectionHeaders, f.flags, f.HeaderSize(), 0, 0, f.SectionSize(), 6, 5)
  }

  /** What lies between the blob and the first section header that is not null. */
  function TableParts(f: Format, p: Plan, entry: seq<byte>, symbol: seq<byte>, table: seq<byte>): (parts: seq<seq<byte>>)
    requires p.dataEnd <= p.symtab && p.tableEnd <= p.sectionHeaders
    ensures |parts| == 7
  {
    [ Zeros(p.symtab - p.dataEnd), Zeros(f.SymbolSize()), entry, Flatten([[0], symbol, [0]]), table,
      Zeros(p.sectionHeaders - p.tableEnd), Zeros(f.SectionSize())]
  }

  function SectionParts(f: Format, sections: seq<Section>): (parts: seq<seq<byte>>)
    ensures |parts| == |sections|
    ensures forall i :: 0 <= i < |sections| ==> parts[i] == Flatten(sections[i].Cells(f))
  {
    seq(|sections|, i requires 0 <= i < |sections| => Flatten(sections[i].Cells(f)))
  }

  /** What follows the blob. */
  function TrailerParts(f: Format, names: seq<seq<byte>>, symbol: seq<byte>, len: nat): (parts: seq<seq<byte>>)
    requires |names| == 5
    ensures |parts| == 12
  {
    var table := NameTable(names);
    TableParts(f, PlanOf(f, |symbol|, |table|, len), Flatten(BlobSymbolEntry(len).Cells(f)), symbol, table)
    + SectionParts(f, Sections(f, NameOffsets(names), |table|, |symbol|, len))
  }

  // ----- The field writer -----

  lemma Appended(parts: seq<seq<byte>>, cells: seq<seq<byte>>, more: seq<byte>)
    ensures Flatten(parts) + Flatten(cells) + more == Flatten(parts) + Flatten(cells + [more])
  {
    FlattenAppend(cells, [more]);
    FlattenOne(more);
  }

  lemma Closed(parts: seq<seq<byte>>, cells: seq<seq<byte>>)
    ensures Flatten(parts) + Flatten(cells) == Flatten(parts + [Flatten(cells)])
  {
    FlattenAppend(parts, [Flatten(cells)]);
    FlattenOne(Flatten(cells));
  }

  class Fields {
    const order: Order
    var bytes: seq<byte>
    /** The closed parts, and the cells of the open one. */
    ghost var parts: seq<seq<byte>>
    ghost var cells: seq<seq<byte>>

    ghost predicate Valid()
      reads this
    {
      bytes == Flatten(parts) + Flatten(cells)
    }

    constructor (order: Order)
      ensures Valid() && this.order == order && parts == [] && cells == [] && bytes == []
    {
      this.order := order;
      bytes, parts, cells := [], [], [];
    }

    method Raw(more: seq<byte>)
      requires Valid()
      modifies this
      ensures Valid() && parts == old(parts) && cells == old(cells) + [more]
    {
      Appended(parts, cells, more);
      bytes := bytes + more;
      cells := cells + [more];
    }

    method Fill(count: nat)
      requires Valid()
      modifies this
      ensures Valid() && parts == old(parts) && cells == old(cells) + [Zeros(count)]
    {
      Raw(Zeros(count));
    }

    /** `name` with NULs behind it up to `width`. */
    method Name(name: seq<byte>, width: nat)
      requires Valid() && |name| <= width
      modifies this
      ensures Valid() && parts == old(parts) && cells == old(cells) + [name, Zeros(width - |name|)]
    {
      Raw(name);
      Fill(width - |name|);
    }

    method Number(value: nat, width: Width)
      requires Valid() && value < width.Limit()
      modifies this
      ensures Valid() && parts == old(parts) && cells == old(cells) + [Encode(order, value, width)]
    {
      Raw(Encode(order, value, width));
    }

    ghost method Close()
      requires Valid()
      modifies `parts, `cells
      ensures Valid() && cells == [] && parts == old(parts) + [Flatten(old(cells))]
    {
      Closed(parts, cells);
      parts, cells := parts + [Flatten(cells)], [];
    }
  }

  /** One part that is a single field. */
  method WritePart(out: Fields, part: seq<byte>)
    requires out.Valid() && out.cells == []
    modifies out
    ensures out.Valid() && out.cells == [] && out.parts == old(out.parts) + [part]
  {
    out.Raw(part);
    FlattenOne(part);
    out.Close();
  }

  method WriteSymbol(f: Format, out: Fields, s: Symbol)
    requires out.Valid() && out.cells == [] && out.order == f.order && s.Fits(f)
    modifies out
    ensures out.Valid() && out.cells == [] && out.parts == old(out.parts) + [Flatten(s.Cells(f))]
  {
    out.Number(s.name, W32);
    if f.wide {
      out.Number(s.info, W8);
      out.Number(s.other, W8);
      out.Number(s.section, W16);
      out.Number(s.value, W64);
      out.Number(s.size, W64);
    } else {
      out.Number(s.value, W32);
      out.Number(s.size, W32);
      out.Number(s.info, W8);
      out.Number(s.other, W8);
      out.Number(s.section, W16);
    }
    assert out.cells == s.Cells(f);
    out.Close();
  }

  method WriteSection(f: Format, out: Fields, s: Section)
    requires out.Valid() && out.cells == [] && out.order == f.order && s.Fits(f)
    modifies out
    ensures out.Valid() && out.cells == [] && out.parts == old(out.parts) + [Flatten(s.Cells(f))]
  {
    WriteSectionStart(f, out, s);
    WriteSectionRest(f, out, s);
    out.Close();
  }

  method WriteSectionStart(f: Format, out: Fields, s: Section)
    requires out.Valid() && out.cells == [] && out.order == f.order && s.Fits(f)
    modifies out
    ensures out.Valid() && out.parts == old(out.parts) && out.cells == s.StartCells(f)
  {
    out.Number(s.name, W32);
    out.Number(s.kind, W32);
    out.Number(s.flags, f.Word());
    out.Number(s.address, f.Word());
    out.Number(s.offset, f.Word());
  }

  method WriteSectionRest(f: Format, out: Fields, s: Section)
    requires out.Valid() && out.order == f.order && s.Fits(f)
    modifies out
    ensures out.Valid() && out.parts == old(out.parts) && out.cells == old(out.cells) + s.RestCells(f)
  {
    out.Number(s.size, f.Word());
    out.Number(s.link, W32);
    out.Number(s.info, W32);
    out.Number(s.alignment, f.Word());
    out.Number(s.entrySize, f.Word());
  }

  /** The name table and the offset of each name. */
  method BuildNameTable(names: seq<seq<byte>>) returns (table: seq<byte>, offsets: seq<nat>)
    ensures table == NameTable(names)
    ensures offsets == NameOffsets(names)
  {
    table, offsets := [0], [];
    for n := 0 to |names|
      invariant table == NameTable(names[..n])
      invariant |offsets| == n && forall i :: 0 <= i < n ==> offsets[i] == NameOffset(names, i)
    {
      assert names[..n + 1][..n] == names[..n];
      offsets := offsets + [|table|];
      table := table + names[n] + [0];
    }
    assert names[..|names|] == names;
  }

  /** Bytes before and after a blob of `len` bytes that make an object with `symbol` over exactly the blob. */
  method ElfObject(f: Format, names: seq<seq<byte>>, symbol: seq<byte>, len: nat)
    returns (header: seq<byte>, trailer: seq<byte>)
    requires AreNames(names) && PlanOf(f, |symbol|, |NameTable(names)|, len).sectionHeaders < f.Word().Limit()
    ensures header == ObjectHeader(f, names, symbol, len)
    ensures trailer == Flatten(TrailerParts(f, names, symbol, len))
  {
    var table, offsets := BuildNameTable(names);
    NameTableLength(names);
    var p := PlanOf(f, |symbol|, |table|, len);
    header := WriteHeader(f, HeaderOf(f, p.sectionHeaders));
    trailer := WriteTrailer(f, table, offsets, symbol, len, names);
  }

  method WriteHeader(f: Format, h: ElfHeader) returns (header: seq<byte>)
    requires h.Fits(f)
    ensures header == Flatten(h.Cells(f))
  {
    var out := new Fields(f.order);
    WriteHeaderStart(f, out, h);
    WriteHeaderPlaces(f, out, h);
    WriteHeaderCounts(f, out, h);
    ghost var cells := h.Cells(f);
    assert out.cells == cells[..15];
    HeaderLength(f, h);
    out.Fill(DATA - |out.bytes|);
    assert cells[..15] + [cells[15]] == cells;
    header := out.bytes;
  }

  method WriteHeaderStart(f: Format, out: Fields, h: ElfHeader)
    requires out.Valid() && out.cells == [] && out.order == f.order && h.Fits(f)
    modifies out
    ensures out.Valid() && out.parts == old(out.parts) && out.cells == h.StartCells(f)
  {
    out.Raw(Identification(f));
    out.Fill(9);
    out.Number(h.kind, W16);
    out.Number(h.machine, W16);
    out.Number(h.version, W32);
  }

  method WriteHeaderPlaces(f: Format, out: Fields, h: ElfHeader)
    requires out.Valid() && out.order == f.order && h.Fits(f)
    modifies out
    ensures out.Valid() && out.parts == old(out.parts) && out.cells == old(out.cells) + h.PlaceCells(f)
  {
    out.Number(h.entry, f.Word());
    out.Number(h.programHeaders, f.Word());
    out.Number(h.sectionHeaders, f.Word());
    out.Number(h.flags, W32);
    out.Number(h.headerSize, W16);
  }

  method WriteHeaderCounts(f: Format, out: Fields, h: ElfHeader)
    requires out.Valid() && out.order == f.order && h.Fits(f)
    modifies out
    ensures out.Valid() && out.parts == old(out.parts) && out.cells == old(out.cells) + h.CountCells(f)
  {
    out.Number(h.programSize, W16);
    out.Number(h.programCount, W16);
    out.Number(h.sectionSize, W16);
    out.Number(h.sectionCount, W16);
    out.Number(h.nameSection, W16);
  }

  lemma HeaderLength(f: Format, h: ElfHeader)
    ensures |Flatten(h.Cells(f)[..15])| == f.HeaderSize() && |Flatten(h.Cells(f))| == DATA
  {
    var cells := h.Cells(f);
    HeaderOffsets(f, h);
    OffsetPrefix(cells, 15, 15);
    FlattenLength(cells[..15]);
    FlattenLength(cells);
  }

  /** Where each field of the ELF header lies, by section "ELF Header" of the System V ABI, chapter 4. */
  lemma HeaderOffsets(f: Format, h: ElfHeader)
    ensures var cells, w := h.Cells(f), f.Word().Size();
            && Offset(cells, 2) == 16 && Offset(cells, 3) == 18 && Offset(cells, 4) == 20
            && Offset(cells, 5) == 24 && Offset(cells, 6) == 24 + w && Offset(cells, 7) == 24 + 2 * w
            && Offset(cells, 8) == 24 + 3 * w && Offset(cells, 9) == 28 + 3 * w && Offset(cells, 10) == 30 + 3 * w
            && Offset(cells, 11) == 32 + 3 * w && Offset(cells, 12) == 34 + 3 * w && Offset(cells, 13) == 36 + 3 * w
            && Offset(cells, 14) == 38 + 3 * w && Offset(cells, 15) == 40 + 3 * w == f.HeaderSize()
            && Offset(cells, 16) == DATA
  {
    var cells, w := h.Cells(f), f.Word().Size();
    assert Offset(cells, 1) == 7;
    assert Offset(cells, 2) == 16;
    assert Offset(cells, 3) == 18;
    assert Offset(cells, 4) == 20;
    assert Offset(cells, 5) == 24;
    assert Offset(cells, 6) == 24 + w;
    assert Offset(cells, 7) == 24 + 2 * w;
    assert Offset(cells, 8) == 24 + 3 * w;
    assert Offset(cells, 9) == 28 + 3 * w;
    assert Offset(cells, 10) == 30 + 3 * w;
    assert Offset(cells, 11) == 32 + 3 * w;
    assert Offset(cells, 12) == 34 + 3 * w;
    assert Offset(cells, 13) == 36 + 3 * w;
    assert Offset(cells, 14) == 38 + 3 * w;
    assert Offset(cells, 15) == 40 + 3 * w;
  }

  method WriteStrings(out: Fields, symbol: seq<byte>)
    requires out.Valid() && out.cells == []
    modifies out
    ensures out.Valid() && out.cells == [] && out.parts == old(out.parts) + [Flatten([[0], symbol, [0]])]
  {
    out.Raw([0]);
    out.Raw(symbol);
    out.Raw([0]);
    assert out.cells == [[0], symbol, [0]];
    out.Close();
  }

  lemma SectionFits(f: Format, names: seq<nat>, table: nat, symbol: nat, len: nat, n: nat)
    requires |names| == 5 && n < 5 && names[n] < W32.Limit()
    requires PlanOf(f, symbol, table, len).sectionHeaders < f.Word().Limit()
    ensures Sections(f, names, table, symbol, len)[n].Fits(f)
  {
  }

  method WriteTrailer(
    f: Format, table: seq<byte>, offsets: seq<nat>, symbol: seq<byte>, len: nat, ghost names: seq<seq<byte>>)
    returns (trailer: seq<byte>)
    requires AreNames(names)
    requires table == NameTable(names) && offsets == NameOffsets(names)
    requires PlanOf(f, |symbol|, |table|, len).sectionHeaders < f.Word().Limit()
    ensures trailer == Flatten(TrailerParts(f, names, symbol, len))
  {
    var p := PlanOf(f, |symbol|, |table|, len);
    var out := new Fields(f.order);
    WriteTables(f, out, p, BlobSymbolEntry(len), symbol, table);
    var s := Sections(f, offsets, |table|, |symbol|, len);
    forall n | 0 <= n < 5 ensures s[n].Fits(f) {
      NameOffsetsFit(names, n);
      SectionFits(f, offsets, |table|, |symbol|, len, n);
    }
    WriteSections(f, out, s);
    trailer := out.bytes;
  }

  method WriteSections(f: Format, out: Fields, s: seq<Section>)
    requires out.Valid() && out.cells == [] && out.order == f.order
    requires forall n :: 0 <= n < |s| ==> s[n].Fits(f)
    modifies out
    ensures out.Valid() && out.cells == [] && out.parts == old(out.parts) + SectionParts(f, s)
  {
    ghost var parts := SectionParts(f, s);
    for n := 0 to |s|
      invariant out.Valid() && out.cells == []
      invariant out.parts == old(out.parts) + parts[..n]
    {
      WriteSection(f, out, s[n]);
      NextPart(old(out.parts), parts, n);
    }
    assert parts[..|s|] == parts;
  }

  lemma NextPart(before: seq<seq<byte>>, parts: seq<seq<byte>>, n: nat)
    requires n < |parts|
    ensures before + parts[..n] + [parts[n]] == before + parts[..n + 1]
  {
  }

  method WriteTables(f: Format, out: Fields, p: Plan, entry: Symbol, symbol: seq<byte>, table: seq<byte>)
    requires out.Valid() && out.cells == [] && out.parts == [] && out.order == f.order && entry.Fits(f)
    requires p.dataEnd <= p.symtab && p.tableEnd <= p.sectionHeaders
    modifies out
    ensures out.Valid() && out.cells == [] && out.parts == TableParts(f, p, Flatten(entry.Cells(f)), symbol, table)
  {
    WritePart(out, Zeros(p.symtab - p.dataEnd));
    WritePart(out, Zeros(f.SymbolSize()));
    WriteSymbol(f, out, entry);
    WriteStrings(out, symbol);
    assert out.parts == TableParts(f, p, Flatten(entry.Cells(f)), symbol, table)[..4];
    WritePart(out, table);
    WritePart(out, Zeros(p.sectionHeaders - p.tableEnd));
    WritePart(out, Zeros(f.SectionSize()));
  }

  // ----- The library -----

  /** `text` with spaces behind it up to `width`, longer text uncut. */
  function Padded(text: seq<byte>, width: nat): (field: seq<byte>)
    ensures |field| == if |text| < width then width else |text|
  {
    text + Repeat<byte>(0x20, if |text| < width then width - |text| else 0)
  }

  function Magic(): (b: seq<byte>)
    ensures |b| == 8
  {
    [0x21, 0x3c, 0x61, 0x72, 0x63, 0x68, 0x3e, 0x0a]
  }

  function MemberName(): (name: seq<byte>)
    ensures |name| == 11
  {
    Ascii("packages.o/")
  }

  /** Name, three zeros, mode 644, size and terminator of a member. */
  function MemberHeaderCells(name: seq<byte>, size: nat): (cells: seq<seq<byte>>)
    ensures |cells| == 7
  {
    [ Padded(name, 16), Padded([0x30], 12), Padded([0x30], 6), Padded([0x30], 6), Padded([0x36, 0x34, 0x34], 8),
      Padded(NumeralBytes(size), 10), [0x60, 0x0a]]
  }

  function MemberHeader(name: seq<byte>, size: nat): seq<byte> {
    Flatten(MemberHeaderCells(name, size))
  }

  /** One symbol, the offset of its member, and its padded name. */
  function IndexCells(symbol: seq<byte>, member: nat): seq<seq<byte>> {
    [Encode(Big, 1, W32), Encode(Big, member, W32), symbol, Zeros(IndexLength(|symbol|) - 8 - |symbol|)]
  }

  function LibraryParts(symbol: seq<byte>, objectLength: nat): (parts: seq<seq<byte>>)
    ensures |parts| == 4
  {
    var index := IndexLength(|symbol|);
    [ Magic(), MemberHeader([0x2f], index), Flatten(IndexCells(symbol, 8 + 60 + index)),
      MemberHeader(MemberName(), objectLength)]
  }

  method ArMemberHeader(library: Fields, name: seq<byte>, size: nat)
    requires library.Valid() && library.cells == []
    modifies library
    ensures library.Valid() && library.cells == []
    ensures library.parts == old(library.parts) + [MemberHeader(name, size)]
  {
    WritePart(library, MemberHeader(name, size));
  }

  method ArLibraryHeader(symbol: seq<byte>, objectLength: nat) returns (header: seq<byte>)
    requires 8 + 60 + IndexLength(|symbol|) < W32.Limit()
    ensures header == Flatten(LibraryParts(symbol, objectLength))
  {
    var index := IndexLength(|symbol|);
    var member := 8 + 60 + index;
    var library := new Fields(Big);
    WritePart(library, Magic());
    ArMemberHeader(library, [0x2f], index);
    library.Number(1, W32);
    library.Number(member, W32);
    library.Name(symbol, index - 8);
    assert library.cells == IndexCells(symbol, member);
    library.Close();
    ArMemberHeader(library, MemberName(), objectLength);
    assert library.parts == LibraryParts(symbol, objectLength);
    header := library.bytes;
  }

  function ObjectLengthOf(f: Format, names: seq<seq<byte>>, symbol: seq<byte>, len: nat): nat {
    ObjectLength(f, |symbol|, |NameTable(names)|, len)
  }

  function ObjectHeader(f: Format, names: seq<seq<byte>>, symbol: seq<byte>, len: nat): seq<byte> {
    Flatten(HeaderOf(f, PlanOf(f, |symbol|, |NameTable(names)|, len).sectionHeaders).Cells(f))
  }

  function LibraryHeader(f: Format, names: seq<seq<byte>>, symbol: seq<byte>, len: nat): seq<byte> {
    Flatten(LibraryParts(symbol, ObjectLengthOf(f, names, symbol, len))) + ObjectHeader(f, names, symbol, len)
  }

  /** The object's trailer, and a newline if the object has an odd length. */
  function LibraryTrailer(f: Format, names: seq<seq<byte>>, symbol: seq<byte>, len: nat): seq<byte>
    requires |names| == 5
  {
    Flatten(TrailerParts(f, names, symbol, len))
    + if ObjectLengthOf(f, names, symbol, len) % 2 == 1 then [0x0a] else []
  }

  method Library(f: Format, names: seq<seq<byte>>, symbol: seq<byte>, len: nat) returns (header: seq<byte>, trailer: seq<byte>)
    requires AreNames(names) && Fits(f, names, |symbol|, len)
    ensures header == LibraryHeader(f, names, symbol, len) && trailer == LibraryTrailer(f, names, symbol, len)
  {
    var objectHeader, objectTrailer := ElfObject(f, names, symbol, len);
    ObjectLengthExact(f, names, symbol, len);
    var objectLength := |objectHeader| + len + |objectTrailer|;
    header := ArLibraryHeader(symbol, objectLength);
    header := header + objectHeader;
    trailer := objectTrailer;
    if objectLength % 2 == 1 {
      trailer := trailer + [0x0a];
    }
  }

  lemma SectionLength(f: Format, s: Section)
    ensures |Flatten(s.Cells(f))| == f.SectionSize()
  {
    SectionOffsets(f, s);
    FlattenLength(s.Cells(f));
  }

  /** Where each field of a section header lies, by the System V ABI, chapter 4. */
  lemma SectionOffsets(f: Format, s: Section)
    ensures var cells, w := s.Cells(f), f.Word().Size();
            && Offset(cells, 1) == 4 && Offset(cells, 2) == 8 && Offset(cells, 3) == 8 + w
            && Offset(cells, 4) == 8 + 2 * w && Offset(cells, 5) == 8 + 3 * w && Offset(cells, 6) == 8 + 4 * w
            && Offset(cells, 7) == 12 + 4 * w && Offset(cells, 8) == 16 + 4 * w && Offset(cells, 9) == 16 + 5 * w
            && Offset(cells, 10) == 16 + 6 * w == f.SectionSize()
  {
    var cells, w := s.Cells(f), f.Word().Size();
    assert Offset(cells, 1) == 4;
    assert Offset(cells, 2) == 8;
    assert Offset(cells, 3) == 8 + w;
    assert Offset(cells, 4) == 8 + 2 * w;
    assert Offset(cells, 5) == 8 + 3 * w;
    assert Offset(cells, 6) == 8 + 4 * w;
    assert Offset(cells, 7) == 12 + 4 * w;
    assert Offset(cells, 8) == 16 + 4 * w;
    assert Offset(cells, 9) == 16 + 5 * w;
  }

  /** Where each field of a symbol lies; 64-bit and 32-bit objects order them differently. */
  lemma SymbolOffsets(f: Format, s: Symbol)
    ensures var cells := s.Cells(f);
            && Offset(cells, 1) == 4
            && (if f.wide then
                  && Offset(cells, 2) == 5 && Offset(cells, 3) == 6 && Offset(cells, 4) == 8 && Offset(cells, 5) == 16
                else
                  && Offset(cells, 2) == 8 && Offset(cells, 3) == 12 && Offset(cells, 4) == 13
                  && Offset(cells, 5) == 14)
            && Offset(cells, 6) == f.SymbolSize()
  {
    var cells := s.Cells(f);
    assert Offset(cells, 1) == 4;
    assert Offset(cells, 2) == if f.wide then 5 else 8;
    assert Offset(cells, 3) == if f.wide then 6 else 12;
    assert Offset(cells, 4) == if f.wide then 8 else 13;
    assert Offset(cells, 5) == if f.wide then 16 else 14;
  }

  lemma SymbolLength(f: Format, s: Symbol)
    ensures |Flatten(s.Cells(f))| == f.SymbolSize()
  {
    SymbolOffsets(f, s);
    FlattenLength(s.Cells(f));
  }

  lemma StringsLength(symbol: seq<byte>)
    ensures Flatten([[0], symbol, [0]]) == [0] + (symbol + [0])
  {
    FlattenAppend([[0]], [symbol, [0]]);
    FlattenAppend([symbol], [[0]]);
    FlattenOne<byte>([0]);
    FlattenOne(symbol);
    assert [[0], symbol, [0]] == [[0]] + [symbol, [0]];
    assert [symbol, [0]] == [symbol] + [[0]];
  }

  /** Where each table lies behind the blob. */
  lemma TableOffsets(f: Format, p: Plan, entry: seq<byte>, symbol: seq<byte>, table: seq<byte>, len: nat)
    requires |entry| == f.SymbolSize() && p == PlanOf(f, |symbol|, |table|, len)
    ensures var parts := TableParts(f, p, entry, symbol, table);
            && Offset(parts, 1) == p.symtab - p.dataEnd
            && Offset(parts, 2) == p.symtab - p.dataEnd + f.SymbolSize()
            && Offset(parts, 3) == p.strtab - p.dataEnd
            && Offset(parts, 4) == p.shstrtab - p.dataEnd
            && Offset(parts, 6) == p.sectionHeaders - p.dataEnd
            && Offset(parts, 7) == p.sectionHeaders - p.dataEnd + f.SectionSize()
  {
    var parts := TableParts(f, p, entry, symbol, table);
    StringsLength(symbol);
    assert Offset(parts, 1) == p.symtab - p.dataEnd;
    assert Offset(parts, 2) == p.symtab - p.dataEnd + f.SymbolSize();
    assert Offset(parts, 3) == p.strtab - p.dataEnd;
    assert Offset(parts, 4) == p.shstrtab - p.dataEnd;
    assert Offset(parts, 5) == p.tableEnd - p.dataEnd;
    assert Offset(parts, 6) == p.sectionHeaders - p.dataEnd;
  }

  lemma SectionPartOffset(f: Format, s: seq<Section>, i: nat)
    requires i <= |s|
    ensures Offset(SectionParts(f, s), i) == i * f.SectionSize()
  {
    var parts := SectionParts(f, s);
    forall k | 0 <= k < |parts| ensures |parts[k]| == f.SectionSize() {
      SectionLength(f, s[k]);
    }
    EvenOffset(parts, f.SectionSize(), i);
  }

  lemma ObjectHeaderLength(f: Format, names: seq<seq<byte>>, symbol: seq<byte>, len: nat)
    ensures |ObjectHeader(f, names, symbol, len)| == DATA
  {
    HeaderLength(f, HeaderOf(f, PlanOf(f, |symbol|, |NameTable(names)|, len).sectionHeaders));
  }

  /** The length computed beforehand is the length of what is written. */
  lemma ObjectLengthExact(f: Format, names: seq<seq<byte>>, symbol: seq<byte>, len: nat)
    requires |names| == 5
    ensures |ObjectHeader(f, names, symbol, len)| == DATA
    ensures DATA + len + |Flatten(TrailerParts(f, names, symbol, len))| == ObjectLengthOf(f, names, symbol, len)
  {
    var table := NameTable(names);
    var p := PlanOf(f, |symbol|, |table|, len);
    var s := Sections(f, NameOffsets(names), |table|, |symbol|, len);
    var entry := Flatten(BlobSymbolEntry(len).Cells(f));
    var tables := TableParts(f, p, entry, symbol, table);
    HeaderLength(f, HeaderOf(f, p.sectionHeaders));
    SymbolLength(f, BlobSymbolEntry(len));
    TableOffsets(f, p, entry, symbol, table, len);
    FlattenLength(tables);
    SectionPartOffset(f, s, 5);
    FlattenLength(SectionParts(f, s));
    FlattenAppend(tables, SectionParts(f, s));
  }
}

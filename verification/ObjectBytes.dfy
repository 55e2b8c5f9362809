/**
 The fields and bytes of the object and its library (`elf_object`, `ar_library_header`, crates/tex-kpse/build.rs), as
 the reader of objects finds them: the numbers of the System V ABI, chapter 4, and the columns of `ar`.
 */
module ObjectBytes {
  import opened Wrappers
  import opened Bytes
  import opened Words
  import opened ObjectLayout
  import opened ObjectReader
  import opened ObjectRoundTrip
  import opened LibraryRoundTrip

  // ----- Numbers -----

  lemma DecodeOne(order: Order, x: byte)
    ensures Decode(order, [x]) == x
  {
    assert [x][1..] == [] && [x][..0] == [];
    assert LittleValue([x]) == x + 256 * LittleValue([]) && BigValue([x]) == 256 * BigValue([]) + x;
  }

  /** The low byte comes first in one order and last in the other. */
  lemma DecodeTwo(order: Order, a: byte, b: byte)
    ensures Decode(order, [a, b]) == if order == Little then a + 256 * b else 256 * a + b
  {
    assert [a, b][1..] == [b] && [a, b][..1] == [a];
    DecodeOne(order, a);
    DecodeOne(order, b);
  }

  lemma Shifted(low: nat, p: nat, v: nat)
    ensures 256 * (low + p * v) == 256 * low + 256 * p * v
  {
  }

  lemma {:induction false} LittleJoin(a: seq<byte>, b: seq<byte>)
    ensures LittleValue(a + b) == LittleValue(a) + Power(256, |a|) * LittleValue(b)
  {
    if a == [] {
      assert a + b == b && Power(256, 0) == 1;
    } else {
      LittleJoin(a[1..], b);
      assert (a + b)[1..] == a[1..] + b;
      Shifted(LittleValue(a[1..]), Power(256, |a| - 1), LittleValue(b));
      assert LittleValue(a + b) == a[0] + 256 * LittleValue(a[1..] + b);
      assert Power(256, |a|) == 256 * Power(256, |a| - 1);
    }
  }

  lemma {:induction false} BigJoin(a: seq<byte>, b: seq<byte>)
    ensures BigValue(a + b) == Power(256, |b|) * BigValue(a) + BigValue(b)
    decreases |b|
  {
    if b == [] {
      assert a + b == a && Power(256, 0) == 1;
    } else {
      var front := b[..|b| - 1];
      BigJoin(a, front);
      assert (a + b)[..|a + b| - 1] == a + front;
      Shifted(BigValue(front), Power(256, |front|), BigValue(a));
      assert BigValue(a + b) == 256 * BigValue(a + front) + b[|b| - 1];
      assert Power(256, |b|) == 256 * Power(256, |front|);
    }
  }

  /** A number is its two halves in the order of its bytes, down to single bytes. */
  lemma DecodeJoin(order: Order, a: seq<byte>, b: seq<byte>)
    ensures Decode(order, a + b) == if order == Little then Decode(order, a) + Power(256, |a|) * Decode(order, b)
                                    else Power(256, |b|) * Decode(order, a) + Decode(order, b)
  {
    LittleJoin(a, b);
    BigJoin(a, b);
  }

  // ----- The object -----

  /** The header of a relocatable object with six sections, the last one their names. */
  predicate IsHeader(f: Format, h: ElfHeader) {
    && h.kind == 1 && h.machine == f.machine && h.version == 1 && h.entry == 0 && h.flags == f.flags
    && h.programHeaders == 0 && h.programSize == 0 && h.programCount == 0
    && h.headerSize == (if f.wide then 64 else 52) && h.sectionSize == (if f.wide then 64 else 40)
    && h.sectionCount == 6 && h.nameSection == 5
  }

  /** A reader finds such a header, of the class and byte order asked for. */
  lemma HeaderFields(f: Format, names: seq<seq<byte>>, symbol: seq<byte>, blob: seq<byte>)
    requires AreNames(names) && Fits(f, names, |symbol|, |blob|)
    ensures var elf := ReadElf(ObjectOf(f, names, symbol, blob));
            && elf == Some(ElfFor(f, names, symbol, |blob|))
            && elf.value.wide == f.wide && elf.value.order == f.order && IsHeader(f, elf.value.header)
  {
    RecordsFit(f, names, symbol, |blob|);
    var rest := ObjectSplit(f, names, symbol, blob);
    ElfReads(f, HeaderFor(f, names, symbol, |blob|), rest);
  }

  /** Data in memory, read only, at an address that is a multiple of 16. */
  predicate IsData(s: Section) {
    s.kind == 1 && s.flags == 2 && s.address == 0 && s.link == 0 && s.info == 0 && s.alignment == 16 && s.entrySize == 0
  }

  /** The mark that the stack needs no execution: data, without any bytes and not in memory. */
  predicate IsNote(s: Section) {
    s.kind == 1 && s.flags == 0 && s.address == 0 && s.size == 0 && s.link == 0 && s.info == 0 && s.alignment == 1
    && s.entrySize == 0
  }

  /** Two symbols, the first of them local, with names in section 4. */
  predicate IsSymbolTable(f: Format, s: Section) {
    && s.kind == 2 && s.flags == 0 && s.address == 0 && s.link == 4 && s.info == 1 && s.alignment == 8
    && s.entrySize == (if f.wide then 24 else 16) && s.size == 2 * s.entrySize
  }

  predicate IsStrings(s: Section) {
    s.kind == 3 && s.flags == 0 && s.address == 0 && s.link == 0 && s.info == 0 && s.alignment == 1 && s.entrySize == 0
  }

  /** The sections found by a reader: the blob, the note, the symbols, their names and those of the sections. */
  ghost predicate HasSections(f: Format, obj: seq<byte>, elf: Elf, symbol: seq<byte>, blob: seq<byte>) {
    && (forall i :: 1 <= i <= 5 ==> SectionAt(obj, elf, i).Some?)
    && IsData(SectionAt(obj, elf, 1).value) && IsNote(SectionAt(obj, elf, 2).value)
    && IsSymbolTable(f, SectionAt(obj, elf, 3).value)
    && IsStrings(SectionAt(obj, elf, 4).value) && IsStrings(SectionAt(obj, elf, 5).value)
    && Contents(obj, SectionAt(obj, elf, 1).value) == Some(blob)
    && Contents(obj, SectionAt(obj, elf, 4).value) == Some([0] + (symbol + [0]))
  }

  lemma FoundSections(f: Format, obj: seq<byte>, elf: Elf, s: seq<Section>, symbol: seq<byte>, blob: seq<byte>)
    requires |s| == 5 && Found(obj, elf, s)
    requires IsData(s[0]) && IsNote(s[1]) && IsSymbolTable(f, s[2]) && IsStrings(s[3]) && IsStrings(s[4])
    requires LiesAt(obj, s[0].offset, blob) && s[0].size == |blob|
    requires LiesAt(obj, s[3].offset, [0] + (symbol + [0])) && s[3].size == |symbol| + 2
    ensures HasSections(f, obj, elf, symbol, blob)
  {
    FoundAt(obj, elf, s);
    ContentsLie(obj, s[0], blob);
    ContentsLie(obj, s[3], [0] + (symbol + [0]));
  }

  /** A reader finds these sections, and the data are the blob. */
  lemma SectionFields(f: Format, names: seq<seq<byte>>, symbol: seq<byte>, blob: seq<byte>)
    requires AreNames(names) && Fits(f, names, |symbol|, |blob|)
    ensures HasSections(f, ObjectOf(f, names, symbol, blob), ElfFor(f, names, symbol, |blob|), symbol, blob)
  {
    var obj, elf := ObjectOf(f, names, symbol, blob), ElfFor(f, names, symbol, |blob|);
    ObjectFound(f, names, symbol, blob);
    ObjectSound(f, names, symbol, blob);
    SectionKinds(f, names, symbol, |blob|);
    FoundSections(f, obj, elf, SectionsFor(f, names, symbol, |blob|), symbol, blob);
  }

  lemma SectionKinds(f: Format, names: seq<seq<byte>>, symbol: seq<byte>, len: nat)
    requires |names| == 5
    ensures var s := SectionsFor(f, names, symbol, len);
            IsData(s[0]) && IsNote(s[1]) && IsSymbolTable(f, s[2]) && IsStrings(s[3]) && IsStrings(s[4])
  {
  }

  /** A hidden global object at the start of section 1, as long as the blob. */
  predicate IsBlobSymbol(s: Symbol, len: nat) {
    s.info == 0x11 && s.other == 2 && s.section == 1 && s.value == 0 && s.size == len
  }

  /** A reader finds such a symbol under its name; the one before it is all zeros. */
  lemma SymbolFields(f: Format, names: seq<seq<byte>>, symbol: seq<byte>, blob: seq<byte>)
    requires AreNames(names) && Fits(f, names, |symbol|, |blob|) && NoNul(symbol)
    ensures var obj, elf := ObjectOf(f, names, symbol, blob), ElfFor(f, names, symbol, |blob|);
            && SymbolNamed(obj, elf, symbol).Some? && IsBlobSymbol(SymbolNamed(obj, elf, symbol).value, |blob|)
            && SectionAt(obj, elf, 3).Some?
            && var at := SectionAt(obj, elf, 3).value.offset;
               LiesAt(obj, at, Zeros(if f.wide then 24 else 16))
  {
    var obj, elf := ObjectOf(f, names, symbol, blob), ElfFor(f, names, symbol, |blob|);
    var s, entry := SectionsFor(f, names, symbol, |blob|), BlobSymbolEntry(|blob|);
    RecordsFit(f, names, symbol, |blob|);
    ObjectFound(f, names, symbol, blob);
    ObjectSound(f, names, symbol, blob);
    SymbolNamedReads(f, HeaderFor(f, names, symbol, |blob|), entry, s, symbol, blob, obj);
    FoundAt(obj, elf, s);
    LiesFront(obj, s[2].offset, Zeros(f.SymbolSize()), Flatten(entry.Cells(f)));
  }

  lemma LiesFront(s: seq<byte>, at: nat, a: seq<byte>, b: seq<byte>)
    requires LiesAt(s, at, a + b)
    ensures LiesAt(s, at, a)
  {
    assert s[at..at + |a|] == s[at..at + |a + b|][..|a|];
  }

  /** The first section header is all zeros. */
  lemma NullSection(f: Format, names: seq<seq<byte>>, symbol: seq<byte>, blob: seq<byte>)
    requires AreNames(names) && Fits(f, names, |symbol|, |blob|)
    ensures LiesAt(ObjectOf(f, names, symbol, blob), HeaderFor(f, names, symbol, |blob|).sectionHeaders,
              Zeros(if f.wide then 64 else 40))
  {
    ObjectPlanned(f, names, symbol, blob);
  }

  // ----- The library -----

  /** `text` stands at `at` with spaces behind it up to `width`. */
  predicate Column(file: seq<byte>, at: nat, width: nat, text: string) {
    at + width <= |file| && |text| <= width
    && forall i :: 0 <= i < width ==> file[at + i] == if i < |text| then text[i] as int else 0x20
  }

  /** The header of a member: name, three zeros, mode, size and end of line. */
  predicate MemberText(file: seq<byte>, at: nat, name: string, size: nat) {
    && Column(file, at, 16, name) && Column(file, at + 16, 12, "0") && Column(file, at + 28, 6, "0")
    && Column(file, at + 34, 6, "0") && Column(file, at + 40, 8, "644") && Column(file, at + 48, 10, Numeral(size))
    && Column(file, at + 58, 2, "`\n")
  }

  lemma PaddedColumn(file: seq<byte>, at: nat, text: seq<byte>, name: string, width: nat)
    requires LiesAt(file, at, Padded(text, width)) && |text| == |name| <= width
    requires forall i :: 0 <= i < |text| ==> text[i] == name[i] as int
    ensures Column(file, at, width, name)
  {
    var field := Padded(text, width);
    forall i | 0 <= i < width ensures file[at + i] == if i < |name| then name[i] as int else 0x20 {
      assert file[at + i] == file[at..at + |field|][i];
    }
  }

  lemma PaddedFull(text: seq<byte>)
    ensures Padded(text, |text|) == text
  {
    assert text + Repeat<byte>(0x20, 0) == text;
  }

  lemma LiesWithin<T>(file: seq<T>, at: nat, whole: seq<T>, from: nat, part: seq<T>)
    requires LiesAt(file, at, whole) && LiesAt(whole, from, part)
    ensures LiesAt(file, at + from, part)
  {
    var slice := file[at + from..at + from + |part|];
    forall i | 0 <= i < |part| ensures slice[i] == part[i] {
      assert part[i] == whole[from..from + |part|][i] == whole[from + i];
      assert whole[from + i] == file[at..at + |whole|][from + i];
    }
  }

  lemma CellWithin(file: seq<byte>, at: nat, cells: seq<seq<byte>>, i: nat)
    requires LiesAt(file, at, Flatten(cells)) && i < |cells|
    ensures LiesAt(file, at + Offset(cells, i), cells[i])
  {
    CellLies(cells, i);
    LiesWithin(file, at, Flatten(cells), Offset(cells, i), cells[i]);
  }

  lemma MemberOffsets(name: seq<byte>, size: nat)
    requires |name| <= 16 && size < MEMBER_SIZE_LIMIT
    ensures var cells := MemberHeaderCells(name, size);
            Offset(cells, 1) == 16 && Offset(cells, 2) == 28 && Offset(cells, 3) == 34 && Offset(cells, 4) == 40
            && Offset(cells, 5) == 48 && Offset(cells, 6) == 58
  {
    var cells := MemberHeaderCells(name, size);
    SizeFieldLength(size);
    assert Offset(cells, 1) == 16;
    assert Offset(cells, 2) == 28;
    assert Offset(cells, 3) == 34;
    assert Offset(cells, 4) == 40;
    assert Offset(cells, 5) == 48;
  }

  lemma MemberSpelt(file: seq<byte>, at: nat, name: seq<byte>, text: string, size: nat)
    requires |name| == |text| <= 16 && size < MEMBER_SIZE_LIMIT && LiesAt(file, at, MemberHeader(name, size))
    requires forall i :: 0 <= i < |name| ==> name[i] == text[i] as int
    ensures MemberText(file, at, text, size)
  {
    var cells := MemberHeaderCells(name, size);
    MemberOffsets(name, size);
    SizeFieldLength(size);
    forall i | 0 <= i < 7 ensures LiesAt(file, at + Offset(cells, i), cells[i]) {
      CellWithin(file, at, cells, i);
    }
    PaddedColumn(file, at, name, text, 16);
    PaddedColumn(file, at + 16, [0x30], "0", 12);
    PaddedColumn(file, at + 28, [0x30], "0", 6);
    PaddedColumn(file, at + 34, [0x30], "0", 6);
    PaddedColumn(file, at + 40, [0x36, 0x34, 0x34], "644", 8);
    PaddedColumn(file, at + 48, NumeralBytes(size), Numeral(size), 10);
    PaddedFull([0x60, 0x0a]);
    PaddedColumn(file, at + 58, [0x60, 0x0a], "`\n", 2);
  }

  /** The magic, a member "/" with the index, and a member for the object. */
  predicate LibraryFields(file: seq<byte>, symbol: seq<byte>, obj: seq<byte>, n: nat) {
    && Column(file, 0, 8, "!<arch>\n") && MemberText(file, 8, "/", n)
    && |file| >= 76 && NumberAt(Big, W32, file, 68) == 1 && NumberAt(Big, W32, file, 72) == 68 + n
    && |symbol| + 9 <= n < |symbol| + 17 && n % 8 == 0
    && 68 + n <= |file| && file[76..68 + n] == symbol + Repeat<byte>(0, n - 8 - |symbol|)
    && MemberText(file, 68 + n, "packages.o/", |obj|)
    && 128 + n + |obj| <= |file| && file[128 + n..128 + n + |obj|] == obj
  }

  lemma LibraryTextIs(library: seq<byte>, symbol: seq<byte>, obj: seq<byte>, pad: seq<byte>)
    requires |obj| < MEMBER_SIZE_LIMIT && 8 + 60 + IndexLength(|symbol|) < W32.Limit()
    requires library == Flatten(LibraryParts(symbol, |obj|)) + (obj + pad)
    ensures LibraryFields(library, symbol, obj, IndexLength(|symbol|))
    ensures library[128 + IndexLength(|symbol|) + |obj|..] == pad
  {
    LibraryLies(symbol, obj, pad);
    MembersText(symbol, obj, library);
    LibraryLength(symbol, |obj|);
    PadBehind(Flatten(LibraryParts(symbol, |obj|)), obj, pad);
  }

  /** The library has these fields, and a newline behind an object of odd length. */
  lemma LibraryText(f: Format, names: seq<seq<byte>>, symbol: seq<byte>, blob: seq<byte>)
    returns (library: seq<byte>, obj: seq<byte>)
    requires AreNames(names) && Fits(f, names, |symbol|, |blob|)
    ensures library == LibraryOf(f, names, symbol, blob) && obj == ObjectOf(f, names, symbol, blob)
    ensures LibraryFields(library, symbol, obj, IndexLength(|symbol|))
    ensures library[128 + IndexLength(|symbol|) + |obj|..] == if |obj| % 2 == 1 then [0x0a] else []
  {
    library, obj := LibraryOf(f, names, symbol, blob), ObjectOf(f, names, symbol, blob);
    var pad: seq<byte> := if |obj| % 2 == 1 then [0x0a] else [];
    ObjectOfLength(f, names, symbol, blob);
    LibrarySplit(f, names, symbol, blob, pad);
    LibraryTextIs(library, symbol, obj, pad);
  }

  lemma PadBehind(front: seq<byte>, obj: seq<byte>, pad: seq<byte>)
    ensures (front + (obj + pad))[|front| + |obj|..] == pad
  {
  }

  lemma MagicSpelt(file: seq<byte>)
    requires LiesAt(file, 0, Magic())
    ensures Column(file, 0, 8, "!<arch>\n")
  {
    PaddedFull(Magic());
    PaddedColumn(file, 0, Magic(), "!<arch>\n", 8);
  }

  lemma IndexText(symbol: seq<byte>, member: nat, file: seq<byte>, at: nat)
    requires LiesAt(file, at, Flatten(IndexCells(symbol, member))) && member < W32.Limit()
    ensures |file| >= at + 8 && NumberAt(Big, W32, file, at) == 1 && NumberAt(Big, W32, file, at + 4) == member
    ensures LiesAt(file, at + 8, symbol + Zeros(IndexLength(|symbol|) - 8 - |symbol|))
  {
    var cells := IndexCells(symbol, member);
    assert Offset(cells, 1) == 4;
    assert Offset(cells, 2) == 8;
    assert Offset(cells, 3) == 8 + |symbol|;
    forall i | 0 <= i < 4 ensures LiesAt(file, at + Offset(cells, i), cells[i]) {
      CellWithin(file, at, cells, i);
    }
    EncodeDecode(Big, 1, W32);
    EncodeDecode(Big, member, W32);
    LiesJoined(file, at + 8, symbol, cells[3]);
  }

  lemma MembersText(symbol: seq<byte>, obj: seq<byte>, file: seq<byte>)
    requires |obj| < MEMBER_SIZE_LIMIT && 8 + 60 + IndexLength(|symbol|) < W32.Limit()
    requires MembersLie(Flatten(IndexCells(symbol, 68 + IndexLength(|symbol|))), MemberName(), obj, file)
    ensures LibraryFields(file, symbol, obj, IndexLength(|symbol|))
  {
    IndexLengthExact(symbol, 68 + IndexLength(|symbol|));
    BodyText(symbol, Flatten(IndexCells(symbol, 68 + IndexLength(|symbol|))), obj, file, IndexLength(|symbol|));
  }

  lemma BodyText(symbol: seq<byte>, body: seq<byte>, obj: seq<byte>, file: seq<byte>, n: nat)
    requires |obj| < MEMBER_SIZE_LIMIT && 68 + n < W32.Limit() && n == IndexLength(|symbol|) == |body|
    requires MembersLie(body, MemberName(), obj, file) && body == Flatten(IndexCells(symbol, 68 + n))
    ensures LibraryFields(file, symbol, obj, n)
  {
    MagicSpelt(file);
    MemberSpelt(file, 8, [0x2f], "/", n);
    IndexText(symbol, 68 + n, file, 68);
    MemberSpelt(file, 68 + n, MemberName(), "packages.o/", |obj|);
  }

  // ----- The symbol -----

  predicate IsHexDigit(b: byte) {
    0x30 <= b <= 0x39 || 0x61 <= b <= 0x66
  }

  function HexDigitValue(b: byte): nat
    requires IsHexDigit(b)
  {
    if b <= 0x39 then b as nat - 0x30 else b as nat - 0x57
  }

  function HexValue(b: seq<byte>): nat
    requires forall i :: 0 <= i < |b| ==> IsHexDigit(b[i])
  {
    if b == [] then 0 else 16 * HexValue(b[..|b| - 1]) + HexDigitValue(b[|b| - 1])
  }

  lemma {:induction false} HexReads(v: nat, n: nat)
    requires v < Power(16, n)
    ensures forall i :: 0 <= i < n ==> IsHexDigit(Hex(v, n)[i])
    ensures HexValue(Hex(v, n)) == v
    decreases n
  {
    if n > 0 {
      assert Power(16, n) == 16 * Power(16, n - 1);
      HexReads(v / 16, n - 1);
      assert Hex(v, n)[..n - 1] == Hex(v / 16, n - 1);
    }
  }

  /** The symbol ends in the 16 hexadecimal digits of the hash. */
  lemma SymbolSpelt(hash: nat)
    requires hash < W64.Limit()
    ensures var b := BlobSymbol(hash);
            && Column(b, 0, 18, "tex_kpse_packages_")
            && (forall i :: 18 <= i < 34 ==> IsHexDigit(b[i])) && HexValue(b[18..]) == hash
  {
    PowerSixteen();
    HexReads(hash, 16);
    assert BlobSymbol(hash)[18..] == Hex(hash, 16);
    assert forall i :: 18 <= i < 34 ==> BlobSymbol(hash)[i] == Hex(hash, 16)[i - 18];
  }

  lemma PowerSixteen()
    ensures Power(16, 16) == W64.Limit()
  {
    assert Power(16, 0) == 1;
    PowerDouble(16, 0);
    PowerDouble(16, 2);
    PowerDouble(16, 4);
    PowerDouble(16, 6);
    PowerDouble(16, 8);
    PowerDouble(16, 10);
    PowerDouble(16, 12);
    PowerDouble(16, 14);
  }
}

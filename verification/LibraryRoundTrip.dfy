/** The `ar` library around the object, and the file that is written. */
module LibraryRoundTrip {
  import opened Wrappers
  import opened Bytes
  import opened Words
  import opened ObjectLayout
  import opened ObjectReader
  import opened ObjectRoundTrip

  // ----- Member headers -----

  lemma {:induction false} TrimSpacesExact(text: seq<byte>, n: nat)
    requires text != [] && text[|text| - 1] != 0x20
    ensures TrimSpaces(text + Repeat<byte>(0x20, n)) == text
  {
    if n == 0 {
      assert text + Repeat<byte>(0x20, 0) == text;
    } else {
      assert (text + Repeat<byte>(0x20, n))[..|text| + n - 1] == text + Repeat<byte>(0x20, n - 1);
      TrimSpacesExact(text, n - 1);
    }
  }

  lemma {:induction false} DecimalReads(n: nat)
    ensures IsDecimal(NumeralBytes(n)) && DecimalValue(NumeralBytes(n)) == n
  {
    var b := NumeralBytes(n);
    DigitsDecimal(Numeral(n));
    if n < 10 {
      assert b[..0] == [];
    } else {
      assert b[..|b| - 1] == NumeralBytes(n / 10);
      DecimalReads(n / 10);
    }
  }

  lemma DigitsDecimal(s: string)
    requires s != [] && AllDigits(s) && IsAscii(s)
    ensures IsDecimal(Ascii(s))
  {
    forall i | 0 <= i < |s| ensures 0x30 <= Ascii(s)[i] <= 0x39 {
      assert s[i] in s;
    }
  }

  lemma SizeFieldLength(size: nat)
    requires size < MEMBER_SIZE_LIMIT
    ensures |NumeralBytes(size)| <= 10
  {
    NumeralLength(size, 10);
    TenDigits();
  }

  lemma TenDigits()
    ensures Power(10, 10) == MEMBER_SIZE_LIMIT
  {
    PowerDouble(10, 8);
    PowerDouble(10, 6);
    PowerDouble(10, 4);
    PowerDouble(10, 2);
    PowerDouble(10, 0);
  }

  lemma MemberHeaderOffsets(name: seq<byte>, size: nat)
    requires |name| <= 16 && size < MEMBER_SIZE_LIMIT
    ensures var cells := MemberHeaderCells(name, size);
            Offset(cells, 1) == 16 && Offset(cells, 5) == 48 && Offset(cells, 6) == 58 && Offset(cells, 7) == 60
    ensures |MemberHeader(name, size)| == MEMBER_HEADER
  {
    var cells := MemberHeaderCells(name, size);
    SizeFieldLength(size);
    assert Offset(cells, 1) == 16;
    assert Offset(cells, 2) == 28;
    assert Offset(cells, 3) == 34;
    assert Offset(cells, 4) == 40;
    assert Offset(cells, 5) == 48;
    assert Offset(cells, 6) == 58;
    FlattenLength(cells);
  }

  /** Name and size of a member are read back from its header. */
  lemma MemberHeaderReads(file: seq<byte>, at: nat, name: seq<byte>, size: nat)
    requires |name| <= 16 && size < MEMBER_SIZE_LIMIT && LiesAt(file, at, MemberHeader(name, size))
    ensures ReadMemberHeader(file, at) == Some((Padded(name, 16), size))
  {
    var cells, b := MemberHeaderCells(name, size), MemberHeader(name, size);
    MemberHeaderOffsets(name, size);
    CellLies(cells, 0);
    CellLies(cells, 5);
    CellLies(cells, 6);
    SizeFieldLength(size);
    DecimalReads(size);
    TrimSpacesExact(NumeralBytes(size), 10 - |NumeralBytes(size)|);
    assert file[at..at + MEMBER_HEADER] == b;
    assert b[..16] == Padded(name, 16);
    assert b[48..58] == Padded(NumeralBytes(size), 10);
    assert b[58..] == [0x60, 0x0a];
  }

  lemma MemberReads(file: seq<byte>, at: nat, name: seq<byte>, data: seq<byte>)
    requires |name| <= 16 && |data| < MEMBER_SIZE_LIMIT && LiesAt(file, at, MemberHeader(name, |data|))
    requires LiesAt(file, at + MEMBER_HEADER, data)
    ensures ReadMemberAt(file, at) == Some(data)
  {
    MemberHeaderReads(file, at, name, |data|);
  }

  // ----- The index -----

  lemma IndexReads(symbol: seq<byte>, member: nat)
    requires NoNul(symbol) && member < W32.Limit()
    ensures MemberDefining(Flatten(IndexCells(symbol, member)), symbol) == Some(member)
    ensures |Flatten(IndexCells(symbol, member))| == IndexLength(|symbol|)
  {
    var cells := IndexCells(symbol, member);
    var index, zeros := Flatten(cells), cells[3];
    assert Offset(cells, 1) == 4;
    assert Offset(cells, 2) == 8;
    assert Offset(cells, 3) == 8 + |symbol|;
    FlattenLength(cells);
    CountReads(cells, member);
    CellLies(cells, 2);
    CellLies(cells, 3);
    LiesJoined(index, 8, symbol, zeros);
    assert index[8..] == symbol + zeros;
    assert zeros == [0] + zeros[1..];
    assert symbol + zeros == symbol + [0] + zeros[1..];
    UpToNulExact(symbol, zeros[1..]);
    FirstNamed(index, symbol, member);
  }

  lemma CountReads(cells: seq<seq<byte>>, member: nat)
    requires |cells| >= 2 && cells[0] == Encode(Big, 1, W32) && cells[1] == Encode(Big, member, W32)
    requires member < W32.Limit()
    ensures |Flatten(cells)| >= 8
    ensures NumberAt(Big, W32, Flatten(cells), 0) == 1 && NumberAt(Big, W32, Flatten(cells), 4) == member
  {
    FieldReads(Big, cells, 0, 1, W32);
    assert Offset(cells, 1) == 4;
    FieldReads(Big, cells, 1, member, W32);
  }

  lemma FirstNamed(index: seq<byte>, symbol: seq<byte>, member: nat)
    requires |index| >= 8 && NumberAt(Big, W32, index, 0) == 1 && NumberAt(Big, W32, index, 4) == member
    requires UpToNul(index[8..]) == symbol
    ensures MemberDefining(index, symbol) == Some(member)
  {
    assert IndexOfName(index[8..], 1, symbol) == Some(0);
  }

  // ----- The library -----

  /** The library file: its header, the blob, its trailer. */
  function LibraryOf(f: Format, names: seq<seq<byte>>, symbol: seq<byte>, blob: seq<byte>): seq<byte>
    requires |names| == 5
  {
    LibraryHeader(f, names, symbol, |blob|) + blob + LibraryTrailer(f, names, symbol, |blob|)
  }

  lemma LibraryOffsets(symbol: seq<byte>, objectLength: nat)
    requires objectLength < MEMBER_SIZE_LIMIT && 8 + 60 + IndexLength(|symbol|) < W32.Limit()
    ensures var parts, index := LibraryParts(symbol, objectLength), IndexLength(|symbol|);
            && Offset(parts, 1) == 8 && Offset(parts, 2) == 68 && Offset(parts, 3) == 68 + index
            && Offset(parts, 4) == 128 + index && |Flatten(parts)| == 128 + index
  {
    var parts, index := LibraryParts(symbol, objectLength), IndexLength(|symbol|);
    MemberHeaderOffsets([0x2f], index);
    IndexLengthExact(symbol, 68 + index);
    MemberHeaderOffsets(MemberName(), objectLength);
    assert Offset(parts, 1) == 8;
    assert Offset(parts, 2) == 68;
    assert Offset(parts, 3) == 68 + index;
    FlattenLength(parts);
  }

  lemma IndexLengthExact(symbol: seq<byte>, member: nat)
    ensures |Flatten(IndexCells(symbol, member))| == IndexLength(|symbol|)
  {
    var cells := IndexCells(symbol, member);
    assert Offset(cells, 1) == 4;
    assert Offset(cells, 2) == 8;
    assert Offset(cells, 3) == 8 + |symbol|;
    FlattenLength(cells);
  }

  /** Where the members of the library lie in the file: the index `body`, then the object. */
  ghost predicate MembersLie(body: seq<byte>, name: seq<byte>, obj: seq<byte>, file: seq<byte>) {
    && LiesAt(file, 0, Magic())
    && LiesAt(file, 8, MemberHeader([0x2f], |body|))
    && LiesAt(file, 68, body)
    && LiesAt(file, 68 + |body|, MemberHeader(name, |obj|))
    && LiesAt(file, 68 + |body| + MEMBER_HEADER, obj)
  }

  lemma LibraryLies(symbol: seq<byte>, obj: seq<byte>, pad: seq<byte>)
    requires |obj| < MEMBER_SIZE_LIMIT && 8 + 60 + IndexLength(|symbol|) < W32.Limit()
    ensures MembersLie(Flatten(IndexCells(symbol, 68 + IndexLength(|symbol|))), MemberName(), obj,
              Flatten(LibraryParts(symbol, |obj|)) + (obj + pad))
  {
    var parts := LibraryParts(symbol, |obj|);
    IndexLengthExact(symbol, 68 + IndexLength(|symbol|));
    LibraryOffsets(symbol, |obj|);
    PartLies(parts, obj + pad, 0);
    PartLies(parts, obj + pad, 1);
    PartLies(parts, obj + pad, 2);
    PartLies(parts, obj + pad, 3);
    LiesShifted(Flatten(parts), obj + pad, 0, obj);
  }

  /** The index leads to the member, whatever the member holds. */
  lemma MembersRead(symbol: seq<byte>, body: seq<byte>, name: seq<byte>, obj: seq<byte>, file: seq<byte>)
    requires |name| <= 16 && |body| < MEMBER_SIZE_LIMIT && |obj| < MEMBER_SIZE_LIMIT
    requires MemberDefining(body, symbol) == Some(68 + |body|)
    ensures MembersLie(body, name, obj, file) ==> IndexedMember(file, symbol) == Some(obj)
  {
    if MembersLie(body, name, obj, file) {
      MemberHeaderReads(file, 8, [0x2f], |body|);
      MemberReads(file, 8, [0x2f], body);
      MemberReads(file, 68 + |body|, name, obj);
      IndexedMemberIs(file, symbol, |body|, body, 68 + |body|, obj);
    }
  }

  lemma LibraryReads(symbol: seq<byte>, obj: seq<byte>, pad: seq<byte>)
    requires NoNul(symbol) && |obj| < MEMBER_SIZE_LIMIT && 8 + 60 + IndexLength(|symbol|) < W32.Limit()
    ensures IndexedMember(Flatten(LibraryParts(symbol, |obj|)) + (obj + pad), symbol) == Some(obj)
  {
    LibraryLies(symbol, obj, pad);
    IndexedRead(symbol, MemberName(), obj, Flatten(LibraryParts(symbol, |obj|)) + (obj + pad));
  }

  lemma IndexedRead(symbol: seq<byte>, name: seq<byte>, obj: seq<byte>, file: seq<byte>)
    requires NoNul(symbol) && 8 + 60 + IndexLength(|symbol|) < W32.Limit()
    requires |name| <= 16 && |obj| < MEMBER_SIZE_LIMIT
    ensures MembersLie(Flatten(IndexCells(symbol, 68 + IndexLength(|symbol|))), name, obj, file) ==>
              IndexedMember(file, symbol) == Some(obj)
  {
    var member := 68 + IndexLength(|symbol|);
    IndexReads(symbol, member);
    MembersRead(symbol, Flatten(IndexCells(symbol, member)), name, obj, file);
  }

  lemma PartLies(parts: seq<seq<byte>>, rest: seq<byte>, i: nat)
    requires i < |parts|
    ensures LiesAt(Flatten(parts) + rest, Offset(parts, i), parts[i])
  {
    CellLies(parts, i);
    LiesSecond([], Flatten(parts), rest, Offset(parts, i), parts[i]);
    assert [] + (Flatten(parts) + rest) == Flatten(parts) + rest;
  }

  lemma IndexedMemberIs(
    file: seq<byte>, symbol: seq<byte>, size: nat, index: seq<byte>, member: nat, obj: seq<byte>)
    requires LiesAt(file, 0, Magic()) && ReadMemberHeader(file, 8) == Some((Padded([0x2f], 16), size))
    requires ReadMemberAt(file, 8) == Some(index) && MemberDefining(index, symbol) == Some(member)
    requires ReadMemberAt(file, member) == Some(obj)
    ensures IndexedMember(file, symbol) == Some(obj)
  {
  }

  /**
   A linker that looks up the symbol in the library finds exactly the blob, whatever the blob, the
   symbol, the word size and the byte order, as long as the sizes fit their fields.
   */
  lemma LibraryRoundTrip(f: Format, names: seq<seq<byte>>, symbol: seq<byte>, blob: seq<byte>)
    requires AreNames(names) && Fits(f, names, |symbol|, |blob|) && NoNul(symbol)
    ensures ReadLibrary(LibraryOf(f, names, symbol, blob), symbol) == Some(blob)
  {
    var obj := ObjectOf(f, names, symbol, blob);
    var pad: seq<byte> := if ObjectLengthOf(f, names, symbol, |blob|) % 2 == 1 then [0x0a] else [];
    ObjectOfLength(f, names, symbol, blob);
    LibraryReads(symbol, obj, pad);
    LibrarySplit(f, names, symbol, blob, pad);
    ObjectReads(f, names, symbol, blob);
  }

  lemma ObjectOfLength(f: Format, names: seq<seq<byte>>, symbol: seq<byte>, blob: seq<byte>)
    requires |names| == 5
    ensures |ObjectOf(f, names, symbol, blob)| == ObjectLengthOf(f, names, symbol, |blob|)
  {
    ObjectLengthExact(f, names, symbol, |blob|);
  }

  lemma Regroup(library: seq<byte>, header: seq<byte>, blob: seq<byte>, trailer: seq<byte>, pad: seq<byte>)
    ensures library + header + blob + (trailer + pad) == library + (header + blob + trailer + pad)
  {
  }

  lemma LibrarySplit(f: Format, names: seq<seq<byte>>, symbol: seq<byte>, blob: seq<byte>, pad: seq<byte>)
    requires |names| == 5
    requires pad == if ObjectLengthOf(f, names, symbol, |blob|) % 2 == 1 then [0x0a] else []
    ensures LibraryOf(f, names, symbol, blob)
            == Flatten(LibraryParts(symbol, ObjectLengthOf(f, names, symbol, |blob|)))
               + (ObjectOf(f, names, symbol, blob) + pad)
  {
    Regroup(Flatten(LibraryParts(symbol, ObjectLengthOf(f, names, symbol, |blob|))),
      ObjectHeader(f, names, symbol, |blob|), blob, Flatten(TrailerParts(f, names, symbol, |blob|)), pad);
  }

  lemma LibraryLength(symbol: seq<byte>, objectLength: nat)
    requires objectLength < MEMBER_SIZE_LIMIT && 8 + 60 + IndexLength(|symbol|) < W32.Limit()
    ensures |Flatten(LibraryParts(symbol, objectLength))| == 128 + IndexLength(|symbol|)
  {
    LibraryOffsets(symbol, objectLength);
  }

  /** The length of the header depends on the length of the symbol alone, and the object starts 8-aligned. */
  lemma LibraryHeaderLength(f: Format, names: seq<seq<byte>>, symbol: seq<byte>, len: nat)
    requires AreNames(names) && Fits(f, names, |symbol|, len)
    ensures |LibraryHeader(f, names, symbol, len)| == 128 + IndexLength(|symbol|) + DATA
    ensures (128 + IndexLength(|symbol|)) % 8 == 0
  {
    LibraryLength(symbol, ObjectLengthOf(f, names, symbol, len));
    ObjectHeaderLength(f, names, symbol, len);
  }

  // ----- The file -----

  function HexDigit(n: nat): (b: byte)
    requires n < 16
    ensures b != 0
  {
    if n < 10 then 0x30 + n else 0x61 + n - 10
  }

  /** The last `n` hexadecimal digits of `v`, with leading zeros. */
  function Hex(v: nat, n: nat): (b: seq<byte>)
    ensures |b| == n && NoNul(b)
  {
    if n == 0 then [] else Hex(v / 16, n - 1) + [HexDigit(v % 16)]
  }

  function SymbolPrefix(): (b: seq<byte>)
    ensures |b| == 18 && NoNul(b)
  {
    Ascii("tex_kpse_packages_")
  }

  /** The symbol of a blob with that 64-bit hash. */
  function BlobSymbol(hash: nat): (symbol: seq<byte>)
    ensures |symbol| == SYMBOL_LENGTH && NoNul(symbol)
  {
    SymbolPrefix() + Hex(hash, 16)
  }

  const SYMBOL_LENGTH := 34

  lemma EmptyFits(f: Format, names: seq<seq<byte>>)
    requires AreNames(names)
    ensures Fits(f, names, SYMBOL_LENGTH, 0)
  {
    NameTableLength(names);
  }

  const SAFE_LENGTH := 0xffff_f000

  /** With the section names of the source, every blob shorter than 4 GiB less one page is read back. */
  lemma SourceLibraryReads(f: Format, hash: nat, blob: seq<byte>)
    requires |blob| < SAFE_LENGTH
    ensures Fits(f, SectionNames(), SYMBOL_LENGTH, |blob|)
    ensures ReadLibrary(LibraryOf(f, SectionNames(), BlobSymbol(hash), blob), BlobSymbol(hash)) == Some(blob)
  {
    NameTableLength(SectionNames());
    LibraryRoundTrip(f, SectionNames(), BlobSymbol(hash), blob);
  }

  /**
   Writes the library front to back: room for the header, the blob as it comes, the trailer, and at
   last the header into its room.
   */
  class BlobWriter {
    const format: Format
    const names: seq<seq<byte>>
    var file: seq<byte>
    var headerLength: nat
    var len: nat
    ghost var blob: seq<byte>

    ghost predicate Valid()
      reads this
    {
      && AreNames(names) && len == |blob| && headerLength == 128 + IndexLength(SYMBOL_LENGTH) + DATA
      && file == Zeros(headerLength) + blob
    }

    constructor (format: Format, names: seq<seq<byte>>)
      requires AreNames(names)
      ensures Valid() && blob == [] && this.format == format && this.names == names
    {
      EmptyFits(format, names);
      LibraryHeaderLength(format, names, BlobSymbol(0), 0);
      var header, trailer := Library(format, names, BlobSymbol(0), 0);
      this.format, this.names := format, names;
      headerLength := |header|;
      file := Zeros(|header|);
      len, blob := 0, [];
    }

    method Write(bytes: seq<byte>)
      requires Valid()
      modifies this
      ensures Valid() && blob == old(blob) + bytes
    {
      file := file + bytes;
      len := len + |bytes|;
      blob := blob + bytes;
    }

    /** The finished library gives the blob back. */
    method Finish(hash: nat)
      requires Valid() && Fits(format, names, SYMBOL_LENGTH, len)
      modifies `file
      ensures file == LibraryOf(format, names, BlobSymbol(hash), blob)
      ensures ReadLibrary(file, BlobSymbol(hash)) == Some(blob)
    {
      LibraryHeaderLength(format, names, BlobSymbol(hash), len);
      var header, trailer := Library(format, names, BlobSymbol(hash), len);
      assert |header| == headerLength;
      file := file + trailer;
      HeaderOverwritten(header, Zeros(headerLength), blob, trailer);
      file := header + file[|header|..];
      LibraryRoundTrip(format, names, BlobSymbol(hash), blob);
    }
  }

  lemma HeaderOverwritten(header: seq<byte>, room: seq<byte>, blob: seq<byte>, trailer: seq<byte>)
    requires |header| == |room|
    ensures header + (room + blob + trailer)[|header|..] == header + blob + trailer
  {
  }

  /** The pieces written come back as one blob. */
  method WriteBlob(format: Format, names: seq<seq<byte>>, pieces: seq<seq<byte>>, hash: nat) returns (file: seq<byte>)
    requires AreNames(names) && Fits(format, names, SYMBOL_LENGTH, |Flatten(pieces)|)
    ensures ReadLibrary(file, BlobSymbol(hash)) == Some(Flatten(pieces))
  {
    var writer := new BlobWriter(format, names);
    for n := 0 to |pieces|
      invariant writer.Valid() && writer.blob == Flatten(pieces[..n])
      invariant writer.format == format && writer.names == names
    {
      assert pieces[..n + 1] == pieces[..n] + [pieces[n]];
      FlattenAppend(pieces[..n], [pieces[n]]);
      FlattenOne(pieces[n]);
      writer.Write(pieces[n]);
    }
    assert pieces[..|pieces|] == pieces;
    writer.Finish(hash);
    file := writer.file;
  }
}

/** A linker that reads the library written around a blob finds exactly the blob. */
module ObjectRoundTrip {
  import opened Wrappers
  import opened Bytes
  import opened Words
  import opened ObjectLayout
  import opened ObjectReader

  // ----- Where everything lies in an object -----

  /** The object: header, blob, tables and section headers. */
  function ObjectOf(f: Format, names: seq<seq<byte>>, symbol: seq<byte>, blob: seq<byte>): seq<byte>
    requires |names| == 5
  {
    ObjectHeader(f, names, symbol, |blob|) + blob + Flatten(TrailerParts(f, names, symbol, |blob|))
  }

  lemma LiesSecond<T>(front: seq<T>, s: seq<T>, more: seq<T>, at: nat, part: seq<T>)
    requires LiesAt(s, at, part)
    ensures LiesAt(front + (s + more), |front| + at, part)
  {
    assert (s + more)[at..at + |part|] == s[at..at + |part|];
    LiesShifted(front, s + more, at, part);
  }

  lemma LiesThird<T>(front: seq<T>, middle: seq<T>, s: seq<T>, at: nat, part: seq<T>)
    requires LiesAt(s, at, part)
    ensures LiesAt(front + (middle + s), |front| + |middle| + at, part)
  {
    LiesShifted(middle, s, at, part);
    LiesShifted(front, middle + s, |middle| + at, part);
  }

  lemma LiesJoined<T>(s: seq<T>, at: nat, a: seq<T>, b: seq<T>)
    requires LiesAt(s, at, a) && LiesAt(s, at + |a|, b)
    ensures LiesAt(s, at, a + b)
  {
    assert s[at..at + |a + b|] == s[at..at + |a|] + s[at + |a|..at + |a| + |b|];
  }

  /** The tables lie where the plan says, counted from `base`. */
  ghost predicate TablesPlanned(f: Format, p: Plan, entry: seq<byte>, symbol: seq<byte>, table: seq<byte>,
    base: nat, bytes: seq<byte>)
  {
    && base <= p.symtab && base <= p.strtab && base <= p.shstrtab && base <= p.sectionHeaders
    && LiesAt(bytes, p.symtab - base, Zeros(f.SymbolSize()) + entry)
    && LiesAt(bytes, p.strtab - base, [0] + (symbol + [0]))
    && LiesAt(bytes, p.shstrtab - base, table)
    && LiesAt(bytes, p.sectionHeaders - base, Zeros(f.SectionSize()))
  }

  ghost predicate HeadersPlanned(size: nat, headers: seq<seq<byte>>, base: nat, bytes: seq<byte>) {
    forall i :: 0 <= i < |headers| ==> LiesAt(bytes, base + i * size, headers[i])
  }

  lemma SymbolsLie(f: Format, p: Plan, entry: seq<byte>, symbol: seq<byte>, table: seq<byte>, len: nat)
    requires |entry| == f.SymbolSize() && p == PlanOf(f, |symbol|, |table|, len)
    ensures p.dataEnd <= p.symtab
    ensures LiesAt(Flatten(TableParts(f, p, entry, symbol, table)), p.symtab - p.dataEnd, Zeros(f.SymbolSize()) + entry)
  {
    var tables := TableParts(f, p, entry, symbol, table);
    TableOffsets(f, p, entry, symbol, table, len);
    CellLies(tables, 1);
    CellLies(tables, 2);
    LiesJoined(Flatten(tables), p.symtab - p.dataEnd, tables[1], tables[2]);
  }

  lemma TablesLie(f: Format, p: Plan, entry: seq<byte>, symbol: seq<byte>, table: seq<byte>, len: nat)
    requires |entry| == f.SymbolSize() && p == PlanOf(f, |symbol|, |table|, len)
    ensures var tables := TableParts(f, p, entry, symbol, table);
            && TablesPlanned(f, p, entry, symbol, table, p.dataEnd, Flatten(tables))
            && |Flatten(tables)| == p.sectionHeaders - p.dataEnd + f.SectionSize()
  {
    var tables := TableParts(f, p, entry, symbol, table);
    TableOffsets(f, p, entry, symbol, table, len);
    FlattenLength(tables);
    SymbolsLie(f, p, entry, symbol, table, len);
    CellLies(tables, 3);
    StringsLength(symbol);
    CellLies(tables, 4);
    CellLies(tables, 6);
  }

  lemma HeaderLies(size: nat, headers: seq<seq<byte>>, i: nat)
    requires i < |headers| && forall i :: 0 <= i < |headers| ==> |headers[i]| == size
    ensures LiesAt(Flatten(headers), i * size, headers[i])
  {
    CellLies(headers, i);
    EvenOffset(headers, size, i);
  }

  lemma HeadersLie(size: nat, headers: seq<seq<byte>>)
    requires forall i :: 0 <= i < |headers| ==> |headers[i]| == size
    ensures HeadersPlanned(size, headers, 0, Flatten(headers))
    ensures |Flatten(headers)| == |headers| * size
  {
    forall i: nat | i < |headers| ensures LiesAt(Flatten(headers), 0 + i * size, headers[i]) {
      HeaderLies(size, headers, i);
    }
    FlattenLength(headers);
    EvenOffset(headers, size, |headers|);
  }

  lemma TablesLifted(f: Format, p: Plan, entry: seq<byte>, symbol: seq<byte>, table: seq<byte>,
    front: seq<byte>, tables: seq<byte>, headers: seq<byte>)
    requires TablesPlanned(f, p, entry, symbol, table, |front|, tables)
    ensures TablesPlanned(f, p, entry, symbol, table, 0, front + (tables + headers))
  {
    LiesSecond(front, tables, headers, p.symtab - |front|, Zeros(f.SymbolSize()) + entry);
    LiesSecond(front, tables, headers, p.strtab - |front|, [0] + (symbol + [0]));
    LiesSecond(front, tables, headers, p.shstrtab - |front|, table);
    LiesSecond(front, tables, headers, p.sectionHeaders - |front|, Zeros(f.SectionSize()));
  }

  lemma HeadersLifted(size: nat, headers: seq<seq<byte>>, front: seq<byte>, middle: seq<byte>, bytes: seq<byte>)
    requires HeadersPlanned(size, headers, 0, bytes)
    ensures HeadersPlanned(size, headers, |front| + |middle|, front + (middle + bytes))
  {
    forall i | 0 <= i < |headers|
      ensures LiesAt(front + (middle + bytes), |front| + |middle| + i * size, headers[i])
    {
      LiesThird(front, middle, bytes, 0 + i * size, headers[i]);
    }
  }

  /** Everything a reader needs to find lies where the plan says. */
  ghost predicate Planned(f: Format, p: Plan, entry: seq<byte>, symbol: seq<byte>, table: seq<byte>,
    headers: seq<seq<byte>>, header: seq<byte>, blob: seq<byte>, obj: seq<byte>)
  {
    && |obj| == p.sectionHeaders + f.SectionSize() + |headers| * f.SectionSize()
    && LiesAt(obj, 0, header) && LiesAt(obj, DATA, blob)
    && TablesPlanned(f, p, entry, symbol, table, 0, obj)
    && HeadersPlanned(f.SectionSize(), headers, p.sectionHeaders + f.SectionSize(), obj)
  }

  lemma FrontLies(header: seq<byte>, blob: seq<byte>, rest: seq<byte>)
    ensures LiesAt(header + blob + rest, 0, header) && LiesAt(header + blob + rest, |header|, blob)
  {
    assert (header + blob + rest)[..|header|] == header;
    assert (header + blob + rest)[|header|..|header| + |blob|] == blob;
  }

  lemma PartsPlanned(f: Format, p: Plan, entry: seq<byte>, symbol: seq<byte>, table: seq<byte>,
    headers: seq<seq<byte>>, header: seq<byte>, blob: seq<byte>, tables: seq<byte>, bytes: seq<byte>)
    requires |header| == DATA && |blob| + DATA == p.dataEnd
    requires TablesPlanned(f, p, entry, symbol, table, p.dataEnd, tables)
    requires |tables| == p.sectionHeaders - p.dataEnd + f.SectionSize()
    requires HeadersPlanned(f.SectionSize(), headers, 0, bytes) && |bytes| == |headers| * f.SectionSize()
    ensures Planned(f, p, entry, symbol, table, headers, header, blob, header + blob + (tables + bytes))
  {
    FrontLies(header, blob, tables + bytes);
    TablesLifted(f, p, entry, symbol, table, header + blob, tables, bytes);
    HeadersLifted(f.SectionSize(), headers, header + blob, tables, bytes);
  }

  lemma ObjectPlanned(f: Format, names: seq<seq<byte>>, symbol: seq<byte>, blob: seq<byte>)
    requires |names| == 5
    ensures var table, len := NameTable(names), |blob|;
            var p := PlanOf(f, |symbol|, |table|, len);
            Planned(f, p, Flatten(BlobSymbolEntry(len).Cells(f)), symbol, table,
              SectionParts(f, Sections(f, NameOffsets(names), |table|, |symbol|, len)),
              ObjectHeader(f, names, symbol, len), blob, ObjectOf(f, names, symbol, blob))
  {
    var table, len, entry := NameTable(names), |blob|, Flatten(BlobSymbolEntry(|blob|).Cells(f));
    var p := PlanOf(f, |symbol|, |table|, len);
    var s := Sections(f, NameOffsets(names), |table|, |symbol|, len);
    var tables, headers := TableParts(f, p, entry, symbol, table), SectionParts(f, s);
    ObjectLengthExact(f, names, symbol, len);
    SymbolLength(f, BlobSymbolEntry(len));
    TablesLie(f, p, entry, symbol, table, len);
    forall i | 0 <= i < |headers| ensures |headers[i]| == f.SectionSize() {
      SectionLength(f, s[i]);
    }
    HeadersLie(f.SectionSize(), headers);
    PartsPlanned(f, p, entry, symbol, table, headers, ObjectHeader(f, names, symbol, len), blob,
      Flatten(tables), Flatten(headers));
    FlattenAppend(tables, headers);
  }

  // ----- Reading an object -----

  lemma UpToNulExact(name: seq<byte>, rest: seq<byte>)
    requires NoNul(name)
    ensures UpToNul(name + [0] + rest) == name
    decreases |name|
  {
    if name == [] {
      assert ([] + [0] + rest)[0] == 0;
    } else {
      assert (name + [0] + rest)[1..] == name[1..] + [0] + rest;
      UpToNulExact(name[1..], rest);
    }
  }

  lemma NumberPrefix(order: Order, w: Width, s: seq<byte>, more: seq<byte>, at: nat)
    requires at + w.Size() <= |s|
    ensures NumberAt(order, w, s + more, at) == NumberAt(order, w, s, at)
  {
    assert (s + more)[at..at + w.Size()] == s[at..at + w.Size()];
  }

  lemma HeaderPrefix(wide: bool, order: Order, b: seq<byte>, more: seq<byte>)
    requires |b| >= if wide then 64 else 52
    ensures DecodeHeader(wide, order, b + more) == DecodeHeader(wide, order, b)
  {
    var word := if wide then W64 else W32;
    var w := word.Size();
    NumberPrefix(order, W16, b, more, 16);
    NumberPrefix(order, W16, b, more, 18);
    NumberPrefix(order, W32, b, more, 20);
    NumberPrefix(order, word, b, more, 24);
    NumberPrefix(order, word, b, more, 24 + w);
    NumberPrefix(order, word, b, more, 24 + 2 * w);
    NumberPrefix(order, W32, b, more, 24 + 3 * w);
    NumberPrefix(order, W16, b, more, 28 + 3 * w);
    NumberPrefix(order, W16, b, more, 30 + 3 * w);
    NumberPrefix(order, W16, b, more, 32 + 3 * w);
    NumberPrefix(order, W16, b, more, 34 + 3 * w);
    NumberPrefix(order, W16, b, more, 36 + 3 * w);
    NumberPrefix(order, W16, b, more, 38 + 3 * w);
  }

  lemma IdentificationLies(f: Format, h: ElfHeader)
    ensures LiesAt(Flatten(h.Cells(f)), 0, Identification(f))
  {
    CellLies(h.Cells(f), 0);
  }

  /** What follows the header does not matter to reading it. */
  lemma ElfReads(f: Format, h: ElfHeader, rest: seq<byte>)
    requires h.Fits(f)
    ensures ReadElf(Flatten(h.Cells(f)) + rest) == Some(Elf(f.wide, f.order, h))
  {
    var b, id := Flatten(h.Cells(f)), Identification(f);
    HeaderReads(f, h);
    HeaderPrefix(f.wide, f.order, b, rest);
    IdentificationLies(f, h);
    IdentificationReads(f, b, rest);
  }

  lemma IdentificationReads(f: Format, b: seq<byte>, rest: seq<byte>)
    requires |b| == DATA && LiesAt(b, 0, Identification(f))
    ensures (b + rest)[..4] == [0x7f, 0x45, 0x4c, 0x46] && (b + rest)[4] == (if f.wide then 2 else 1)
    ensures (b + rest)[5] == (if f.order == Big then 2 else 1) && (b + rest)[6] == 1
  {
    var id := Identification(f);
    assert forall i :: 0 <= i < 7 ==> (b + rest)[i] == b[i] == b[0..7][i] == id[i];
  }

  lemma SectionFound(f: Format, h: ElfHeader, obj: seq<byte>, i: nat, s: Section)
    requires s.Fits(f) && i < h.sectionCount
    requires LiesAt(obj, h.sectionHeaders + i * h.sectionSize, Flatten(s.Cells(f)))
    ensures SectionAt(obj, Elf(f.wide, f.order, h), i) == Some(s)
  {
    SectionReads(f, s);
    SectionIn(Elf(f.wide, f.order, h), obj, i, Flatten(s.Cells(f)));
  }

  lemma SectionIn(elf: Elf, obj: seq<byte>, i: nat, record: seq<byte>)
    requires |record| == elf.SectionSize() && i < elf.header.sectionCount
    requires LiesAt(obj, elf.header.sectionHeaders + i * elf.header.sectionSize, record)
    ensures SectionAt(obj, elf, i) == Some(DecodeSection(elf.wide, elf.order, record))
  {
  }

  lemma NullSectionFound(f: Format, h: ElfHeader, obj: seq<byte>)
    requires 0 < h.sectionCount && LiesAt(obj, h.sectionHeaders, Zeros(f.SectionSize()))
    ensures var s := SectionAt(obj, Elf(f.wide, f.order, h), 0); s.Some? && s.value.kind == 0
  {
    var b := Zeros(f.SectionSize());
    assert 0 * h.sectionSize == 0;
    ZerosValue(f.order, b[4..8]);
    assert NumberAt(f.order, W32, b, 4) == 0;
  }

  /** The sections a reader finds: a null one, then `s`. */
  ghost predicate Found(obj: seq<byte>, elf: Elf, s: seq<Section>) {
    && elf.header.sectionCount == 1 + |s|
    && SectionAt(obj, elf, 0).Some? && SectionAt(obj, elf, 0).value.kind == 0
    && forall i :: 0 <= i < |s| ==> SectionAt(obj, elf, i + 1) == Some(s[i])
  }

  lemma NextProduct(i: nat, size: nat)
    ensures (i + 1) * size == size + i * size
  {
  }

  lemma NthSectionFound(f: Format, h: ElfHeader, obj: seq<byte>, headers: seq<seq<byte>>, i: nat, s: Section)
    requires s.Fits(f) && i + 1 < h.sectionCount && h.sectionSize == f.SectionSize()
    requires i < |headers| && headers[i] == Flatten(s.Cells(f))
    requires HeadersPlanned(f.SectionSize(), headers, h.sectionHeaders + f.SectionSize(), obj)
    ensures SectionAt(obj, Elf(f.wide, f.order, h), i + 1) == Some(s)
  {
    NextProduct(i, h.sectionSize);
    assert LiesAt(obj, h.sectionHeaders + f.SectionSize() + i * f.SectionSize(), headers[i]);
    SectionFound(f, h, obj, i + 1, s);
  }

  lemma SectionsFound(f: Format, h: ElfHeader, obj: seq<byte>, s: seq<Section>, headers: seq<seq<byte>>)
    requires h.sectionCount == 1 + |s| && h.sectionSize == f.SectionSize()
    requires forall i :: 0 <= i < |s| ==> s[i].Fits(f)
    requires LiesAt(obj, h.sectionHeaders, Zeros(f.SectionSize()))
    requires |headers| == |s| && forall i :: 0 <= i < |s| ==> headers[i] == Flatten(s[i].Cells(f))
    requires HeadersPlanned(f.SectionSize(), headers, h.sectionHeaders + f.SectionSize(), obj)
    ensures Found(obj, Elf(f.wide, f.order, h), s)
  {
    var elf := Elf(f.wide, f.order, h);
    NullSectionFound(f, h, obj);
    forall i: nat | i < |s| ensures SectionAt(obj, elf, i + 1) == Some(s[i]) {
      NthSectionFound(f, h, obj, headers, i, s[i]);
    }
  }

  lemma SymtabFound(obj: seq<byte>, elf: Elf, s: seq<Section>)
    requires Found(obj, elf, s) && |s| == 5 && s[0].kind != SYMTAB && s[1].kind != SYMTAB && s[2].kind == SYMTAB
    ensures FindSymtab(obj, elf, 0) == Some(s[2])
  {
    assert SectionAt(obj, elf, 1) == Some(s[0]) && SectionAt(obj, elf, 2) == Some(s[1]);
    assert SectionAt(obj, elf, 3) == Some(s[2]);
    assert FindSymtab(obj, elf, 3) == Some(s[2]);
    assert FindSymtab(obj, elf, 2) == Some(s[2]);
    assert FindSymtab(obj, elf, 1) == Some(s[2]);
  }

  lemma ContentsLie(obj: seq<byte>, s: Section, data: seq<byte>)
    requires LiesAt(obj, s.offset, data) && s.size == |data|
    ensures Contents(obj, s) == Some(data)
  {
  }

  lemma SecondPart(a: seq<byte>, b: seq<byte>)
    ensures (a + b)[|a|..|a| + |b|] == b
  {
  }

  lemma SymbolFound(f: Format, h: ElfHeader, entry: Symbol, symbol: seq<byte>)
    requires entry.Fits(f) && entry.name == 1 && NoNul(symbol)
    ensures FindSymbol(
              Elf(f.wide, f.order, h), Zeros(f.SymbolSize()) + Flatten(entry.Cells(f)), [0] + (symbol + [0]),
              f.SymbolSize(), f.SymbolSize(), symbol) == Some(entry)
  {
    SymbolReads(f, entry);
    var entries, strings := Zeros(f.SymbolSize()) + Flatten(entry.Cells(f)), [0] + (symbol + [0]);
    SecondPart(Zeros(f.SymbolSize()), Flatten(entry.Cells(f)));
    assert strings[1..] == symbol + [0] + [];
    UpToNulExact(symbol, []);
  }

  /** The facts about the sections of an object that reading its symbol needs. */
  ghost predicate Sound(f: Format, entry: Symbol, s: seq<Section>, symbol: seq<byte>, blob: seq<byte>, obj: seq<byte>) {
    && |s| == 5 && s[0].kind != SYMTAB && s[1].kind != SYMTAB && s[2].kind == SYMTAB && s[2].link == 4
    && s[2].entrySize == f.SymbolSize()
    && s[2].size == f.SymbolSize() + f.SymbolSize()
    && LiesAt(obj, s[2].offset, Zeros(f.SymbolSize()) + Flatten(entry.Cells(f)))
    && s[3].size == |symbol| + 2 && LiesAt(obj, s[3].offset, [0] + (symbol + [0]))
    && s[0].size == |blob| && LiesAt(obj, s[0].offset, blob)
    && entry.name == 1 && entry.section == 1 && entry.value == 0 && entry.size == |blob|
  }

  lemma SymbolNamedIs(obj: seq<byte>, elf: Elf, name: seq<byte>, symtab: Section, strtab: Section,
    entries: seq<byte>, strings: seq<byte>, symbol: Symbol)
    ensures && FindSymtab(obj, elf, 0) == Some(symtab) && SectionAt(obj, elf, symtab.link) == Some(strtab)
            && Contents(obj, symtab) == Some(entries) && Contents(obj, strtab) == Some(strings)
            && FindSymbol(elf, entries, strings, symtab.entrySize, symtab.entrySize, name) == Some(symbol)
            ==> SymbolNamed(obj, elf, name) == Some(symbol)
  {
  }

  lemma DataOfIs(obj: seq<byte>, elf: Elf, symbol: Symbol, s: Section, data: seq<byte>)
    requires SectionAt(obj, elf, symbol.section) == Some(s) && LiesAt(obj, s.offset, data) && s.size == |data|
    requires symbol.value == 0 && symbol.size == |data|
    ensures DataOf(obj, elf, symbol) == Some(data)
  {
    assert data[0..|data|] == data;
  }

  lemma SymbolNamedReads(f: Format, h: ElfHeader, entry: Symbol, s: seq<Section>, symbol: seq<byte>, blob: seq<byte>,
    obj: seq<byte>)
    requires entry.Fits(f) && NoNul(symbol)
    ensures Found(obj, Elf(f.wide, f.order, h), s) && Sound(f, entry, s, symbol, blob, obj) ==>
              SymbolNamed(obj, Elf(f.wide, f.order, h), symbol) == Some(entry)
  {
    var elf := Elf(f.wide, f.order, h);
    if Found(obj, elf, s) && Sound(f, entry, s, symbol, blob, obj) {
      var entries, strings := Zeros(f.SymbolSize()) + Flatten(entry.Cells(f)), [0] + (symbol + [0]);
      SymtabFound(obj, elf, s);
      assert SectionAt(obj, elf, 3 + 1) == Some(s[3]);
      SymbolLength(f, entry);
      ContentsLie(obj, s[2], entries);
      ContentsLie(obj, s[3], strings);
      SymbolFound(f, h, entry, symbol);
      SymbolNamedIs(obj, elf, symbol, s[2], s[3], entries, strings, entry);
    }
  }

  lemma SoundReads(f: Format, h: ElfHeader, entry: Symbol, s: seq<Section>, symbol: seq<byte>, blob: seq<byte>,
    rest: seq<byte>, obj: seq<byte>)
    requires h.Fits(f) && entry.Fits(f) && NoNul(symbol) && obj == Flatten(h.Cells(f)) + rest
    ensures Found(obj, Elf(f.wide, f.order, h), s) && Sound(f, entry, s, symbol, blob, obj) ==>
              ReadObject(obj, symbol) == Some(blob)
  {
    var elf := Elf(f.wide, f.order, h);
    if Found(obj, elf, s) && Sound(f, entry, s, symbol, blob, obj) {
      ElfReads(f, h, rest);
      SymbolNamedReads(f, h, entry, s, symbol, blob, obj);
      assert SectionAt(obj, elf, 0 + 1) == Some(s[0]);
      DataOfIs(obj, elf, entry, s[0], blob);
    }
  }

  lemma PlannedSound(f: Format, p: Plan, names: seq<nat>, symbol: seq<byte>, table: seq<byte>,
    headers: seq<seq<byte>>, header: seq<byte>, blob: seq<byte>, obj: seq<byte>)
    requires |names| == 5 && p == PlanOf(f, |symbol|, |table|, |blob|)
    requires Planned(f, p, Flatten(BlobSymbolEntry(|blob|).Cells(f)), symbol, table, headers, header, blob, obj)
    ensures Sound(f, BlobSymbolEntry(|blob|), Sections(f, names, |table|, |symbol|, |blob|), symbol, blob, obj)
  {
  }

  // ----- The object that is written -----

  function PlanFor(f: Format, names: seq<seq<byte>>, symbol: seq<byte>, len: nat): Plan {
    PlanOf(f, |symbol|, |NameTable(names)|, len)
  }

  function HeaderFor(f: Format, names: seq<seq<byte>>, symbol: seq<byte>, len: nat): ElfHeader {
    HeaderOf(f, PlanFor(f, names, symbol, len).sectionHeaders)
  }

  function SectionsFor(f: Format, names: seq<seq<byte>>, symbol: seq<byte>, len: nat): (s: seq<Section>)
    requires |names| == 5
    ensures |s| == 5
  {
    Sections(f, NameOffsets(names), |NameTable(names)|, |symbol|, len)
  }

  lemma RecordsFit(f: Format, names: seq<seq<byte>>, symbol: seq<byte>, len: nat)
    requires AreNames(names) && Fits(f, names, |symbol|, len)
    ensures HeaderFor(f, names, symbol, len).Fits(f) && BlobSymbolEntry(len).Fits(f)
    ensures forall i :: 0 <= i < 5 ==> SectionsFor(f, names, symbol, len)[i].Fits(f)
  {
    SectionsFit(f, names, |symbol|, len);
  }

  /** The sections a reader finds in an object are those planned. */
  lemma ObjectFound(f: Format, names: seq<seq<byte>>, symbol: seq<byte>, blob: seq<byte>)
    requires AreNames(names) && Fits(f, names, |symbol|, |blob|)
    ensures Found(
              ObjectOf(f, names, symbol, blob), Elf(f.wide, f.order, HeaderFor(f, names, symbol, |blob|)),
              SectionsFor(f, names, symbol, |blob|))
  {
    var s, obj := SectionsFor(f, names, symbol, |blob|), ObjectOf(f, names, symbol, blob);
    ObjectPlanned(f, names, symbol, blob);
    RecordsFit(f, names, symbol, |blob|);
    PlannedFound(f, PlanFor(f, names, symbol, |blob|), HeaderFor(f, names, symbol, |blob|), s,
      Flatten(BlobSymbolEntry(|blob|).Cells(f)), symbol, NameTable(names), SectionParts(f, s),
      ObjectHeader(f, names, symbol, |blob|), blob, obj);
  }

  lemma PlannedFound(f: Format, p: Plan, h: ElfHeader, s: seq<Section>, entry: seq<byte>, symbol: seq<byte>,
    table: seq<byte>, headers: seq<seq<byte>>, header: seq<byte>, blob: seq<byte>, obj: seq<byte>)
    requires Planned(f, p, entry, symbol, table, headers, header, blob, obj)
    requires |headers| == |s| && forall i :: 0 <= i < |s| ==> headers[i] == Flatten(s[i].Cells(f))
    requires forall i :: 0 <= i < |s| ==> s[i].Fits(f)
    requires h.sectionHeaders == p.sectionHeaders && h.sectionSize == f.SectionSize() && h.sectionCount == 1 + |s|
    ensures Found(obj, Elf(f.wide, f.order, h), s)
  {
    SectionsFound(f, h, obj, s, headers);
  }

  lemma ObjectSound(f: Format, names: seq<seq<byte>>, symbol: seq<byte>, blob: seq<byte>)
    requires |names| == 5
    ensures Sound(f, BlobSymbolEntry(|blob|), SectionsFor(f, names, symbol, |blob|), symbol, blob,
              ObjectOf(f, names, symbol, blob))
  {
    ObjectPlanned(f, names, symbol, blob);
    PlannedSound(f, PlanFor(f, names, symbol, |blob|), NameOffsets(names), symbol, NameTable(names),
      SectionParts(f, SectionsFor(f, names, symbol, |blob|)), ObjectHeader(f, names, symbol, |blob|), blob,
      ObjectOf(f, names, symbol, blob));
  }

  lemma ObjectSplit(f: Format, names: seq<seq<byte>>, symbol: seq<byte>, blob: seq<byte>) returns (rest: seq<byte>)
    requires |names| == 5
    ensures ObjectOf(f, names, symbol, blob) == Flatten(HeaderFor(f, names, symbol, |blob|).Cells(f)) + rest
  {
    rest := blob + Flatten(TrailerParts(f, names, symbol, |blob|));
  }

  /** Reading the symbol of an object gives the blob, byte for byte. */
  lemma ObjectReads(f: Format, names: seq<seq<byte>>, symbol: seq<byte>, blob: seq<byte>)
    requires AreNames(names) && Fits(f, names, |symbol|, |blob|) && NoNul(symbol)
    ensures ReadObject(ObjectOf(f, names, symbol, blob), symbol) == Some(blob)
  {
    RecordsFit(f, names, symbol, |blob|);
    ObjectFound(f, names, symbol, blob);
    ObjectSound(f, names, symbol, blob);
    var rest := ObjectSplit(f, names, symbol, blob);
    SoundReads(f, HeaderFor(f, names, symbol, |blob|), BlobSymbolEntry(|blob|), SectionsFor(f, names, symbol, |blob|),
      symbol, blob, rest, ObjectOf(f, names, symbol, blob));
  }

  lemma SectionsFit(f: Format, names: seq<seq<byte>>, symbol: nat, len: nat)
    requires AreNames(names)
    requires PlanOf(f, symbol, |NameTable(names)|, len).sectionHeaders < f.Word().Limit()
    ensures var s := Sections(f, NameOffsets(names), |NameTable(names)|, symbol, len);
            forall i :: 0 <= i < 5 ==> s[i].Fits(f)
  {
    var s := Sections(f, NameOffsets(names), |NameTable(names)|, symbol, len);
    forall i | 0 <= i < 5 ensures s[i].Fits(f) {
      NameOffsetsFit(names, i);
      SectionFits(f, NameOffsets(names), |NameTable(names)|, symbol, len, i);
    }
  }

  // ----- Sections -----

  function ElfFor(f: Format, names: seq<seq<byte>>, symbol: seq<byte>, len: nat): Elf {
    Elf(f.wide, f.order, HeaderFor(f, names, symbol, len))
  }

  /** `s` ends where `t` starts or before, and starts at a multiple of its alignment. */
  predicate Before(s: Section, t: nat) {
    s.offset + s.size <= t && s.alignment > 0 && s.offset % s.alignment == 0
  }

  /**
   The sections a reader finds are disjoint: the header, then each section aligned and behind the one
   before, then the section headers, which end the object.
   */
  lemma SectionsDisjoint(f: Format, names: seq<seq<byte>>, symbol: seq<byte>, blob: seq<byte>)
    requires AreNames(names) && Fits(f, names, |symbol|, |blob|)
    ensures var obj := ObjectOf(f, names, symbol, blob);
            && ReadElf(obj).Some?
            && var elf := ReadElf(obj).value;
            && elf.header.sectionCount == 6 && elf.header.headerSize <= DATA
            && (forall i :: 0 <= i < 6 ==> SectionAt(obj, elf, i).Some?)
            && SectionAt(obj, elf, 1).value.offset == DATA
            && (forall i :: 1 <= i < 5 ==>
                  Before(SectionAt(obj, elf, i).value, SectionAt(obj, elf, i + 1).value.offset))
            && Before(SectionAt(obj, elf, 5).value, elf.header.sectionHeaders)
            && elf.header.sectionHeaders % 8 == 0
            && elf.header.sectionHeaders + 6 * elf.header.sectionSize == |obj|
  {
    var obj, elf := ObjectOf(f, names, symbol, blob), ElfFor(f, names, symbol, |blob|);
    var s := SectionsFor(f, names, symbol, |blob|);
    RecordsFit(f, names, symbol, |blob|);
    ObjectFound(f, names, symbol, blob);
    ObjectLengthExact(f, names, symbol, |blob|);
    var rest := ObjectSplit(f, names, symbol, blob);
    ElfReads(f, HeaderFor(f, names, symbol, |blob|), rest);
    PlanOrdered(f, NameOffsets(names), |NameTable(names)|, |symbol|, |blob|);
    FoundAt(obj, elf, s);
  }

  lemma FoundAt(obj: seq<byte>, elf: Elf, s: seq<Section>)
    requires Found(obj, elf, s)
    ensures forall i :: 0 <= i <= |s| ==> SectionAt(obj, elf, i).Some?
    ensures forall i :: 1 <= i <= |s| ==> SectionAt(obj, elf, i).value == s[i - 1]
  {
    forall i | 1 <= i <= |s| ensures SectionAt(obj, elf, i) == Some(s[i - 1]) {
      assert SectionAt(obj, elf, (i - 1) + 1) == Some(s[i - 1]);
    }
  }

  lemma PlanOrdered(f: Format, names: seq<nat>, table: nat, symbol: nat, len: nat)
    requires |names| == 5
    ensures var s, p := Sections(f, names, table, symbol, len), PlanOf(f, symbol, table, len);
            && s[0].offset == DATA && (forall i :: 0 <= i < 4 ==> Before(s[i], s[i + 1].offset))
            && Before(s[4], p.sectionHeaders)
  {
  }

  lemma {:induction false} NameTableSplit(names: seq<seq<byte>>, i: nat) returns (rest: seq<byte>)
    requires i < |names|
    ensures NameTable(names) == NameTable(names[..i]) + (names[i] + [0] + rest)
    decreases |names|
  {
    var front := names[..|names| - 1];
    if i == |names| - 1 {
      rest := [];
      assert NameTable(names) == NameTable(front) + names[i] + [0];
    } else {
      var more := NameTableSplit(front, i);
      rest := more + names[|names| - 1] + [0];
      assert front[..i] == names[..i];
    }
  }

  lemma NameTableLies(f: Format, names: seq<seq<byte>>, symbol: seq<byte>, blob: seq<byte>)
    requires |names| == 5
    ensures var s := SectionsFor(f, names, symbol, |blob|)[4];
            s.size == |NameTable(names)| && LiesAt(ObjectOf(f, names, symbol, blob), s.offset, NameTable(names))
  {
    ObjectPlanned(f, names, symbol, blob);
  }

  lemma FoundNamed(obj: seq<byte>, elf: Elf, s: seq<Section>, table: seq<byte>, i: nat, name: seq<byte>)
    requires Found(obj, elf, s) && |s| == 5 && elf.header.nameSection == 5 && i < 5
    requires s[4].size == |table| && LiesAt(obj, s[4].offset, table) && StringAt(table, s[i].name) == name
    ensures SectionName(obj, elf, i + 1) == Some(name)
  {
    assert SectionAt(obj, elf, 4 + 1) == Some(s[4]);
    ContentsLie(obj, s[4], table);
    assert NamesOf(obj, elf) == Some(table);
    assert SectionAt(obj, elf, i + 1) == Some(s[i]);
  }

  /** Each section carries its name. */
  lemma SectionsNamed(f: Format, names: seq<seq<byte>>, symbol: seq<byte>, blob: seq<byte>, i: nat)
    requires AreNames(names) && Fits(f, names, |symbol|, |blob|) && i < 5
    ensures SectionName(ObjectOf(f, names, symbol, blob), ElfFor(f, names, symbol, |blob|), i + 1) == Some(names[i])
  {
    ObjectFound(f, names, symbol, blob);
    NameTableLies(f, names, symbol, blob);
    NameReads(names, i);
    SectionNameAt(f, NameOffsets(names), |NameTable(names)|, |symbol|, |blob|, i);
    FoundNamed(ObjectOf(f, names, symbol, blob), ElfFor(f, names, symbol, |blob|),
      SectionsFor(f, names, symbol, |blob|), NameTable(names), i, names[i]);
  }

  lemma SectionNameAt(f: Format, offsets: seq<nat>, table: nat, symbol: nat, len: nat, i: nat)
    requires |offsets| == 5 && i < 5
    ensures Sections(f, offsets, table, symbol, len)[i].name == offsets[i]
  {
  }

  lemma NameReads(names: seq<seq<byte>>, i: nat)
    requires i < |names| && NoNul(names[i])
    ensures StringAt(NameTable(names), NameOffset(names, i)) == names[i]
  {
    var rest := NameTableSplit(names, i);
    assert NameTable(names)[NameOffset(names, i)..] == names[i] + [0] + rest;
    UpToNulExact(names[i], rest);
  }
}

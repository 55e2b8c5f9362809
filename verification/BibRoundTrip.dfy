/**
 Entries printed by `bib_entry` (scripts/biber_fuzz.py) are read back by `Database::add`
 (crates/tex-biber/src/bib.rs).
 */
module BibRoundTrip {
  import opened Wrappers
  import opened BibSpaces
  import opened BibSyntax

  // ----- The printer -----

  datatype Printed = Printed(kind: string, key: string, fields: seq<(string, string)>)

  function FieldText(field: (string, string)): string {
    [' ', ' '] + field.0 + [' ', '=', ' ', '{'] + field.1 + ['}', ',', '\n']
  }

  function FieldsText(fields: seq<(string, string)>): string {
    if fields == [] then [] else FieldText(fields[0]) + FieldsText(fields[1..])
  }

  function EntryText(e: Printed): string {
    ['@'] + e.kind + ['{'] + e.key + [',', '\n'] + FieldsText(e.fields) + ['}', '\n']
  }

  function Text(entries: seq<Printed>): string {
    if entries == [] then [] else EntryText(entries[0]) + Text(entries[1..])
  }

  // ----- What can be printed -----

  predicate IsWord(s: string) {
    (forall i :: 0 <= i < |s| ==> IsNameChar(s[i])) && (s != [] ==> s[0] != '%')
  }

  predicate IsName(s: string) {
    s != [] && IsWord(s)
  }

  /** Braces match, but for those behind a backslash, from `depth` open ones. */
  predicate Balances(s: string, depth: nat, escaped: bool) {
    if s == [] then depth == 0 && !escaped
    else if escaped then Balances(s[1..], depth, false)
    else if s[0] == '\\' then Balances(s[1..], depth, true)
    else if s[0] == '{' then Balances(s[1..], depth + 1, false)
    else if s[0] == '}' then depth > 0 && Balances(s[1..], depth - 1, false)
    else Balances(s[1..], depth, false)
  }

  predicate LegalField(language: Language, field: (string, string)) {
    IsName(field.0) && language.lower(field.0) == field.0 && Balances(field.1, 0, false)
  }

  predicate Legal(language: Language, e: Printed) {
    && IsWord(e.kind) && language.lower(e.kind) == e.kind
    && e.kind != COMMENT && e.kind != PREAMBLE && e.kind != STRING
    && IsName(e.key)
    && forall i :: 0 <= i < |e.fields| ==> LegalField(language, e.fields[i])
  }

  /** The value is left as it is when it is read. */
  predicate Settled(language: Language, value: string) {
    Normal(value) && language.decompose(value) == value
  }

  // ----- What is read -----

  function WithFields(language: Language, entry: Entry, fields: seq<(string, string)>): Entry
    decreases |fields|
  {
    if fields == [] then entry
    else WithFields(language, WithField(entry, fields[0].0, Kept(language, fields[0].1)), fields[1..])
  }

  function EntryOf(ctx: Context, e: Printed): Entry {
    WithFields(ctx.language, Entry(e.key, e.kind, ctx.source, map[]), e.fields)
  }

  function AddedAll(ctx: Context, db: State, entries: seq<Printed>): State
    decreases |entries|
  {
    if entries == [] then db else AddedAll(ctx, Added(ctx, db, EntryOf(ctx, entries[0])), entries[1..])
  }

  // ----- Names and values -----

  lemma SpaceStops(s: string)
    requires s != [] && !Splitting.IsWhitespace(s[0]) && s[0] != '%'
    ensures AfterSpace(s) == s
  {
  }

  lemma {:induction false} NameEndExact(name: string, rest: string)
    requires (forall i :: 0 <= i < |name| ==> IsNameChar(name[i])) && rest != [] && !IsNameChar(rest[0])
    ensures NameEnd(name + rest) == |name|
    decreases |name|
  {
    if name == [] {
      assert name + rest == rest;
    } else {
      assert (name + rest)[1..] == name[1..] + rest;
      NameEndExact(name[1..], rest);
    }
  }

  /** A name is read back from before a delimiter. */
  lemma NameExact(name: string, rest: string)
    requires IsWord(name) && rest != [] && !IsNameChar(rest[0])
    requires name == [] ==> !Splitting.IsWhitespace(rest[0]) && rest[0] != '%'
    ensures Name(name + rest) == name && AfterName(name + rest) == rest
  {
    var s := name + rest;
    assert name == [] ==> s == rest;
    assert name != [] ==> s[0] == name[0];
    SpaceStops(s);
    NameEndExact(name, rest);
    assert s[..|name|] == name && s[|name|..] == rest;
  }

  /** A value in braces is read back as itself exactly when its braces match. */
  lemma {:induction false} CloseExact(value: string, depth: nat, escaped: bool, rest: string)
    ensures CloseAt(value + ['}'] + rest, '{', '}', depth + 1, escaped) == Some(|value|) <==> Balances(value, depth, escaped)
    decreases |value|
  {
    var s := value + ['}'] + rest;
    if value == [] {
      assert s[0] == '}';
      assert s[1..] == rest;
    } else {
      assert s[0] == value[0] && s[1..] == value[1..] + ['}'] + rest;
      if escaped {
        CloseExact(value[1..], depth, false, rest);
      } else if value[0] == '\\' {
        CloseExact(value[1..], depth, true, rest);
      } else if value[0] == '{' {
        CloseExact(value[1..], depth + 1, false, rest);
      } else if value[0] == '}' {
        if depth > 0 {
          CloseExact(value[1..], depth - 1, false, rest);
        }
      } else {
        CloseExact(value[1..], depth, false, rest);
      }
    }
  }

  lemma BalancedExact(value: string, rest: string)
    requires Balances(value, 0, false)
    ensures Balanced(['{'] + (value + ['}'] + rest), '{', '}') == Ok(Parsed(value, rest))
  {
    var inner := value + ['}'] + rest;
    var s := ['{'] + inner;
    assert s[1..] == inner;
    CloseExact(value, 0, false, rest);
    assert inner[..|value|] == value && inner[|value| + 1..] == rest;
  }

  lemma PartExact(ctx: Context, macros: map<string, string>, value: string, rest: string)
    requires Balances(value, 0, false) && StartsWith(rest, ',')
    ensures NextPart(ctx, macros, [' '] + (['{'] + (value + ['}'] + rest)))
            == Joint(Read(Ok(Parsed(value, rest)), []), false)
  {
    var braced := ['{'] + (value + ['}'] + rest);
    var s := [' '] + braced;
    assert s[1..] == braced;
    SpaceStops(braced);
    BalancedExact(value, rest);
    SpaceStops(rest);
  }

  lemma ValueExact(ctx: Context, macros: map<string, string>, value: string, rest: string)
    requires Balances(value, 0, false) && StartsWith(rest, ',')
    ensures Value(ctx, macros, [' '] + (['{'] + (value + ['}'] + rest))) == Read(Ok(Parsed(value, rest)), [])
  {
    PartExact(ctx, macros, value, rest);
    OnePart(ctx, macros, [' '] + (['{'] + (value + ['}'] + rest)), value, rest);
  }

  lemma OnePart(ctx: Context, macros: map<string, string>, s: string, value: string, rest: string)
    requires NextPart(ctx, macros, s) == Joint(Read(Ok(Parsed(value, rest)), []), false)
    ensures Value(ctx, macros, s) == Read(Ok(Parsed(value, rest)), [])
  {
    assert [] + value == value;
  }

  // ----- Fields -----

  lemma FieldExact(ctx: Context, db: State, entry: Entry, field: (string, string), rest: string)
    requires LegalField(ctx.language, field) && StartsWith(rest, ',')
    ensures Field(ctx, db, entry, field.0 + ([' ', '='] + ([' '] + (['{'] + (field.1 + ['}'] + rest)))))
            == FieldRead(db, Ok(Extended(WithField(entry, field.0, Kept(ctx.language, field.1)), rest)))
  {
    var value := [' '] + (['{'] + (field.1 + ['}'] + rest));
    var equals := [' ', '='] + value;
    NameExact(field.0, equals);
    assert equals[1..][0] == '=' && equals[1..][1..] == value;
    SpaceStops(equals[1..]);
    assert AfterSpace(equals) == equals[1..];
    ValueExact(ctx, db.macros, field.1, rest);
    SpaceStops(rest);
    assert db.warnings + [] == db.warnings;
  }

  lemma FieldTextSplit(field: (string, string), more: string)
    ensures ['\n'] + (FieldText(field) + more)
            == ['\n', ' ', ' ']
               + (field.0 + ([' ', '='] + ([' '] + (['{'] + (field.1 + ['}'] + ([',', '\n'] + more))))))
  {
  }

  lemma IndentSkipped(s: string)
    requires s != [] && !Splitting.IsWhitespace(s[0]) && s[0] != '%'
    ensures AfterSpace(['\n', ' ', ' '] + s) == s
  {
    var a := ['\n', ' ', ' '] + s;
    assert a[1..][1..][1..] == s;
    SpaceStops(s);
    assert AfterSpace(a[1..][1..]) == s;
    assert AfterSpace(a[1..]) == s;
  }

  lemma FieldStep(ctx: Context, db: State, entry: Entry, field: (string, string), more: string)
    requires LegalField(ctx.language, field)
    ensures Fields(ctx, db, '}', entry, ['\n'] + (FieldText(field) + more))
            == Fields(ctx, db, '}', WithField(entry, field.0, Kept(ctx.language, field.1)), ['\n'] + more)
  {
    var rest := [',', '\n'] + more;
    var start := field.0 + ([' ', '='] + ([' '] + (['{'] + (field.1 + ['}'] + rest))));
    FieldTextSplit(field, more);
    assert start[0] == field.0[0];
    IndentSkipped(start);
    FieldExact(ctx, db, entry, field, rest);
    assert rest[1..] == ['\n'] + more;
    FieldsUnfold(ctx, db, entry, ['\n', ' ', ' '] + start, start,
      FieldRead(db, Ok(Extended(WithField(entry, field.0, Kept(ctx.language, field.1)), rest))));
  }

  lemma FieldsUnfold(ctx: Context, db: State, entry: Entry, s: string, start: string, read: FieldRead)
    requires AfterSpace(s) == start && !StartsWith(start, '}') && Field(ctx, db, entry, start) == read
    requires read.result.Ok? && StartsWith(read.result.value.rest, ',')
    ensures Fields(ctx, db, '}', entry, s)
            == Fields(ctx, read.state, '}', read.result.value.entry, read.result.value.rest[1..])
  {
  }

  lemma {:induction false} FieldsExact(ctx: Context, db: State, entry: Entry, fields: seq<(string, string)>, rest: string)
    requires forall i :: 0 <= i < |fields| ==> LegalField(ctx.language, fields[i])
    ensures Fields(ctx, db, '}', entry, ['\n'] + (FieldsText(fields) + (['}'] + rest)))
            == Next(Added(ctx, db, WithFields(ctx.language, entry, fields)), rest)
    decreases |fields|
  {
    if fields == [] {
      var close := ['}'] + rest;
      var s := ['\n'] + close;
      assert [] + close == close;
      assert s[1..] == close;
      SpaceStops(close);
      assert close[1..] == rest;
    } else {
      var more := FieldsText(fields[1..]) + (['}'] + rest);
      assert FieldsText(fields) + (['}'] + rest) == FieldText(fields[0]) + more;
      FieldStep(ctx, db, entry, fields[0], more);
      FieldsExact(ctx, db, WithField(entry, fields[0].0, Kept(ctx.language, fields[0].1)), fields[1..], rest);
    }
  }

  // ----- Entries -----

  lemma BodyExact(ctx: Context, db: State, e: Printed, rest: string)
    requires Legal(ctx.language, e)
    ensures EntryBody(ctx, db, e.kind, '}', e.key + ([','] + (['\n'] + (FieldsText(e.fields) + (['}'] + rest)))))
            == Next(Added(ctx, db, EntryOf(ctx, e)), rest)
  {
    var fields := ['\n'] + (FieldsText(e.fields) + (['}'] + rest));
    var comma := [','] + fields;
    NameExact(e.key, comma);
    SpaceStops(comma);
    assert comma[1..] == fields;
    FieldsExact(ctx, db, Entry(e.key, e.kind, ctx.source, map[]), e.fields, rest);
  }

  lemma EntryExact(ctx: Context, db: State, e: Printed, rest: string)
    requires Legal(ctx.language, e)
    ensures Item(ctx, db, e.kind + (['{'] + (e.key + ([','] + (['\n'] + (FieldsText(e.fields) + (['}'] + rest)))))))
            == Next(Added(ctx, db, EntryOf(ctx, e)), rest)
  {
    var body := e.key + ([','] + (['\n'] + (FieldsText(e.fields) + (['}'] + rest))));
    var start := ['{'] + body;
    NameExact(e.kind, start);
    SpaceStops(start);
    assert start[1..] == body && body[0] == e.key[0];
    SpaceStops(body);
    BodyExact(ctx, db, e, rest);
    ItemIs(ctx, db, e.kind + start, e.kind, start, body);
  }

  lemma ItemIs(ctx: Context, db: State, s: string, kind: string, start: string, body: string)
    requires ctx.language.lower(Name(s)) == kind && kind != COMMENT && kind != PREAMBLE && kind != STRING
    requires AfterSpace(AfterName(s)) == start && StartsWith(start, '{') && AfterSpace(start[1..]) == body
    ensures Item(ctx, db, s) == EntryBody(ctx, db, kind, '}', body)
  {
  }

  lemma EntryTextSplit(e: Printed, more: string)
    ensures EntryText(e) + more
            == ['@'] + (e.kind + (['{'] + (e.key + ([','] + (['\n'] + (FieldsText(e.fields) + (['}'] + (['\n'] + more))))))))
  {
    var fields := FieldsText(e.fields);
    assert [',', '\n'] + fields + ['}', '\n'] + more == [','] + (['\n'] + (fields + (['}'] + (['\n'] + more))));
    Nested(['@'], e.kind, ['{'], e.key, [',', '\n'], fields, ['}', '\n'], more);
  }

  lemma Nested(a: string, b: string, c: string, d: string, x: string, y: string, z: string, more: string)
    ensures a + b + c + d + x + y + z + more == a + (b + (c + (d + (x + y + z + more))))
  {
    assert a + b + c + d + x + y + z + more == a + b + c + d + (x + y + z + more);
    assert a + b + c + d + (x + y + z + more) == a + b + (c + (d + (x + y + z + more)));
  }

  lemma EntryStep(ctx: Context, db: State, e: Printed, more: string)
    requires Legal(ctx.language, e)
    ensures AddAll(ctx, db, EntryText(e) + more) == AddAll(ctx, Added(ctx, db, EntryOf(ctx, e)), more)
  {
    var rest := ['\n'] + more;
    var item := e.kind + (['{'] + (e.key + ([','] + (['\n'] + (FieldsText(e.fields) + (['}'] + rest))))));
    EntryTextSplit(e, more);
    EntryExact(ctx, db, e, rest);
    ItemUnfold(ctx, db, item, Added(ctx, db, EntryOf(ctx, e)), rest);
    assert rest[1..] == more;
  }

  lemma ItemUnfold(ctx: Context, db: State, item: string, next: State, rest: string)
    requires Item(ctx, db, item) == Next(next, rest) && rest != [] && rest[0] != '@'
    ensures AddAll(ctx, db, ['@'] + item) == AddAll(ctx, next, rest[1..])
  {
    var s := ['@'] + item;
    assert s[1..] == item;
    assert Items(ctx)(db, item) == Next(next, rest);
    assert AddAllBy(Items(ctx), db, s) == AddAllBy(Items(ctx), next, rest);
    assert AddAllBy(Items(ctx), next, rest) == AddAllBy(Items(ctx), next, rest[1..]);
  }

  /** Reading what was printed adds the printed entries in order, and meets no error. */
  lemma {:induction false} PrintedRead(ctx: Context, db: State, entries: seq<Printed>)
    requires forall i :: 0 <= i < |entries| ==> Legal(ctx.language, entries[i])
    ensures AddAll(ctx, db, Text(entries)) == Outcome(AddedAll(ctx, db, entries), None)
    decreases |entries|
  {
    if entries != [] {
      EntryStep(ctx, db, entries[0], Text(entries[1..]));
      PrintedRead(ctx, Added(ctx, db, EntryOf(ctx, entries[0])), entries[1..]);
    }
  }

  // ----- The database afterwards -----

  predicate DistinctNames(fields: seq<(string, string)>) {
    forall i, j :: 0 <= i < j < |fields| ==> fields[i].0 != fields[j].0
  }

  /** The fields of an entry read are those printed, if their values are settled and their names differ. */
  ghost predicate SameFields(entry: Entry, fields: seq<(string, string)>) {
    && (forall i :: 0 <= i < |fields| ==> fields[i].0 in entry.fields && entry.fields[fields[i].0] == fields[i].1)
    && forall name :: name in entry.fields ==> exists i :: 0 <= i < |fields| && fields[i].0 == name
  }

  lemma {:induction false} WithFieldsKept(language: Language, entry: Entry, fields: seq<(string, string)>)
    ensures var e := WithFields(language, entry, fields);
            && e.key == entry.key && e.kind == entry.kind && e.source == entry.source
            && (forall name :: name in entry.fields ==> name in e.fields && e.fields[name] == entry.fields[name])
            && forall name :: name in e.fields ==>
                 name in entry.fields || exists i :: 0 <= i < |fields| && fields[i].0 == name
    decreases |fields|
  {
    if fields != [] {
      var next := WithField(entry, fields[0].0, Kept(language, fields[0].1));
      WithFieldsKept(language, next, fields[1..]);
      var e := WithFields(language, entry, fields);
      forall name | name in e.fields
        ensures name in entry.fields || exists i :: 0 <= i < |fields| && fields[i].0 == name
      {
        if name !in next.fields {
          var i :| 0 <= i < |fields[1..]| && fields[1..][i].0 == name;
          assert fields[i + 1].0 == name;
        } else if name !in entry.fields {
          assert fields[0].0 == name;
        }
      }
    }
  }

  lemma {:induction false} WithFieldsValues(language: Language, entry: Entry, fields: seq<(string, string)>)
    requires DistinctNames(fields) && forall i :: 0 <= i < |fields| ==> fields[i].0 !in entry.fields
    ensures var e := WithFields(language, entry, fields);
            forall i :: 0 <= i < |fields| ==>
              fields[i].0 in e.fields && e.fields[fields[i].0] == Kept(language, fields[i].1)
    decreases |fields|
  {
    if fields != [] {
      var next := WithField(entry, fields[0].0, Kept(language, fields[0].1));
      WithFieldsKept(language, next, fields[1..]);
      assert forall i :: 0 < i < |fields| ==> fields[i] == fields[1..][i - 1];
      WithFieldsValues(language, next, fields[1..]);
    }
  }

  /** An entry is read with each value settled; the values are those printed exactly when they were settled. */
  lemma EntryFields(ctx: Context, e: Printed)
    requires DistinctNames(e.fields)
    ensures SameFields(EntryOf(ctx, e), e.fields)
            <==> forall i :: 0 <= i < |e.fields| ==> Kept(ctx.language, e.fields[i].1) == e.fields[i].1
  {
    var start := Entry(e.key, e.kind, ctx.source, map[]);
    WithFieldsKept(ctx.language, start, e.fields);
    WithFieldsValues(ctx.language, start, e.fields);
  }

  lemma SettledKept(language: Language, value: string)
    requires Settled(language, value)
    ensures Kept(language, value) == value
  {
    NormalIffUnchanged(value);
  }

  /** Keys differ from each other and from those there. */
  ghost predicate FreshKeys(db: State, entries: seq<Printed>) {
    && (forall i, j :: 0 <= i < j < |entries| ==> entries[i].key != entries[j].key)
    && forall i :: 0 <= i < |entries| ==> !HasKey(db.entries, entries[i].key)
  }

  function EntriesOf(ctx: Context, entries: seq<Printed>): (r: seq<Entry>)
    ensures |r| == |entries| && forall i :: 0 <= i < |r| ==> r[i] == EntryOf(ctx, entries[i])
  {
    if entries == [] then [] else [EntryOf(ctx, entries[0])] + EntriesOf(ctx, entries[1..])
  }

  lemma EntryKey(ctx: Context, e: Printed)
    ensures EntryOf(ctx, e).key == e.key && EntryOf(ctx, e).kind == e.kind && EntryOf(ctx, e).source == ctx.source
  {
    WithFieldsKept(ctx.language, Entry(e.key, e.kind, ctx.source, map[]), e.fields);
  }

  lemma StillFresh(ctx: Context, db: State, entries: seq<Printed>)
    requires entries != [] && FreshKeys(db, entries)
    ensures Added(ctx, db, EntryOf(ctx, entries[0])) == db.(entries := db.entries + [EntryOf(ctx, entries[0])])
    ensures FreshKeys(Added(ctx, db, EntryOf(ctx, entries[0])), entries[1..])
  {
    var entry := EntryOf(ctx, entries[0]);
    EntryKey(ctx, entries[0]);
    forall i | 0 <= i < |entries[1..]| ensures !HasKey(db.entries + [entry], entries[1..][i].key) {
      assert entries[1..][i] == entries[i + 1];
      var key := entries[i + 1].key;
      forall k | 0 <= k < |db.entries + [entry]| ensures (db.entries + [entry])[k].key != key {
        if k < |db.entries| {
          assert (db.entries + [entry])[k] == db.entries[k];
          assert !HasKey(db.entries, key);
        }
      }
    }
  }

  lemma {:induction false} AllAdded(ctx: Context, db: State, entries: seq<Printed>)
    requires FreshKeys(db, entries)
    ensures AddedAll(ctx, db, entries) == db.(entries := db.entries + EntriesOf(ctx, entries))
    decreases |entries|
  {
    if entries == [] {
      assert db.entries + [] == db.entries;
    } else {
      var entry := EntryOf(ctx, entries[0]);
      var next := db.(entries := db.entries + [entry]);
      StillFresh(ctx, db, entries);
      AllAdded(ctx, next, entries[1..]);
      OneFirst(db.entries, entry, EntriesOf(ctx, entries[1..]));
    }
  }

  lemma OneFirst<T>(a: seq<T>, x: T, b: seq<T>)
    ensures a + [x] + b == a + ([x] + b)
  {
  }

  /**
   Print and parse: entries with distinct new keys, legal names, distinct fields and settled values
   come back in order, with exactly their fields, and nothing else in the database changes.
   */
  lemma RoundTrip(ctx: Context, db: State, entries: seq<Printed>)
    requires forall i :: 0 <= i < |entries| ==> Legal(ctx.language, entries[i]) && DistinctNames(entries[i].fields)
    requires forall i, k :: 0 <= i < |entries| && 0 <= k < |entries[i].fields| ==>
               Settled(ctx.language, entries[i].fields[k].1)
    requires FreshKeys(db, entries)
    ensures var outcome := AddAll(ctx, db, Text(entries));
            && outcome.error == None
            && outcome.state == db.(entries := outcome.state.entries)
            && |outcome.state.entries| == |db.entries| + |entries|
            && outcome.state.entries[..|db.entries|] == db.entries
            && forall i :: 0 <= i < |entries| ==>
                 var entry := outcome.state.entries[|db.entries| + i];
                 && entry.key == entries[i].key && entry.kind == entries[i].kind && entry.source == ctx.source
                 && SameFields(entry, entries[i].fields)
  {
    PrintedRead(ctx, db, entries);
    AllAdded(ctx, db, entries);
    forall i | 0 <= i < |entries|
      ensures SameFields(EntryOf(ctx, entries[i]), entries[i].fields) && EntryOf(ctx, entries[i]).key == entries[i].key
      ensures EntryOf(ctx, entries[i]).kind == entries[i].kind && EntryOf(ctx, entries[i]).source == ctx.source
    {
      EntryKey(ctx, entries[i]);
      forall k | 0 <= k < |entries[i].fields|
        ensures Kept(ctx.language, entries[i].fields[k].1) == entries[i].fields[k].1
      {
        SettledKept(ctx.language, entries[i].fields[k].1);
      }
      EntryFields(ctx, entries[i]);
    }
  }
}

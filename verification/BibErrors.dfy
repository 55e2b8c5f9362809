/**
 Sources that are not read to their end (`Parser` and `Database::add`, crates/tex-biber/src/bib.rs): which
 error each kind of defect is, and that what was read before it stays.
 */
module BibErrors {
  import opened Wrappers
  import opened BibSpaces
  import opened BibSyntax
  import opened BibRoundTrip
  import opened BibItems

  /** No `c` stands in `s` but behind a backslash. */
  predicate Lacks(s: string, c: char, escaped: bool) {
    s == [] || (if escaped then Lacks(s[1..], c, false)
                else s[0] != c && Lacks(s[1..], c, s[0] == '\\'))
  }

  lemma {:induction false} NeverCloses(s: string, open: char, close: char, depth: nat, escaped: bool)
    requires Lacks(s, close, escaped) && open != '\\' && close != '\\'
    ensures CloseAt(s, open, close, depth, escaped) == None
    decreases |s|
  {
    if s != [] {
      if escaped {
        NeverCloses(s[1..], open, close, depth, false);
      } else if s[0] == '\\' {
        NeverCloses(s[1..], open, close, depth, true);
      } else if s[0] == open {
        NeverCloses(s[1..], open, close, depth + 1, false);
      } else {
        NeverCloses(s[1..], open, close, depth, false);
      }
    }
  }

  lemma {:induction false} NeverQuotes(s: string, depth: nat, escaped: bool)
    requires Lacks(s, '"', escaped)
    ensures QuoteAt(s, depth, escaped) == None
    decreases |s|
  {
    if s != [] {
      if escaped {
        NeverQuotes(s[1..], depth, false);
      } else if s[0] == '\\' {
        NeverQuotes(s[1..], depth, true);
      } else if s[0] == '{' {
        NeverQuotes(s[1..], depth + 1, false);
      } else if s[0] == '}' {
        NeverQuotes(s[1..], if depth > 0 then depth - 1 else 0, false);
      } else {
        NeverQuotes(s[1..], depth, false);
      }
    }
  }

  // ----- Values -----

  /** What is no value, and the error that it gives. */
  ghost predicate NoValue(ctx: Context, s: string, e: Error) {
    || (s == [] && e == UnexpectedEnd)
    || (s != [] && s[0] == '{' && Lacks(s[1..], '}', false) && e == UnclosedValue)
    || (s != [] && s[0] == '"' && Lacks(s[1..], '"', false) && e == UnclosedQuote)
    || (Solid(s) && !IsNameChar(s[0]) && s[0] != '{' && s[0] != '"' && |s| <= ctx.length && e == ExpectedValue(ctx.length - |s|))
  }

  /** The start of a value: parts, each with a `#` behind it. */
  function Started(gap: seq<Space>, parts: seq<ValuePart>, rest: string): string {
    if parts == [] then GapText(gap, rest)
    else GapText(gap, PartText(parts[0], GapText(gap, ['#'] + Started(gap, parts[1..], rest))))
  }

  function StartedWarnings(
    ctx: Context, macros: map<string, string>, gap: seq<Space>, parts: seq<ValuePart>, rest: string): seq<Warning>
  {
    if parts == [] then []
    else
      PartWarnings(ctx, macros, parts[0], GapText(gap, ['#'] + Started(gap, parts[1..], rest)))
      + StartedWarnings(ctx, macros, gap, parts[1..], rest)
  }

  lemma {:induction false} GapEnds(gap: seq<Space>)
    requires AllSpaces(gap)
    ensures AfterSpace(GapText(gap, [])) == []
    decreases |gap|
  {
    if gap != [] {
      GapEnds(gap[1..]);
      match gap[0]
      case Blank(c) => BlankSkipped(c, GapText(gap[1..], []));
      case LineComment(text) => CommentSkipped(text, GapText(gap[1..], []));
    }
  }

  lemma PartFails(ctx: Context, macros: map<string, string>, s: string, e: Error)
    requires NoValue(ctx, s, e) && |s| <= ctx.length
    ensures Part(ctx, macros, s) == Read(Err(e), [])
  {
    if s != [] && s[0] == '{' {
      NeverCloses(s[1..], '{', '}', 1, false);
    } else if s != [] && s[0] == '"' {
      NeverQuotes(s[1..], 0, false);
    } else if s != [] {
      SpaceStops(s);
      assert Name(s) == [] && AfterName(s) == s;
    }
  }

  lemma GapThen(gap: seq<Space>, s: string)
    requires IsGap(gap) && (s == [] || Solid(s))
    ensures AfterSpace(GapText(gap, s)) == s
  {
    if s == [] {
      GapEnds(gap);
    } else {
      GapSkipped(gap, s);
    }
  }

  /** One part, and the `#` behind it. */
  lemma StartedStep(
    ctx: Context, macros: map<string, string>, gap: seq<Space>, parts: seq<ValuePart>, s: string,
    text: string, warnings: seq<Warning>)
    requires IsGap(gap) && parts != [] && LegalPart(parts[0])
    ensures var more := Started(gap, parts[1..], s);
            Joined(Parts(ctx, macros), Started(gap, parts, s), text, warnings)
            == Joined(Parts(ctx, macros), more, text + PartMeaning(ctx.language, macros, parts[0]),
                 warnings + PartWarnings(ctx, macros, parts[0], GapText(gap, ['#'] + more)))
  {
    var p, more := parts[0], Started(gap, parts[1..], s);
    JoinedPart(ctx, macros, gap, p, more);
    JoinMore(ctx, macros, Started(gap, parts, s), text, warnings, PartMeaning(ctx.language, macros, p),
      PartWarnings(ctx, macros, p, GapText(gap, ['#'] + more)), more);
  }

  lemma NothingStarted(
    ctx: Context, macros: map<string, string>, gap: seq<Space>, s: string, e: Error, text: string, warnings: seq<Warning>)
    requires IsGap(gap) && NoValue(ctx, s, e) && |s| <= ctx.length
    ensures Joined(Parts(ctx, macros), GapText(gap, s), text, warnings) == Read(Err(e), warnings + [])
  {
    GapThen(gap, s);
    PartFails(ctx, macros, s, e);
    assert Parts(ctx, macros)(GapText(gap, s)) == Joint(Read(Err(e), []), false);
  }

  lemma {:induction false} StartedFails(
    ctx: Context, macros: map<string, string>, gap: seq<Space>, parts: seq<ValuePart>, s: string, e: Error,
    text: string, warnings: seq<Warning>)
    requires IsGap(gap) && (forall i :: 0 <= i < |parts| ==> LegalPart(parts[i]))
    requires NoValue(ctx, s, e) && |s| <= ctx.length
    ensures Joined(Parts(ctx, macros), Started(gap, parts, s), text, warnings)
            == Read(Err(e), warnings + StartedWarnings(ctx, macros, gap, parts, s))
    decreases |parts|
  {
    if parts == [] {
      NothingStarted(ctx, macros, gap, s, e, text, warnings);
    } else {
      var m := PartMeaning(ctx.language, macros, parts[0]);
      var w := PartWarnings(ctx, macros, parts[0], GapText(gap, ['#'] + Started(gap, parts[1..], s)));
      StartedStep(ctx, macros, gap, parts, s, text, warnings);
      StartedFails(ctx, macros, gap, parts[1..], s, e, text + m, warnings + w);
      AppendInner(warnings, w, StartedWarnings(ctx, macros, gap, parts[1..], s));
    }
  }

  /** A value that is missing, or not closed, is an error, also behind parts joined to it. */
  lemma ValueFails(
    ctx: Context, macros: map<string, string>, gap: seq<Space>, parts: seq<ValuePart>, s: string, e: Error)
    requires IsGap(gap) && (forall i :: 0 <= i < |parts| ==> LegalPart(parts[i]))
    requires NoValue(ctx, s, e) && |s| <= ctx.length
    ensures Value(ctx, macros, Started(gap, parts, s))
            == Read(Err(e), StartedWarnings(ctx, macros, gap, parts, s))
  {
    StartedFails(ctx, macros, gap, parts, s, e, [], []);
    NothingMore(StartedWarnings(ctx, macros, gap, parts, s));
  }

  // ----- Fields -----

  /** Where the name of a field, the `=`, the value or what may follow it is expected and something else stands. */
  datatype Defect =
    | NoName(rest: string)
    | NoEquals(name: string, rest: string)
    | NoValueAt(name: string, parts: seq<ValuePart>, rest: string, error: Error)
    | NoComma(name: string, parts: seq<ValuePart>, rest: string)

  function DefectText(gap: seq<Space>, d: Defect): string {
    match d
    case NoName(rest) => GapText(gap, rest)
    case NoEquals(name, rest) => GapText(gap, name + GapText(gap, rest))
    case NoValueAt(name, parts, rest, _) => GapText(gap, name + GapText(gap, ['='] + Started(gap, parts, rest)))
    case NoComma(name, parts, rest) => GapText(gap, name + GapText(gap, ['='] + PartsText(gap, parts, rest)))
  }

  predicate EmptyOrSolid(s: string) {
    s == [] || Solid(s)
  }

  ghost predicate IsDefect(ctx: Context, close: char, d: Defect) {
    && |d.rest| <= ctx.length
    && (!d.NoName? ==> IsName(d.name) && ctx.language.lower(d.name) != [])
    && match d
       case NoName(rest) => EmptyOrSolid(rest) && (rest == [] || (!IsNameChar(rest[0]) && rest[0] != close))
       case NoEquals(_, rest) => EmptyOrSolid(rest) && (rest == [] || rest[0] != '=')
       case NoValueAt(_, parts, rest, e) =>
         (forall i :: 0 <= i < |parts| ==> LegalPart(parts[i])) && NoValue(ctx, rest, e)
       case NoComma(_, parts, rest) => LegalParts(parts) && EndsValue(rest) && rest[0] != ',' && rest[0] != close
  }

  /** The error names the entry, the field and the position that it is about. */
  function ErrorOf(ctx: Context, key: string, d: Defect): Error
    requires |d.rest| <= ctx.length
  {
    match d
    case NoName(rest) => InvalidField(key, ctx.length - |rest|)
    case NoEquals(name, _) => MissingEquals(ctx.language.lower(name), key)
    case NoValueAt(_, _, _, e) => e
    case NoComma(_, _, _) => MissingComma(key)
  }

  function DefectWarnings(ctx: Context, macros: map<string, string>, gap: seq<Space>, d: Defect): seq<Warning> {
    match d
    case NoName(_) => []
    case NoEquals(_, _) => []
    case NoValueAt(_, parts, rest, _) => StartedWarnings(ctx, macros, gap, parts, rest)
    case NoComma(_, parts, rest) => PartsWarnings(ctx, macros, gap, parts, rest)
  }

  lemma FieldsFail(ctx: Context, db: State, entry: Entry, close: char, s: string, read: FieldRead)
    requires !StartsWith(AfterSpace(s), close) && Field(ctx, db, entry, AfterSpace(s)) == read
    ensures read.result.Err? ==> Fields(ctx, db, close, entry, s) == Fail(read.state, read.result.error)
    ensures read.result.Ok? && !StartsWith(read.result.value.rest, ',') && !StartsWith(read.result.value.rest, close) ==>
              Fields(ctx, db, close, entry, s) == Fail(read.state, MissingComma(entry.key))
  {
  }

  lemma NoWarnings(db: State)
    ensures db.(warnings := db.warnings + []) == db
  {
    assert db.warnings + [] == db.warnings;
  }

  lemma EmptyName(ctx: Context, db: State, entry: Entry, rest: string)
    requires rest == [] || (Solid(rest) && !IsNameChar(rest[0]))
    requires ctx.language.lower([]) == [] && |rest| <= ctx.length
    ensures Field(ctx, db, entry, rest) == FieldRead(db, Err(InvalidField(entry.key, ctx.length - |rest|)))
  {
    if rest != [] {
      SpaceStops(rest);
    }
    assert Name(rest) == [] && AfterName(rest) == rest;
  }

  lemma EqualsMissing(ctx: Context, db: State, gap: seq<Space>, entry: Entry, name: string, rest: string)
    requires IsGap(gap) && IsName(name) && ctx.language.lower(name) != [] && (rest == [] || Solid(rest))
    requires rest == [] || rest[0] != '='
    ensures Field(ctx, db, entry, name + GapText(gap, rest))
            == FieldRead(db, Err(MissingEquals(ctx.language.lower(name), entry.key)))
  {
    NameGap(name, gap, rest);
    GapThen(gap, rest);
  }

  lemma FieldValueFails(
    ctx: Context, db: State, gap: seq<Space>, entry: Entry, name: string, parts: seq<ValuePart>, rest: string, e: Error)
    requires IsGap(gap) && IsName(name) && ctx.language.lower(name) != []
    requires (forall i :: 0 <= i < |parts| ==> LegalPart(parts[i])) && NoValue(ctx, rest, e) && |rest| <= ctx.length
    ensures Field(ctx, db, entry, name + GapText(gap, ['='] + Started(gap, parts, rest)))
            == FieldRead(db.(warnings := db.warnings + StartedWarnings(ctx, db.macros, gap, parts, rest)), Err(e))
  {
    var equals := ['='] + Started(gap, parts, rest);
    NameGap(name, gap, equals);
    GapSkipped(gap, equals);
    assert equals[1..] == Started(gap, parts, rest);
    ValueFails(ctx, db.macros, gap, parts, rest, e);
  }

  lemma FieldStart(gap: seq<Space>, name: string, rest: string, close: char)
    requires IsGap(gap) && IsName(name) && (close == '}' || close == ')')
    ensures var s := GapText(gap, name + GapText(gap, rest));
            AfterSpace(s) == name + GapText(gap, rest) && !StartsWith(AfterSpace(s), close)
  {
    NameGap(name, gap, rest);
    GapSkipped(gap, name + GapText(gap, rest));
    assert (name + GapText(gap, rest))[0] == name[0];
  }

  /** A defect ends the reading of an entry, which is not kept, with its error. */
  lemma DefectFails(ctx: Context, db: State, gap: seq<Space>, entry: Entry, close: char, d: Defect)
    requires IsGap(gap) && (close == '}' || close == ')') && ctx.language.lower([]) == []
    requires IsDefect(ctx, close, d)
    ensures Fields(ctx, db, close, entry, DefectText(gap, d))
            == Fail(db.(warnings := db.warnings + DefectWarnings(ctx, db.macros, gap, d)), ErrorOf(ctx, entry.key, d))
  {
    var s := DefectText(gap, d);
    NoWarnings(db);
    match d {
      case NoName(rest) =>
        GapThen(gap, rest);
        EmptyName(ctx, db, entry, rest);
      case NoEquals(name, rest) =>
        FieldStart(gap, name, rest, close);
        EqualsMissing(ctx, db, gap, entry, name, rest);
      case NoValueAt(name, parts, rest, e) =>
        FieldStart(gap, name, ['='] + Started(gap, parts, rest), close);
        FieldValueFails(ctx, db, gap, entry, name, parts, rest, e);
      case NoComma(name, parts, rest) =>
        FieldStart(gap, name, ['='] + PartsText(gap, parts, rest), close);
        OneField(ctx, db, gap, entry, NamedValue(name, parts), rest);
    }
    FieldsFail(ctx, db, entry, close, s, Field(ctx, db, entry, AfterSpace(s)));
  }

  /** Fields, each with its comma, and what stands behind them. */
  function FieldsThen(gap: seq<Space>, fields: seq<NamedValue>, rest: string): string {
    if fields == [] then rest
    else
      GapText(gap, fields[0].name + GapText(gap,
        ['='] + PartsText(gap, fields[0].parts, [','] + FieldsThen(gap, fields[1..], rest))))
  }

  function ThenWarnings(
    ctx: Context, macros: map<string, string>, gap: seq<Space>, fields: seq<NamedValue>, rest: string): seq<Warning>
  {
    if fields == [] then []
    else
      PartsWarnings(ctx, macros, gap, fields[0].parts, [','] + FieldsThen(gap, fields[1..], rest))
      + ThenWarnings(ctx, macros, gap, fields[1..], rest)
  }

  lemma {:induction false} FieldsThenFail(
    ctx: Context, db: State, gap: seq<Space>, entry: Entry, fields: seq<NamedValue>, close: char, d: Defect)
    requires IsGap(gap) && LegalFields(ctx.language, fields) && (close == '}' || close == ')')
    requires ctx.language.lower([]) == [] && IsDefect(ctx, close, d)
    ensures var s := DefectText(gap, d);
            Fields(ctx, db, close, entry, FieldsThen(gap, fields, s))
            == Fail(db.(warnings := db.warnings + (ThenWarnings(ctx, db.macros, gap, fields, s)
                                                   + DefectWarnings(ctx, db.macros, gap, d))),
                    ErrorOf(ctx, entry.key, d))
    decreases |fields|
  {
    var s, last := DefectText(gap, d), DefectWarnings(ctx, db.macros, gap, d);
    if fields == [] {
      DefectFails(ctx, db, gap, entry, close, d);
      NothingMore(last);
    } else {
      var f, more := fields[0], FieldsThen(gap, fields[1..], s);
      var value := ctx.language.decompose(Collapse(Meaning(ctx.language, db.macros, f.parts)));
      var w := PartsWarnings(ctx, db.macros, gap, f.parts, [','] + more);
      FieldAndMore(ctx, db, gap, entry, f, close, more);
      FieldsThenFail(ctx, db.(warnings := db.warnings + w), gap,
        WithField(entry, ctx.language.lower(f.name), value), fields[1..], close, d);
      Three(db.warnings, w, ThenWarnings(ctx, db.macros, gap, fields[1..], s), last);
    }
  }

  lemma Three<T>(a: seq<T>, b: seq<T>, c: seq<T>, d: seq<T>)
    ensures a + b + (c + d) == a + (b + c + d)
  {
  }

  // ----- Items -----

  /** Items that are not read to their end. */
  datatype Broken =
    | BrokenEntry(paren: bool, kind: string, key: string, fields: seq<NamedValue>, defect: Defect)
    | KeylessEntry(paren: bool, kind: string, rest: string)
    | MacroWithout(paren: bool, word: string, name: string, rest: string)
    | MacroBroken(paren: bool, word: string, name: string, parts: seq<ValuePart>, rest: string, error: Error)
    | MacroOpen(paren: bool, word: string, name: string, parts: seq<ValuePart>, rest: string)
    | PreambleBroken(paren: bool, word: string, parts: seq<ValuePart>, rest: string, error: Error)
    | PreambleOpen(paren: bool, word: string, parts: seq<ValuePart>, rest: string)
    | CommentOpen(paren: bool, word: string, text: string)

  function BrokenText(gap: seq<Space>, b: Broken): string {
    match b
    case BrokenEntry(paren, kind, key, fields, d) =>
      ['@'] + GapText(gap, kind + GapText(gap, [Opens(paren)] + GapText(gap, key + GapText(gap,
        [','] + FieldsThen(gap, fields, DefectText(gap, d))))))
    case KeylessEntry(paren, kind, rest) => ['@'] + GapText(gap, kind + GapText(gap, [Opens(paren)] + GapText(gap, rest)))
    case MacroWithout(paren, word, name, rest) =>
      ['@'] + GapText(gap, word + GapText(gap, [Opens(paren)] + GapText(gap, name + GapText(gap, rest))))
    case MacroBroken(paren, word, name, parts, rest, _) =>
      ['@'] + GapText(gap, word + GapText(gap, [Opens(paren)] + GapText(gap, name + GapText(gap,
        ['='] + Started(gap, parts, rest)))))
    case MacroOpen(paren, word, name, parts, rest) =>
      ['@'] + GapText(gap, word + GapText(gap, [Opens(paren)] + GapText(gap, name + GapText(gap,
        ['='] + PartsText(gap, parts, rest)))))
    case PreambleBroken(paren, word, parts, rest, _) =>
      ['@'] + GapText(gap, word + GapText(gap, [Opens(paren)] + Started(gap, parts, rest)))
    case PreambleOpen(paren, word, parts, rest) =>
      ['@'] + GapText(gap, word + GapText(gap, [Opens(paren)] + PartsText(gap, parts, rest)))
    case CommentOpen(paren, word, text) => ['@'] + GapText(gap, word + GapText(gap, [Opens(paren)] + text))
  }

  predicate IsEntryKind(language: Language, kind: string) {
    IsName(kind) && language.lower(kind) != "comment" && language.lower(kind) != "preamble" && language.lower(kind) != "string"
  }

  predicate LeavesOpen(paren: bool, rest: string) {
    EndsValue(rest) && rest[0] != ',' && rest[0] != Closes(paren)
  }

  ghost predicate IsBroken(ctx: Context, b: Broken) {
    match b
    case BrokenEntry(paren, kind, key, fields, d) =>
      && IsEntryKind(ctx.language, kind) && IsName(key) && LegalFields(ctx.language, fields)
      && IsDefect(ctx, Closes(paren), d)
    case KeylessEntry(_, kind, rest) =>
      IsEntryKind(ctx.language, kind) && EmptyOrSolid(rest) && (rest == [] || !IsNameChar(rest[0]))
    case MacroWithout(_, word, name, rest) =>
      && IsName(word) && ctx.language.lower(word) == "string" && IsName(name)
      && EmptyOrSolid(rest) && (rest == [] || rest[0] != '=')
    case MacroBroken(_, word, name, parts, rest, e) =>
      && IsName(word) && ctx.language.lower(word) == "string" && IsName(name)
      && (forall i :: 0 <= i < |parts| ==> LegalPart(parts[i])) && NoValue(ctx, rest, e) && |rest| <= ctx.length
    case MacroOpen(paren, word, name, parts, rest) =>
      && IsName(word) && ctx.language.lower(word) == "string" && IsName(name)
      && LegalParts(parts) && LeavesOpen(paren, rest)
    case PreambleBroken(_, word, parts, rest, e) =>
      && IsName(word) && ctx.language.lower(word) == "preamble"
      && (forall i :: 0 <= i < |parts| ==> LegalPart(parts[i])) && NoValue(ctx, rest, e) && |rest| <= ctx.length
    case PreambleOpen(paren, word, parts, rest) =>
      IsName(word) && ctx.language.lower(word) == "preamble" && LegalParts(parts) && LeavesOpen(paren, rest)
    case CommentOpen(paren, word, text) =>
      IsName(word) && ctx.language.lower(word) == "comment" && Lacks(text, Closes(paren), false)
  }

  /** What is read of a broken item stays: a macro and a preamble before they are closed, and all warnings. */
  ghost function AfterBroken(ctx: Context, db: State, gap: seq<Space>, b: Broken): Outcome
    requires IsBroken(ctx, b)
  {
    match b
    case BrokenEntry(_, _, key, fields, d) =>
      var w := ThenWarnings(ctx, db.macros, gap, fields, DefectText(gap, d)) + DefectWarnings(ctx, db.macros, gap, d);
      Outcome(db.(warnings := db.warnings + w), Some(ErrorOf(ctx, key, d)))
    case KeylessEntry(_, _, _) => Outcome(db, Some(EmptyKey))
    case MacroWithout(_, _, _, _) => Outcome(db, Some(InvalidString))
    case MacroBroken(_, _, _, parts, rest, e) =>
      Outcome(db.(warnings := db.warnings + StartedWarnings(ctx, db.macros, gap, parts, rest)), Some(e))
    case MacroOpen(_, _, name, parts, rest) =>
      Outcome(db.(macros := db.macros[ctx.language.lower(name) := Meaning(ctx.language, db.macros, parts)],
                  warnings := db.warnings + PartsWarnings(ctx, db.macros, gap, parts, rest)), Some(UnclosedString))
    case PreambleBroken(_, _, parts, rest, e) =>
      Outcome(db.(warnings := db.warnings + StartedWarnings(ctx, db.macros, gap, parts, rest)), Some(e))
    case PreambleOpen(_, _, parts, rest) =>
      Outcome(db.(preamble := db.preamble + [Meaning(ctx.language, db.macros, parts)],
                  warnings := db.warnings + PartsWarnings(ctx, db.macros, gap, parts, rest)), Some(UnclosedPreamble))
    case CommentOpen(_, _, _) => Outcome(db, Some(UnclosedValue))
  }

  lemma ItemFails(ctx: Context, db: State, s: string, outcome: Outcome)
    requires s != [] && s[0] == '@' && outcome.error.Some?
    requires Item(ctx, db, s[1..]) == Fail(outcome.state, outcome.error.value)
    ensures AddAll(ctx, db, s) == outcome
  {
    assert Items(ctx)(db, s[1..]) == Fail(outcome.state, outcome.error.value);
  }

  lemma OpenedAt(ctx: Context, db: State, gap: seq<Space>, word: string, paren: bool, rest: string)
    requires IsGap(gap) && IsName(word) && ctx.language.lower(word) != "comment" && EmptyOrSolid(rest)
    ensures Item(ctx, db, GapText(gap, word + GapText(gap, [Opens(paren)] + GapText(gap, rest))))
            == Body(ctx, db, ctx.language.lower(word), Closes(paren), rest)
  {
    Opened(ctx, db, gap, word, paren, GapText(gap, rest));
    GapThen(gap, rest);
  }

  lemma EntryFails(
    ctx: Context, db: State, gap: seq<Space>, kind: string, paren: bool, key: string, fields: seq<NamedValue>, d: Defect)
    requires IsGap(gap) && IsName(key) && LegalFields(ctx.language, fields)
    requires ctx.language.lower([]) == [] && IsDefect(ctx, Closes(paren), d)
    ensures var w := ThenWarnings(ctx, db.macros, gap, fields, DefectText(gap, d)) + DefectWarnings(ctx, db.macros, gap, d);
            EntryBody(ctx, db, kind, Closes(paren), key + GapText(gap, [','] + FieldsThen(gap, fields, DefectText(gap, d))))
            == Fail(db.(warnings := db.warnings + w), ErrorOf(ctx, key, d))
  {
    var comma := [','] + FieldsThen(gap, fields, DefectText(gap, d));
    NameGap(key, gap, comma);
    GapSkipped(gap, comma);
    assert comma[1..] == FieldsThen(gap, fields, DefectText(gap, d));
    FieldsThenFail(ctx, db, gap, Entry(key, kind, ctx.source, map[]), fields, Closes(paren), d);
  }

  lemma NoCloser(paren: bool, rest: string)
    requires LeavesOpen(paren, rest)
    ensures AfterComma(AfterSpace(rest)) == rest && !StartsWith(rest, Closes(paren))
  {
    SpaceStops(rest);
  }

  /** What stands behind the name of a broken macro. */
  function MacroTail(gap: seq<Space>, b: Broken): string {
    match b
    case MacroWithout(_, _, _, rest) => rest
    case MacroBroken(_, _, _, parts, rest, _) => ['='] + Started(gap, parts, rest)
    case MacroOpen(_, _, _, parts, rest) => ['='] + PartsText(gap, parts, rest)
    case _ => []
  }

  lemma MacroFails(ctx: Context, db: State, gap: seq<Space>, b: Broken)
    requires IsGap(gap) && IsBroken(ctx, b) && (b.MacroWithout? || b.MacroBroken? || b.MacroOpen?)
    ensures var outcome := AfterBroken(ctx, db, gap, b);
            Macro(ctx, db, Closes(b.paren), b.name + GapText(gap, MacroTail(gap, b)))
            == Fail(outcome.state, outcome.error.value)
  {
    match b {
      case MacroWithout(paren, _, name, rest) =>
        NameGap(name, gap, rest);
        GapThen(gap, rest);
      case MacroBroken(paren, _, name, parts, rest, e) =>
        var equals := ['='] + Started(gap, parts, rest);
        NameGap(name, gap, equals);
        GapSkipped(gap, equals);
        assert equals[1..] == Started(gap, parts, rest);
        ValueFails(ctx, db.macros, gap, parts, rest, e);
      case MacroOpen(paren, _, name, parts, rest) =>
        var equals := ['='] + PartsText(gap, parts, rest);
        NameGap(name, gap, equals);
        GapSkipped(gap, equals);
        assert equals[1..] == PartsText(gap, parts, rest);
        ValueRead(ctx, db.macros, gap, parts, rest);
        NoCloser(paren, rest);
    }
  }

  lemma PreambleFails(
    ctx: Context, db: State, gap: seq<Space>, paren: bool, parts: seq<ValuePart>, rest: string)
    requires IsGap(gap) && LegalParts(parts) && LeavesOpen(paren, rest)
    ensures Preamble(ctx, db, Closes(paren), AfterSpace(PartsText(gap, parts, rest)))
            == Fail(db.(preamble := db.preamble + [Meaning(ctx.language, db.macros, parts)],
                        warnings := db.warnings + PartsWarnings(ctx, db.macros, gap, parts, rest)), UnclosedPreamble)
  {
    NoCloser(paren, rest);
    ValueRead(ctx, db.macros, gap, parts, rest);
    ValueSpace(ctx, db.macros, PartsText(gap, parts, rest));
  }

  lemma CommentFails(ctx: Context, db: State, gap: seq<Space>, paren: bool, word: string, text: string)
    requires IsGap(gap) && IsName(word) && ctx.language.lower(word) == "comment" && Lacks(text, Closes(paren), false)
    ensures Item(ctx, db, GapText(gap, word + GapText(gap, [Opens(paren)] + text))) == Fail(db, UnclosedValue)
  {
    ItemWord(gap, word, [Opens(paren)] + text);
    assert ([Opens(paren)] + text)[1..] == text;
    NeverCloses(text, Opens(paren), Closes(paren), 1, false);
  }

  lemma NoKey(ctx: Context, db: State, kind: string, close: char, rest: string)
    requires EmptyOrSolid(rest) && (rest == [] || !IsNameChar(rest[0]))
    ensures EntryBody(ctx, db, kind, close, rest) == Fail(db, EmptyKey)
  {
    if rest != [] {
      SpaceStops(rest);
    }
  }

  lemma BrokenItem(ctx: Context, db: State, gap: seq<Space>, b: Broken)
    requires IsGap(gap) && IsBroken(ctx, b) && ctx.language.lower([]) == []
    ensures var outcome := AfterBroken(ctx, db, gap, b);
            && BrokenText(gap, b) != [] && BrokenText(gap, b)[0] == '@' && outcome.error.Some?
            && Item(ctx, db, BrokenText(gap, b)[1..]) == Fail(outcome.state, outcome.error.value)
  {
    var s := BrokenText(gap, b);
    match b {
      case BrokenEntry(paren, kind, key, fields, d) =>
        var tail := [','] + FieldsThen(gap, fields, DefectText(gap, d));
        NameGap(key, gap, tail);
        OpenedAt(ctx, db, gap, kind, paren, key + GapText(gap, tail));
        EntryFails(ctx, db, gap, ctx.language.lower(kind), paren, key, fields, d);
        assert s[1..] == GapText(gap, kind + GapText(gap, [Opens(paren)] + GapText(gap, key + GapText(gap, tail))));
      case KeylessEntry(paren, kind, rest) =>
        OpenedAt(ctx, db, gap, kind, paren, rest);
        NoKey(ctx, db, ctx.language.lower(kind), Closes(paren), rest);
        assert s[1..] == GapText(gap, kind + GapText(gap, [Opens(paren)] + GapText(gap, rest)));
      case MacroWithout(paren, word, name, rest) =>
        BrokenMacro(ctx, db, gap, b);
      case MacroBroken(paren, word, name, parts, rest, e) =>
        BrokenMacro(ctx, db, gap, b);
      case MacroOpen(paren, word, name, parts, rest) =>
        BrokenMacro(ctx, db, gap, b);
      case PreambleBroken(paren, word, parts, rest, e) =>
        Opened(ctx, db, gap, word, paren, Started(gap, parts, rest));
        ValueFails(ctx, db.macros, gap, parts, rest, e);
        ValueSpace(ctx, db.macros, Started(gap, parts, rest));
        assert s[1..] == GapText(gap, word + GapText(gap, [Opens(paren)] + Started(gap, parts, rest)));
      case PreambleOpen(paren, word, parts, rest) =>
        Opened(ctx, db, gap, word, paren, PartsText(gap, parts, rest));
        PreambleFails(ctx, db, gap, paren, parts, rest);
        assert s[1..] == GapText(gap, word + GapText(gap, [Opens(paren)] + PartsText(gap, parts, rest)));
      case CommentOpen(paren, word, text) =>
        CommentFails(ctx, db, gap, paren, word, text);
        assert s[1..] == GapText(gap, word + GapText(gap, [Opens(paren)] + text));
    }
  }

  lemma BrokenMacro(ctx: Context, db: State, gap: seq<Space>, b: Broken)
    requires IsGap(gap) && IsBroken(ctx, b) && (b.MacroWithout? || b.MacroBroken? || b.MacroOpen?)
    ensures var outcome := AfterBroken(ctx, db, gap, b);
            && BrokenText(gap, b) != [] && BrokenText(gap, b)[0] == '@' && outcome.error.Some?
            && Item(ctx, db, BrokenText(gap, b)[1..]) == Fail(outcome.state, outcome.error.value)
  {
    var tail := MacroTail(gap, b);
    var body := GapText(gap, b.word + GapText(gap, [Opens(b.paren)] + GapText(gap, b.name + GapText(gap, tail))));
    assert BrokenText(gap, b) == ['@'] + body;
    assert BrokenText(gap, b)[1..] == body;
    NameGap(b.name, gap, tail);
    OpenedAt(ctx, db, gap, b.word, b.paren, b.name + GapText(gap, tail));
    MacroFails(ctx, db, gap, b);
  }

  /** A broken item ends the reading with its error; what the items before it mean stays. */
  lemma BrokenRead(ctx: Context, db: State, gap: seq<Space>, items: seq<Source>, b: Broken)
    requires IsGap(gap) && (forall i :: 0 <= i < |items| ==> LegalSource(ctx.language, items[i]))
    requires IsBroken(ctx, b) && ctx.language.lower([]) == []
    ensures AddAll(ctx, db, SourcesText(gap, items, BrokenText(gap, b)))
            == AfterBroken(ctx, ReadAll(ctx, db, gap, items, BrokenText(gap, b)), gap, b)
  {
    var read := ReadAll(ctx, db, gap, items, BrokenText(gap, b));
    SourcesRead(ctx, db, gap, items, BrokenText(gap, b));
    BrokenItem(ctx, read, gap, b);
    ItemFails(ctx, read, BrokenText(gap, b), AfterBroken(ctx, read, gap, b));
  }
}

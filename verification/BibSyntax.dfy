/**
 BibTeX syntax as the parser reads it (`Parser` and `Database::add`, crates/tex-biber/src/bib.rs),
 each routine a function of the text still to be read.

 Lower-casing and canonical decomposition are parameters of the functions that use them.
 */
module BibSyntax {
  import opened Wrappers
  import opened BibSpaces
  import Splitting

  datatype Language = Language(lower: string -> string, decompose: string -> string)

  datatype Error =
    | ExpectedDelimiter
    | UnclosedValue
    | UnclosedQuote
    | ExpectedValue(at: nat)
    | UnexpectedEnd
    | UnclosedPreamble
    | InvalidString
    | UnclosedString
    | EmptyKey
    | InvalidField(key: string, at: nat)
    | MissingEquals(field: string, key: string)
    | MissingComma(key: string)

  datatype Warning = UndefinedMacro(line: int, name: string) | DuplicateKey(key: string, source: string)

  datatype Entry = Entry(key: string, kind: string, source: string, fields: map<string, string>)

  datatype State = State(
    entries: seq<Entry>, preamble: seq<string>, warnings: seq<Warning>, macros: map<string, string>)

  /** The whole text and what the parser works for. */
  datatype Context = Context(language: Language, source: string, length: nat, lines: nat)

  // ----- Characters -----

  predicate IsNameChar(c: char) {
    && !Splitting.IsWhitespace(c) && c != '=' && c != ',' && c != '#' && c != '{' && c != '}' && c != '(' && c != ')'
    && c != '"'
  }

  function Newlines(s: string): nat {
    if s == [] then 0 else (if s[0] == '\n' then 1 else 0) + Newlines(s[1..])
  }

  /** The line on which the text still to be read starts. */
  function LineOf(ctx: Context, s: string): int {
    1 + ctx.lines - Newlines(s)
  }

  function PositionOf(ctx: Context, s: string): nat {
    if |s| <= ctx.length then ctx.length - |s| else 0
  }

  predicate StartsWith(s: string, c: char) {
    s != [] && s[0] == c
  }

  // ----- Lexical elements -----

  /** Behind the end of the line. */
  function AfterLine(s: string): (r: string)
    ensures |r| <= |s| && (s != [] ==> |r| < |s|)
  {
    if s == [] then [] else if s[0] == '\n' then s[1..] else AfterLine(s[1..])
  }

  /** Behind white space and comments. */
  function AfterSpace(s: string): (r: string)
    ensures |r| <= |s|
    decreases |s|
  {
    if s == [] then []
    else if Splitting.IsWhitespace(s[0]) then AfterSpace(s[1..])
    else if s[0] == '%' then AfterSpace(AfterLine(s))
    else s
  }

  function NameEnd(s: string): (n: nat)
    ensures n <= |s|
  {
    if s == [] || !IsNameChar(s[0]) then 0 else 1 + NameEnd(s[1..])
  }

  /** The identifier that comes next, which may be empty. */
  function Name(s: string): string {
    AfterSpace(s)[..NameEnd(AfterSpace(s))]
  }

  function AfterName(s: string): (r: string)
    ensures |r| + |Name(s)| <= |s|
  {
    AfterSpace(s)[NameEnd(AfterSpace(s))..]
  }

  datatype Parsed = Parsed(text: string, rest: string)

  function Shift(n: Option<nat>): (r: Option<nat>)
    ensures r.Some? <==> n.Some?
    ensures n.Some? ==> r.value == n.value + 1
  {
    match n
    case None => None
    case Some(k) => Some(k + 1)
  }

  /** Where the delimiter that closes `depth` open ones is; a backslash hides the character behind it. */
  function CloseAt(s: string, open: char, close: char, depth: nat, escaped: bool): (n: Option<nat>)
    ensures n.Some? ==> n.value < |s|
  {
    if s == [] then None
    else if escaped then Shift(CloseAt(s[1..], open, close, depth, false))
    else if s[0] == '\\' then Shift(CloseAt(s[1..], open, close, depth, true))
    else if s[0] == open then Shift(CloseAt(s[1..], open, close, depth + 1, false))
    else if s[0] == close then
      if depth <= 1 then Some(0) else Shift(CloseAt(s[1..], open, close, depth - 1, false))
    else Shift(CloseAt(s[1..], open, close, depth, false))
  }

  /** What an open delimiter encloses. */
  function Inside(s: string, open: char, close: char): (r: Result<Parsed, Error>)
    ensures r.Ok? ==> |r.value.rest| < |s|
  {
    match CloseAt(s, open, close, 1, false)
    case None => Err(UnclosedValue)
    case Some(n) => Ok(Parsed(s[..n], s[n + 1..]))
  }

  function Balanced(s: string, open: char, close: char): (r: Result<Parsed, Error>)
    ensures r.Ok? ==> |r.value.rest| < |s|
  {
    if !StartsWith(s, open) then Err(ExpectedDelimiter) else Inside(s[1..], open, close)
  }

  /** Where the quote outside braces is. */
  function QuoteAt(s: string, depth: nat, escaped: bool): (n: Option<nat>)
    ensures n.Some? ==> n.value < |s|
  {
    if s == [] then None
    else if escaped then Shift(QuoteAt(s[1..], depth, false))
    else if s[0] == '\\' then Shift(QuoteAt(s[1..], depth, true))
    else if s[0] == '{' then Shift(QuoteAt(s[1..], depth + 1, false))
    else if s[0] == '}' then Shift(QuoteAt(s[1..], if depth > 0 then depth - 1 else 0, false))
    else if s[0] == '"' && depth == 0 then Some(0)
    else Shift(QuoteAt(s[1..], depth, false))
  }

  function Quoted(s: string): (r: Result<Parsed, Error>)
    ensures r.Ok? ==> |r.value.rest| < |s|
  {
    if s == [] then Err(UnclosedQuote)
    else
      match QuoteAt(s[1..], 0, false)
      case None => Err(UnclosedQuote)
      case Some(n) => Ok(Parsed(s[1..][..n], s[1..][n + 1..]))
  }

  // ----- Values -----

  predicate AllAsciiDigits(s: string) {
    forall i :: 0 <= i < |s| ==> '0' <= s[i] <= '9'
  }

  /** A value or an error, and the warnings given on the way to it. */
  datatype Read = Read(result: Result<Parsed, Error>, warnings: seq<Warning>)

  /** A number, a macro, or an unknown macro, which stands for nothing. */
  function Atom(ctx: Context, macros: map<string, string>, s: string): (r: Read)
    ensures r.result.Ok? ==> |r.result.value.rest| < |s|
  {
    var atom, rest := Name(s), AfterName(s);
    if atom == [] then Read(Err(ExpectedValue(PositionOf(ctx, rest))), [])
    else if AllAsciiDigits(atom) then Read(Ok(Parsed(atom, rest)), [])
    else if ctx.language.lower(atom) in macros then Read(Ok(Parsed(macros[ctx.language.lower(atom)], rest)), [])
    else Read(Ok(Parsed([], rest)), [UndefinedMacro(LineOf(ctx, s), atom)])
  }

  function Part(ctx: Context, macros: map<string, string>, s: string): (r: Read)
    ensures r.result.Ok? ==> |r.result.value.rest| < |s|
  {
    if s == [] then Read(Err(UnexpectedEnd), [])
    else if s[0] == '{' then Read(Balanced(s, '{', '}'), [])
    else if s[0] == '"' then Read(Quoted(s), [])
    else Atom(ctx, macros, s)
  }

  /** One part, and whether another is joined to it. */
  datatype Joint = Joint(read: Read, more: bool)

  function NextPart(ctx: Context, macros: map<string, string>, s: string): (r: Joint)
    ensures r.read.result.Ok? ==> |r.read.result.value.rest| < |s|
    ensures r.read.result.Err? ==> !r.more
  {
    var part := Part(ctx, macros, AfterSpace(s));
    if part.result.Err? then Joint(part, false)
    else
      var text, rest := part.result.value.text, AfterSpace(part.result.value.rest);
      var more := StartsWith(rest, '#');
      Joint(Read(Ok(Parsed(text, if more then rest[1..] else rest)), part.warnings), more)
  }

  /**
   Parts joined by `#`, each as `next` reads it; the first continues `text`. `NextPart` always leaves
   less text than it is given, which is what the test of lengths asks of any `next`.
   */
  function Joined(next: string -> Joint, s: string, text: string, warnings: seq<Warning>): (r: Read)
    decreases |s|
  {
    var part := next(s);
    var warned := warnings + part.read.warnings;
    if part.read.result.Err? then Read(part.read.result, warned)
    else
      var joined, rest := text + part.read.result.value.text, part.read.result.value.rest;
      if part.more && |rest| < |s| then Joined(next, rest, joined, warned) else Read(Ok(Parsed(joined, rest)), warned)
  }

  function Parts(ctx: Context, macros: map<string, string>): string -> Joint {
    s => NextPart(ctx, macros, s)
  }

  lemma {:induction false} JoinedShorter(ctx: Context, macros: map<string, string>, s: string, text: string, warnings: seq<Warning>)
    ensures var r := Joined(Parts(ctx, macros), s, text, warnings); r.result.Ok? ==> |r.result.value.rest| < |s|
    decreases |s|
  {
    var part := NextPart(ctx, macros, s);
    if part.more {
      var joined, rest := text + part.read.result.value.text, part.read.result.value.rest;
      JoinedShorter(ctx, macros, rest, joined, warnings + part.read.warnings);
    }
  }

  function Value(ctx: Context, macros: map<string, string>, s: string): (r: Read)
    ensures r.result.Ok? ==> |r.result.value.rest| < |s|
  {
    JoinedShorter(ctx, macros, s, [], []);
    Joined(Parts(ctx, macros), s, [], [])
  }

  // ----- Items -----

  /** How reading one item ends. */
  datatype Step =
    | Next(state: State, rest: string)
    | Stop(state: State)
    | Fail(state: State, error: Error)

  function AfterComma(s: string): (r: string)
    ensures |r| <= |s|
  {
    if StartsWith(s, ',') then AfterSpace(s[1..]) else s
  }

  function Warned(db: State, warnings: seq<Warning>): State {
    db.(warnings := db.warnings + warnings)
  }

  function Preamble(ctx: Context, db: State, close: char, s: string): (r: Step)
    ensures r.Next? ==> |r.rest| < |s|
  {
    var value := Value(ctx, db.macros, s);
    var warned := Warned(db, value.warnings);
    if value.result.Err? then Fail(warned, value.result.error)
    else
      var added := warned.(preamble := warned.preamble + [value.result.value.text]);
      var rest := AfterComma(AfterSpace(value.result.value.rest));
      if StartsWith(rest, close) then Next(added, rest[1..]) else Fail(added, UnclosedPreamble)
  }

  function Macro(ctx: Context, db: State, close: char, s: string): (r: Step)
    ensures r.Next? ==> |r.rest| < |s|
  {
    var key, equals := ctx.language.lower(Name(s)), AfterSpace(AfterName(s));
    if !StartsWith(equals, '=') then Fail(db, InvalidString)
    else
      var value := Value(ctx, db.macros, equals[1..]);
      var warned := Warned(db, value.warnings);
      if value.result.Err? then Fail(warned, value.result.error)
      else
        var added := warned.(macros := warned.macros[key := value.result.value.text]);
        var rest := AfterComma(AfterSpace(value.result.value.rest));
        if StartsWith(rest, close) then Next(added, rest[1..]) else Fail(added, UnclosedString)
  }

  /** A field that is given twice keeps its first value. */
  function WithField(entry: Entry, field: string, value: string): Entry {
    if field in entry.fields then entry else entry.(fields := entry.fields[field := value])
  }

  predicate HasKey(entries: seq<Entry>, key: string) {
    exists i :: 0 <= i < |entries| && entries[i].key == key
  }

  /** Of entries with one key, the first is kept. */
  function Added(ctx: Context, db: State, entry: Entry): State {
    if HasKey(db.entries, entry.key) then Warned(db, [DuplicateKey(entry.key, ctx.source)])
    else db.(entries := db.entries + [entry])
  }

  /** The value of a field as it is kept. */
  function Kept(language: Language, raw: string): string {
    language.decompose(Collapse(raw))
  }

  datatype Extended = Extended(entry: Entry, rest: string)

  datatype FieldRead = FieldRead(state: State, result: Result<Extended, Error>)

  /** One field, up to what follows its value. */
  function Field(ctx: Context, db: State, entry: Entry, s: string): (r: FieldRead)
    ensures r.result.Ok? ==> |r.result.value.rest| < |s|
  {
    var field, equals := ctx.language.lower(Name(s)), AfterSpace(AfterName(s));
    if field == [] then FieldRead(db, Err(InvalidField(entry.key, PositionOf(ctx, AfterName(s)))))
    else if !StartsWith(equals, '=') then FieldRead(db, Err(MissingEquals(field, entry.key)))
    else
      var value := Value(ctx, db.macros, equals[1..]);
      var warned := Warned(db, value.warnings);
      if value.result.Err? then FieldRead(warned, Err(value.result.error))
      else
        var extended := WithField(entry, field, Kept(ctx.language, value.result.value.text));
        FieldRead(warned, Ok(Extended(extended, AfterSpace(value.result.value.rest))))
  }

  /** Fields up to the closing delimiter, each as `field` reads it. */
  function FieldsBy(
    field: (State, Entry, string) -> FieldRead, ctx: Context, db: State, close: char, entry: Entry, s: string): (r: Step)
    ensures r.Next? ==> |r.rest| < |s|
    decreases |s|
  {
    var start := AfterSpace(s);
    if StartsWith(start, close) then Next(Added(ctx, db, entry), start[1..])
    else
      var read := field(db, entry, start);
      if read.result.Err? then Fail(read.state, read.result.error)
      else
        var extended, rest := read.result.value.entry, read.result.value.rest;
        if StartsWith(rest, ',') && |rest| < |s| then FieldsBy(field, ctx, read.state, close, extended, rest[1..])
        else if StartsWith(rest, close) && |rest| < |s| then FieldsBy(field, ctx, read.state, close, extended, rest)
        else Fail(read.state, MissingComma(entry.key))
  }

  function FieldReader(ctx: Context): (State, Entry, string) -> FieldRead {
    (db, entry, s) => Field(ctx, db, entry, s)
  }

  function Fields(ctx: Context, db: State, close: char, entry: Entry, s: string): (r: Step)
    ensures r.Next? ==> |r.rest| < |s|
  {
    FieldsBy(FieldReader(ctx), ctx, db, close, entry, s)
  }

  function EntryBody(ctx: Context, db: State, kind: string, close: char, s: string): (r: Step)
    ensures r.Next? ==> |r.rest| < |s|
  {
    var key, rest := Name(s), AfterSpace(AfterName(s));
    if key == [] then Fail(db, EmptyKey)
    else
      Fields(ctx, db, close, Entry(key, kind, ctx.source, map[]), if StartsWith(rest, ',') then rest[1..] else rest)
  }

  const COMMENT := "comment"
  const PREAMBLE := "preamble"
  const STRING := "string"

  function Body(ctx: Context, db: State, kind: string, close: char, s: string): (r: Step)
    ensures r.Next? ==> |r.rest| < |s|
  {
    if kind == PREAMBLE then Preamble(ctx, db, close, s)
    else if kind == STRING then Macro(ctx, db, close, s)
    else EntryBody(ctx, db, kind, close, s)
  }

  /** What follows an `@`. */
  function Item(ctx: Context, db: State, s: string): (r: Step)
    ensures r.Next? ==> |r.rest| <= |s|
  {
    var kind, start := ctx.language.lower(Name(s)), AfterSpace(AfterName(s));
    if start == [] then Stop(db)
    else if start[0] != '{' && start[0] != '(' then Next(db, start)
    else
      var open, close := start[0], if start[0] == '{' then '}' else ')';
      if kind == COMMENT then
        match Balanced(start, open, close)
        case Ok(p) => Next(db, p.rest)
        case Err(e) => Fail(db, e)
      else
        Body(ctx, db, kind, close, AfterSpace(start[1..]))
  }

  datatype Outcome = Outcome(state: State, error: Option<Error>)

  /** Everything up to the end of the text or the first error, each item as `item` reads it. */
  function AddAllBy(item: (State, string) -> Step, db: State, s: string): Outcome
    decreases |s|
  {
    if s == [] then Outcome(db, None)
    else if s[0] != '@' then AddAllBy(item, db, s[1..])
    else
      match item(db, s[1..])
      case Next(next, rest) => if |rest| < |s| then AddAllBy(item, next, rest) else Outcome(next, None)
      case Stop(last) => Outcome(last, None)
      case Fail(last, e) => Outcome(last, Some(e))
  }

  function Items(ctx: Context): (State, string) -> Step {
    (db, s) => Item(ctx, db, s)
  }

  function AddAll(ctx: Context, db: State, s: string): Outcome {
    AddAllBy(Items(ctx), db, s)
  }
}

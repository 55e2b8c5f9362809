/**
 Whole BibTeX sources and what is read from them (`Database::add`, crates/tex-biber/src/bib.rs): entries,
 macros, preambles, comments and text between them, in braces and in parentheses, with values of several
 parts joined by `#` and white space and line comments between the tokens.

 A source is a syntax tree, printed in front of what follows it; what it means is told of the tree.
 */
module BibItems {
  import opened Wrappers
  import opened BibSpaces
  import opened BibSyntax
  import opened BibRoundTrip
  import SplitTexts

  // ----- Syntax -----

  /** White space between tokens: one character, or a comment up to the end of its line. */
  datatype Space = Blank(c: char) | LineComment(text: string)

  datatype ValuePart =
    | Braced(text: string)
    | QuotedText(text: string)
    | Number(digits: string)
    | MacroName(name: string)

  datatype NamedValue = NamedValue(name: string, parts: seq<ValuePart>)

  /** Whether there is a comma behind the key of an entry, and one behind its last field. */
  datatype Commas = Commas(key: bool, last: bool)

  datatype Source =
    | EntrySource(paren: bool, commas: Commas, kind: string, key: string, fields: seq<NamedValue>)
    | MacroSource(paren: bool, comma: bool, word: string, name: string, parts: seq<ValuePart>)
    | PreambleSource(paren: bool, comma: bool, word: string, parts: seq<ValuePart>)
    | CommentSource(paren: bool, word: string, text: string)
    | Between(text: string)
    | StrayAt(word: string, next: char)

  // ----- Text -----

  function GapText(gap: seq<Space>, rest: string): string {
    if gap == [] then rest
    else
      match gap[0]
      case Blank(c) => [c] + GapText(gap[1..], rest)
      case LineComment(text) => ['%'] + (text + (['\n'] + GapText(gap[1..], rest)))
  }

  function PartText(p: ValuePart, rest: string): string {
    match p
    case Braced(text) => ['{'] + (text + (['}'] + rest))
    case QuotedText(text) => ['"'] + (text + (['"'] + rest))
    case Number(digits) => digits + rest
    case MacroName(name) => name + rest
  }

  function PartsText(gap: seq<Space>, parts: seq<ValuePart>, rest: string): string {
    if parts == [] then rest
    else GapText(gap, PartText(parts[0], GapText(gap, if |parts| == 1 then rest else ['#'] + PartsText(gap, parts[1..], rest))))
  }

  /** Fields with commas between them, and behind the last one if `last`. */
  function FieldsText(gap: seq<Space>, fields: seq<NamedValue>, last: bool, rest: string): string {
    if fields == [] then GapText(gap, rest)
    else
      GapText(gap, fields[0].name + GapText(gap, ['='] + PartsText(gap, fields[0].parts,
        if |fields| == 1 && !last then rest else [','] + FieldsText(gap, fields[1..], last, rest))))
  }

  function CommaText(gap: seq<Space>, comma: bool, rest: string): string {
    if comma then [','] + GapText(gap, rest) else rest
  }

  function EntryTail(gap: seq<Space>, commas: Commas, fields: seq<NamedValue>, rest: string): string {
    (if commas.key then [','] else []) + FieldsText(gap, fields, commas.last, rest)
  }

  function Opens(paren: bool): char {
    if paren then '(' else '{'
  }

  function Closes(paren: bool): char {
    if paren then ')' else '}'
  }

  function SourceText(gap: seq<Space>, item: Source, rest: string): string {
    match item
    case EntrySource(paren, commas, kind, key, fields) =>
      ['@'] + GapText(gap, kind + GapText(gap, [Opens(paren)] + GapText(gap, key + GapText(gap,
        EntryTail(gap, commas, fields, [Closes(paren)] + rest)))))
    case MacroSource(paren, comma, word, name, parts) =>
      ['@'] + GapText(gap, word + GapText(gap, [Opens(paren)] + GapText(gap, name + GapText(gap,
        ['='] + PartsText(gap, parts, CommaText(gap, comma, [Closes(paren)] + rest))))))
    case PreambleSource(paren, comma, word, parts) =>
      ['@'] + GapText(gap, word + GapText(gap, [Opens(paren)] + PartsText(gap, parts, CommaText(gap, comma, [Closes(paren)] + rest))))
    case CommentSource(paren, word, text) =>
      ['@'] + GapText(gap, word + GapText(gap, [Opens(paren)] + (text + ([Closes(paren)] + rest))))
    case Between(text) => text + rest
    case StrayAt(word, next) => ['@'] + GapText(gap, word + GapText(gap, [next] + rest))
  }

  function SourcesText(gap: seq<Space>, items: seq<Source>, rest: string): string {
    if items == [] then rest else SourceText(gap, items[0], SourcesText(gap, items[1..], rest))
  }

  // ----- What can be printed -----

  predicate IsSpace(space: Space) {
    match space
    case Blank(c) => Splitting.IsWhitespace(c)
    case LineComment(text) => '\n' !in text
  }

  predicate AllSpaces(gap: seq<Space>) {
    forall i :: 0 <= i < |gap| ==> IsSpace(gap[i])
  }

  predicate IsGap(gap: seq<Space>) {
    gap != [] && gap[0].Blank? && AllSpaces(gap)
  }

  /** Delimiters match, but for those behind a backslash, from `depth` open ones. */
  predicate Encloses(s: string, open: char, close: char, depth: nat, escaped: bool) {
    if s == [] then depth == 0 && !escaped
    else if escaped then Encloses(s[1..], open, close, depth, false)
    else if s[0] == '\\' then Encloses(s[1..], open, close, depth, true)
    else if s[0] == open then Encloses(s[1..], open, close, depth + 1, false)
    else if s[0] == close then depth > 0 && Encloses(s[1..], open, close, depth - 1, false)
    else Encloses(s[1..], open, close, depth, false)
  }

  /** No quote stands outside braces, but for those behind a backslash, and the braces opened are closed. */
  predicate Unquoted(s: string, depth: nat, escaped: bool) {
    if s == [] then depth == 0 && !escaped
    else if escaped then Unquoted(s[1..], depth, false)
    else if s[0] == '\\' then Unquoted(s[1..], depth, true)
    else if s[0] == '{' then Unquoted(s[1..], depth + 1, false)
    else if s[0] == '}' then Unquoted(s[1..], if depth > 0 then depth - 1 else 0, false)
    else if s[0] == '"' && depth == 0 then false
    else Unquoted(s[1..], depth, false)
  }

  const DELIMITERS: set<char> := {'=', ',', '#', '{', '}', '(', ')', '"'}

  lemma NameCharExact(c: char)
    ensures IsNameChar(c) <==> c as int !in SplitTexts.WHITE_SPACE && c !in DELIMITERS
  {
    SplitTexts.WhitespaceExact(c);
  }

  predicate IsNumber(s: string) {
    s != [] && forall i :: 0 <= i < |s| ==> '0' <= s[i] <= '9'
  }

  predicate LegalPart(p: ValuePart) {
    match p
    case Braced(text) => Encloses(text, '{', '}', 0, false)
    case QuotedText(text) => Unquoted(text, 0, false)
    case Number(digits) => IsNumber(digits)
    case MacroName(name) => IsName(name) && !IsNumber(name)
  }

  predicate LegalParts(parts: seq<ValuePart>) {
    parts != [] && forall i :: 0 <= i < |parts| ==> LegalPart(parts[i])
  }

  predicate LegalFields(language: Language, fields: seq<NamedValue>) {
    forall i :: 0 <= i < |fields| ==>
      IsName(fields[i].name) && language.lower(fields[i].name) != [] && LegalParts(fields[i].parts)
  }

  predicate LegalSource(language: Language, item: Source) {
    match item
    case EntrySource(_, _, kind, key, fields) =>
      && IsName(kind) && IsName(key) && LegalFields(language, fields)
      && language.lower(kind) != "comment" && language.lower(kind) != "preamble" && language.lower(kind) != "string"
    case MacroSource(_, _, word, name, parts) => IsName(word) && language.lower(word) == "string" && IsName(name) && LegalParts(parts)
    case PreambleSource(_, _, word, parts) => IsName(word) && language.lower(word) == "preamble" && LegalParts(parts)
    case CommentSource(paren, word, text) =>
      IsName(word) && language.lower(word) == "comment" && Encloses(text, Opens(paren), Closes(paren), 0, false)
    case Between(text) => '@' !in text
    case StrayAt(word, next) => IsName(word) && Solid([next]) && next != '{' && next != '(' && next != '@'
  }

  // ----- Meaning -----

  /** A macro stands for its text, whatever the case of its name, and an unknown one for nothing. */
  function PartMeaning(language: Language, macros: map<string, string>, p: ValuePart): string {
    match p
    case Braced(text) => text
    case QuotedText(text) => text
    case Number(digits) => digits
    case MacroName(name) => if language.lower(name) in macros then macros[language.lower(name)] else []
  }

  /** The texts of the parts, in order. */
  function Meaning(language: Language, macros: map<string, string>, parts: seq<ValuePart>): string {
    if parts == [] then [] else PartMeaning(language, macros, parts[0]) + Meaning(language, macros, parts[1..])
  }

  /** The line on which `rest` starts, in a source with that many line breaks. */
  function LineAt(lines: nat, rest: string): int {
    1 + lines - multiset(rest)['\n']
  }

  /** One warning for an unknown macro, with the line of its name. */
  function PartWarnings(ctx: Context, macros: map<string, string>, p: ValuePart, rest: string): seq<Warning> {
    if p.MacroName? && ctx.language.lower(p.name) !in macros
    then [UndefinedMacro(LineAt(ctx.lines, p.name + rest), p.name)] else []
  }

  function PartsWarnings(
    ctx: Context, macros: map<string, string>, gap: seq<Space>, parts: seq<ValuePart>, rest: string): seq<Warning>
  {
    if parts == [] then []
    else
      var behind := GapText(gap, if |parts| == 1 then rest else ['#'] + PartsText(gap, parts[1..], rest));
      PartWarnings(ctx, macros, parts[0], behind) + PartsWarnings(ctx, macros, gap, parts[1..], rest)
  }

  /** Of fields with one name, in whatever case, the first counts; spaces are collapsed before it is decomposed. */
  function FieldValues(language: Language, macros: map<string, string>, fields: seq<NamedValue>): map<string, string> {
    if fields == [] then map[]
    else
      FieldValues(language, macros, fields[1..])[
        language.lower(fields[0].name) := language.decompose(Collapse(Meaning(language, macros, fields[0].parts)))]
  }

  function FieldsWarnings(
    ctx: Context, macros: map<string, string>, gap: seq<Space>, fields: seq<NamedValue>, last: bool, rest: string)
    : seq<Warning>
  {
    if fields == [] then []
    else
      PartsWarnings(ctx, macros, gap, fields[0].parts,
        if |fields| == 1 && !last then rest else [','] + FieldsText(gap, fields[1..], last, rest))
      + FieldsWarnings(ctx, macros, gap, fields[1..], last, rest)
  }

  function KeysOf(entries: seq<Entry>): set<string> {
    set e | e in entries :: e.key
  }

  /** What an item makes of the database: the first entry with a key counts, the last macro with a name. */
  function AfterSource(ctx: Context, db: State, gap: seq<Space>, item: Source, rest: string): State {
    match item
    case EntrySource(paren, commas, kind, key, fields) =>
      var warned := db.(warnings := db.warnings + FieldsWarnings(ctx, db.macros, gap, fields, commas.last, [Closes(paren)] + rest));
      if key in KeysOf(db.entries) then warned.(warnings := warned.warnings + [DuplicateKey(key, ctx.source)])
      else
        warned.(entries := db.entries +
          [Entry(key, ctx.language.lower(kind), ctx.source, FieldValues(ctx.language, db.macros, fields))])
    case MacroSource(paren, comma, _, name, parts) =>
      db.(macros := db.macros[ctx.language.lower(name) := Meaning(ctx.language, db.macros, parts)],
          warnings := db.warnings + PartsWarnings(ctx, db.macros, gap, parts, CommaText(gap, comma, [Closes(paren)] + rest)))
    case PreambleSource(paren, comma, _, parts) =>
      db.(preamble := db.preamble + [Meaning(ctx.language, db.macros, parts)],
          warnings := db.warnings + PartsWarnings(ctx, db.macros, gap, parts, CommaText(gap, comma, [Closes(paren)] + rest)))
    case CommentSource(_, _, _) => db
    case Between(_) => db
    case StrayAt(_, _) => db
  }

  function ReadAll(ctx: Context, db: State, gap: seq<Space>, items: seq<Source>, rest: string): State
    decreases |items|
  {
    if items == [] then db
    else ReadAll(ctx, AfterSource(ctx, db, gap, items[0], SourcesText(gap, items[1..], rest)), gap, items[1..], rest)
  }

  // ----- Gaps -----

  predicate Solid(s: string) {
    s != [] && !Splitting.IsWhitespace(s[0]) && s[0] != '%'
  }

  lemma {:induction false} LineSkipped(text: string, rest: string)
    requires '\n' !in text
    ensures AfterLine(text + (['\n'] + rest)) == rest
    decreases |text|
  {
    if text == [] {
      assert text + (['\n'] + rest) == ['\n'] + rest;
    } else {
      assert (text + (['\n'] + rest))[1..] == text[1..] + (['\n'] + rest);
      assert text[0] in text;
      LineSkipped(text[1..], rest);
    }
  }

  lemma {:induction false} GapSkipped(gap: seq<Space>, s: string)
    requires AllSpaces(gap) && Solid(s)
    ensures AfterSpace(GapText(gap, s)) == s
    decreases |gap|
  {
    if gap == [] {
      SpaceStops(s);
    } else {
      var more := GapText(gap[1..], s);
      GapSkipped(gap[1..], s);
      match gap[0]
      case Blank(c) => BlankSkipped(c, more);
      case LineComment(text) => CommentSkipped(text, more);
    }
  }

  lemma BlankSkipped(c: char, more: string)
    requires Splitting.IsWhitespace(c)
    ensures AfterSpace([c] + more) == AfterSpace(more)
  {
    assert ([c] + more)[1..] == more;
  }

  lemma CommentSkipped(text: string, more: string)
    requires '\n' !in text
    ensures AfterSpace(['%'] + (text + (['\n'] + more))) == AfterSpace(more)
  {
    LineSkipped(['%'] + text, more);
    assert ['%'] + text + (['\n'] + more) == ['%'] + (text + (['\n'] + more));
  }

  /** What a gap begins with ends a name, and is no closing delimiter. */
  lemma GapBegins(gap: seq<Space>, s: string)
    requires IsGap(gap)
    ensures GapText(gap, s) != [] && Splitting.IsWhitespace(GapText(gap, s)[0]) && !IsNameChar(GapText(gap, s)[0])
  {
  }

  lemma NameGap(name: string, gap: seq<Space>, s: string)
    requires IsName(name) && IsGap(gap)
    ensures Name(name + GapText(gap, s)) == name && AfterName(name + GapText(gap, s)) == GapText(gap, s)
    ensures Solid(name + GapText(gap, s))
  {
    GapBegins(gap, s);
    NameExact(name, GapText(gap, s));
    assert (name + GapText(gap, s))[0] == name[0];
  }

  // ----- Parts -----

  lemma {:induction false} EnclosedCloses(text: string, open: char, close: char, depth: nat, escaped: bool, rest: string)
    requires open != close && open != '\\' && close != '\\'
    ensures CloseAt(text + ([close] + rest), open, close, depth + 1, escaped) == Some(|text|)
            <==> Encloses(text, open, close, depth, escaped)
    decreases |text|
  {
    var s := text + ([close] + rest);
    if text == [] {
      assert s == [close] + rest && s[1..] == rest;
    } else {
      assert s[0] == text[0] && s[1..] == text[1..] + ([close] + rest);
      if escaped {
        EnclosedCloses(text[1..], open, close, depth, false, rest);
      } else if text[0] == '\\' {
        EnclosedCloses(text[1..], open, close, depth, true, rest);
      } else if text[0] == open {
        EnclosedCloses(text[1..], open, close, depth + 1, false, rest);
      } else if text[0] == close {
        if depth > 0 {
          EnclosedCloses(text[1..], open, close, depth - 1, false, rest);
        }
      } else {
        EnclosedCloses(text[1..], open, close, depth, false, rest);
      }
    }
  }

  lemma {:induction false} UnquotedCloses(text: string, depth: nat, escaped: bool, rest: string)
    ensures Unquoted(text, depth, escaped) ==> QuoteAt(text + (['"'] + rest), depth, escaped) == Some(|text|)
    decreases |text|
  {
    var s := text + (['"'] + rest);
    if text == [] {
      assert s == ['"'] + rest;
    } else {
      assert s[0] == text[0] && s[1..] == text[1..] + (['"'] + rest);
      if escaped {
        UnquotedCloses(text[1..], depth, false, rest);
      } else if text[0] == '\\' {
        UnquotedCloses(text[1..], depth, true, rest);
      } else if text[0] == '{' {
        UnquotedCloses(text[1..], depth + 1, false, rest);
      } else if text[0] == '}' {
        UnquotedCloses(text[1..], if depth > 0 then depth - 1 else 0, false, rest);
      } else {
        UnquotedCloses(text[1..], depth, false, rest);
      }
    }
  }

  lemma TextAndRest(text: string, close: char, rest: string)
    ensures var s := text + ([close] + rest); s[..|text|] == text && s[|text| + 1..] == rest
  {
  }

  lemma BalancedRead(text: string, open: char, close: char, rest: string)
    requires open != close && open != '\\' && close != '\\' && Encloses(text, open, close, 0, false)
    ensures Balanced([open] + (text + ([close] + rest)), open, close) == Ok(Parsed(text, rest))
  {
    var inner := text + ([close] + rest);
    var s := [open] + inner;
    assert s[1..] == inner;
    EnclosedCloses(text, open, close, 0, false, rest);
    TextAndRest(text, close, rest);
  }

  lemma QuotedRead(text: string, rest: string)
    requires Unquoted(text, 0, false)
    ensures Quoted(['"'] + (text + (['"'] + rest))) == Ok(Parsed(text, rest))
  {
    var inner := text + (['"'] + rest);
    var s := ['"'] + inner;
    assert s[1..] == inner;
    UnquotedCloses(text, 0, false, rest);
    TextAndRest(text, '"', rest);
  }

  lemma NumberIsName(s: string)
    requires IsNumber(s)
    ensures IsName(s) && AllAsciiDigits(s)
  {
  }

  lemma {:induction false} NewlinesCounted(s: string)
    ensures Newlines(s) == multiset(s)['\n']
  {
    if s != [] {
      NewlinesCounted(s[1..]);
      assert s == [s[0]] + s[1..];
    }
  }

  lemma LineIs(ctx: Context, s: string)
    ensures LineOf(ctx, s) == LineAt(ctx.lines, s)
  {
    NewlinesCounted(s);
  }

  lemma AtomIs(ctx: Context, macros: map<string, string>, name: string, s: string, rest: string)
    requires IsName(name) && s == name + rest && Name(s) == name && AfterName(s) == rest
    ensures Part(ctx, macros, s)
            == if IsNumber(name) then Read(Ok(Parsed(name, rest)), [])
               else Read(Ok(Parsed(PartMeaning(ctx.language, macros, MacroName(name)), rest)),
                         PartWarnings(ctx, macros, MacroName(name), rest))
  {
    LineIs(ctx, s);
    assert s[0] == name[0];
    assert AllAsciiDigits(name) <==> IsNumber(name);
  }

  lemma AtomRead(ctx: Context, macros: map<string, string>, name: string, gap: seq<Space>, s: string)
    requires IsName(name) && IsGap(gap)
    ensures var rest := GapText(gap, s);
            && Solid(name + rest)
            && Part(ctx, macros, name + rest)
               == if IsNumber(name) then Read(Ok(Parsed(name, rest)), [])
                  else Read(Ok(Parsed(PartMeaning(ctx.language, macros, MacroName(name)), rest)),
                            PartWarnings(ctx, macros, MacroName(name), rest))
  {
    NameGap(name, gap, s);
    AtomIs(ctx, macros, name, name + GapText(gap, s), GapText(gap, s));
  }

  lemma EnclosedRead(ctx: Context, macros: map<string, string>, p: ValuePart, rest: string)
    requires LegalPart(p) && (p.Braced? || p.QuotedText?)
    ensures Solid(PartText(p, rest)) && Part(ctx, macros, PartText(p, rest)) == Read(Ok(Parsed(p.text, rest)), [])
  {
    match p
    case Braced(text) => BalancedRead(text, '{', '}', rest);
    case QuotedText(text) => QuotedRead(text, rest);
  }

  lemma PartRead(ctx: Context, macros: map<string, string>, p: ValuePart, gap: seq<Space>, s: string)
    requires LegalPart(p) && IsGap(gap)
    ensures var rest := GapText(gap, s);
            && Solid(PartText(p, rest))
            && Part(ctx, macros, PartText(p, rest))
               == Read(Ok(Parsed(PartMeaning(ctx.language, macros, p), rest)), PartWarnings(ctx, macros, p, rest))
  {
    if p.Number? {
      NumberIsName(p.digits);
      AtomRead(ctx, macros, p.digits, gap, s);
    } else if p.MacroName? {
      AtomRead(ctx, macros, p.name, gap, s);
    } else {
      EnclosedRead(ctx, macros, p, GapText(gap, s));
    }
  }

  // ----- Values -----

  /** What may follow a value: neither a name nor another part. */
  predicate EndsValue(rest: string) {
    Solid(rest) && rest[0] != '#'
  }

  lemma LastPart(ctx: Context, macros: map<string, string>, gap: seq<Space>, p: ValuePart, rest: string)
    requires LegalPart(p) && IsGap(gap) && EndsValue(rest)
    ensures NextPart(ctx, macros, GapText(gap, PartText(p, GapText(gap, rest))))
            == Joint(Read(Ok(Parsed(PartMeaning(ctx.language, macros, p), rest)),
                       PartWarnings(ctx, macros, p, GapText(gap, rest))), false)
  {
    PartRead(ctx, macros, p, gap, rest);
    GapSkipped(gap, PartText(p, GapText(gap, rest)));
    GapSkipped(gap, rest);
  }

  lemma JoinedPart(ctx: Context, macros: map<string, string>, gap: seq<Space>, p: ValuePart, more: string)
    requires LegalPart(p) && IsGap(gap)
    ensures var rest := ['#'] + more;
            NextPart(ctx, macros, GapText(gap, PartText(p, GapText(gap, rest))))
            == Joint(Read(Ok(Parsed(PartMeaning(ctx.language, macros, p), more)),
                       PartWarnings(ctx, macros, p, GapText(gap, rest))), true)
  {
    var rest := ['#'] + more;
    PartRead(ctx, macros, p, gap, rest);
    GapSkipped(gap, PartText(p, GapText(gap, rest)));
    GapSkipped(gap, rest);
    assert rest[1..] == more;
  }

  lemma {:induction false} PartsRead(
    ctx: Context, macros: map<string, string>, gap: seq<Space>, parts: seq<ValuePart>, rest: string,
    text: string, warnings: seq<Warning>)
    requires LegalParts(parts) && IsGap(gap) && EndsValue(rest)
    ensures Joined(Parts(ctx, macros), PartsText(gap, parts, rest), text, warnings)
            == Read(Ok(Parsed(text + Meaning(ctx.language, macros, parts), rest)),
                    warnings + PartsWarnings(ctx, macros, gap, parts, rest))
    decreases |parts|
  {
    if |parts| == 1 {
      OnlyPart(ctx, macros, gap, parts, rest, text, warnings);
    } else {
      var p, more := parts[0], PartsText(gap, parts[1..], rest);
      var m := PartMeaning(ctx.language, macros, p);
      var w := PartWarnings(ctx, macros, p, GapText(gap, ['#'] + more));
      JoinedPart(ctx, macros, gap, p, more);
      JoinMore(ctx, macros, PartsText(gap, parts, rest), text, warnings, m, w, more);
      PartsRead(ctx, macros, gap, parts[1..], rest, text + m, warnings + w);
      AppendInner(text, m, Meaning(ctx.language, macros, parts[1..]));
      AppendInner(warnings, w, PartsWarnings(ctx, macros, gap, parts[1..], rest));
    }
  }

  lemma OnlyPart(
    ctx: Context, macros: map<string, string>, gap: seq<Space>, parts: seq<ValuePart>, rest: string,
    text: string, warnings: seq<Warning>)
    requires LegalParts(parts) && |parts| == 1 && IsGap(gap) && EndsValue(rest)
    ensures Joined(Parts(ctx, macros), PartsText(gap, parts, rest), text, warnings)
            == Read(Ok(Parsed(text + Meaning(ctx.language, macros, parts), rest)),
                    warnings + PartsWarnings(ctx, macros, gap, parts, rest))
  {
    var p := parts[0];
    LastPart(ctx, macros, gap, p, rest);
    assert parts[1..] == [];
    JoinLast(ctx, macros, PartsText(gap, parts, rest), text, warnings,
      PartMeaning(ctx.language, macros, p), PartWarnings(ctx, macros, p, GapText(gap, rest)), rest);
    NothingMore(PartMeaning(ctx.language, macros, p));
    NothingMore(PartWarnings(ctx, macros, p, GapText(gap, rest)));
  }

  lemma NothingMore<T>(s: seq<T>)
    ensures s + [] == s && [] + s == s
  {
  }

  lemma JoinLast(
    ctx: Context, macros: map<string, string>, s: string, text: string, warnings: seq<Warning>,
    m: string, w: seq<Warning>, rest: string)
    requires NextPart(ctx, macros, s) == Joint(Read(Ok(Parsed(m, rest)), w), false)
    ensures Joined(Parts(ctx, macros), s, text, warnings) == Read(Ok(Parsed(text + m, rest)), warnings + w)
  {
    assert Parts(ctx, macros)(s) == NextPart(ctx, macros, s);
  }

  lemma JoinMore(
    ctx: Context, macros: map<string, string>, s: string, text: string, warnings: seq<Warning>,
    m: string, w: seq<Warning>, more: string)
    requires NextPart(ctx, macros, s) == Joint(Read(Ok(Parsed(m, more)), w), true)
    ensures Joined(Parts(ctx, macros), s, text, warnings) == Joined(Parts(ctx, macros), more, text + m, warnings + w)
  {
    assert Parts(ctx, macros)(s) == NextPart(ctx, macros, s);
  }

  lemma AppendInner<T>(a: seq<T>, b: seq<T>, c: seq<T>)
    ensures a + b + c == a + (b + c)
  {
  }

  /** A value of several parts is read as the texts of its parts in order. */
  lemma ValueRead(
    ctx: Context, macros: map<string, string>, gap: seq<Space>, parts: seq<ValuePart>, rest: string)
    requires LegalParts(parts) && IsGap(gap) && EndsValue(rest)
    ensures Value(ctx, macros, PartsText(gap, parts, rest))
            == Read(Ok(Parsed(Meaning(ctx.language, macros, parts), rest)), PartsWarnings(ctx, macros, gap, parts, rest))
  {
    PartsRead(ctx, macros, gap, parts, rest, [], []);
    NothingMore(Meaning(ctx.language, macros, parts));
    NothingMore(PartsWarnings(ctx, macros, gap, parts, rest));
  }

  // ----- Fields -----

  /** Values that come later do not replace those there. */
  function Under(first: map<string, string>, later: map<string, string>): map<string, string> {
    later + first
  }

  lemma OneField(
    ctx: Context, db: State, gap: seq<Space>, entry: Entry, f: NamedValue, rest: string)
    requires IsGap(gap) && IsName(f.name) && ctx.language.lower(f.name) != [] && LegalParts(f.parts) && EndsValue(rest)
    ensures var start := f.name + GapText(gap, ['='] + PartsText(gap, f.parts, rest));
            var value := ctx.language.decompose(Collapse(Meaning(ctx.language, db.macros, f.parts)));
            && Solid(start)
            && Field(ctx, db, entry, start)
               == FieldRead(db.(warnings := db.warnings + PartsWarnings(ctx, db.macros, gap, f.parts, rest)),
                    Ok(Extended(WithField(entry, ctx.language.lower(f.name), value), rest)))
  {
    var equals := ['='] + PartsText(gap, f.parts, rest);
    NameGap(f.name, gap, equals);
    GapSkipped(gap, equals);
    assert equals[1..] == PartsText(gap, f.parts, rest);
    ValueRead(ctx, db.macros, gap, f.parts, rest);
    SpaceStops(rest);
  }

  lemma FieldsMore(ctx: Context, db: State, entry: Entry, close: char, s: string, start: string, read: FieldRead)
    requires AfterSpace(s) == start && !StartsWith(start, close) && Field(ctx, db, entry, start) == read
    requires read.result.Ok? && StartsWith(read.result.value.rest, ',')
    ensures Fields(ctx, db, close, entry, s)
            == Fields(ctx, read.state, close, read.result.value.entry, read.result.value.rest[1..])
  {
  }

  lemma FieldsEnd(ctx: Context, db: State, entry: Entry, close: char, gap: seq<Space>, rest: string)
    requires IsGap(gap) && (close == '}' || close == ')')
    ensures Fields(ctx, db, close, entry, GapText(gap, [close] + rest)) == Next(Added(ctx, db, entry), rest)
  {
    GapSkipped(gap, [close] + rest);
    assert ([close] + rest)[1..] == rest;
  }

  lemma UnderNext(first: map<string, string>, later: map<string, string>, name: string, value: string)
    ensures Under(if name in first then first else first[name := value], later) == Under(first, later[name := value])
  {
  }

  lemma FieldsClose(ctx: Context, db: State, entry: Entry, close: char, rest: string)
    requires close == '}' || close == ')'
    ensures Fields(ctx, db, close, entry, [close] + rest) == Next(Added(ctx, db, entry), rest)
  {
    SpaceStops([close] + rest);
    assert ([close] + rest)[1..] == rest;
  }

  /** The closing delimiter may stand right behind the last value. */
  lemma FieldsLast(ctx: Context, db: State, entry: Entry, close: char, s: string, start: string, read: FieldRead)
    requires AfterSpace(s) == start && !StartsWith(start, close) && Field(ctx, db, entry, start) == read
    requires read.result.Ok? && StartsWith(read.result.value.rest, close) && close != ','
    ensures Fields(ctx, db, close, entry, s)
            == Fields(ctx, read.state, close, read.result.value.entry, read.result.value.rest)
  {
  }

  lemma LastField(ctx: Context, db: State, gap: seq<Space>, entry: Entry, f: NamedValue, close: char, rest: string)
    requires IsGap(gap) && IsName(f.name) && ctx.language.lower(f.name) != [] && LegalParts(f.parts)
    requires close == '}' || close == ')'
    ensures var value := ctx.language.decompose(Collapse(Meaning(ctx.language, db.macros, f.parts)));
            Fields(ctx, db, close, entry,
              GapText(gap, f.name + GapText(gap, ['='] + PartsText(gap, f.parts, [close] + rest))))
            == Next(Added(ctx, db.(warnings := db.warnings + PartsWarnings(ctx, db.macros, gap, f.parts, [close] + rest)),
                      WithField(entry, ctx.language.lower(f.name), value)), rest)
  {
    var start := f.name + GapText(gap, ['='] + PartsText(gap, f.parts, [close] + rest));
    var read := Field(ctx, db, entry, start);
    OneField(ctx, db, gap, entry, f, [close] + rest);
    GapSkipped(gap, start);
    assert start[0] == f.name[0];
    FieldsLast(ctx, db, entry, close, GapText(gap, start), start, read);
    FieldsClose(ctx, read.state, read.result.value.entry, close, rest);
  }

  /** What one field makes of the database. */
  function AfterField(ctx: Context, db: State, gap: seq<Space>, f: NamedValue, rest: string): State {
    db.(warnings := db.warnings + PartsWarnings(ctx, db.macros, gap, f.parts, rest))
  }

  function WithNamed(ctx: Context, db: State, entry: Entry, f: NamedValue): Entry {
    WithField(entry, ctx.language.lower(f.name), ctx.language.decompose(Collapse(Meaning(ctx.language, db.macros, f.parts))))
  }

  /** What the fields make of the entry, and it of the database. */
  function AfterFields(
    ctx: Context, db: State, gap: seq<Space>, entry: Entry, fields: seq<NamedValue>, last: bool, rest: string): State
  {
    Added(ctx, db.(warnings := db.warnings + FieldsWarnings(ctx, db.macros, gap, fields, last, rest)),
      entry.(fields := Under(entry.fields, FieldValues(ctx.language, db.macros, fields))))
  }

  lemma NoFields(ctx: Context, db: State, gap: seq<Space>, entry: Entry, last: bool, rest: string)
    ensures AfterFields(ctx, db, gap, entry, [], last, rest) == Added(ctx, db, entry)
  {
    assert db.warnings + [] == db.warnings;
    assert Under(entry.fields, map[]) == entry.fields;
  }

  lemma FieldFirst(ctx: Context, db: State, gap: seq<Space>, entry: Entry, fields: seq<NamedValue>, last: bool, rest: string)
    requires fields != []
    ensures var tail := if |fields| == 1 && !last then rest else [','] + FieldsText(gap, fields[1..], last, rest);
            AfterFields(ctx, db, gap, entry, fields, last, rest)
            == AfterFields(ctx, AfterField(ctx, db, gap, fields[0], tail), gap, WithNamed(ctx, db, entry, fields[0]),
                 fields[1..], last, rest)
  {
    var f := fields[0];
    var tail := if |fields| == 1 && !last then rest else [','] + FieldsText(gap, fields[1..], last, rest);
    UnderNext(entry.fields, FieldValues(ctx.language, db.macros, fields[1..]), ctx.language.lower(f.name),
      ctx.language.decompose(Collapse(Meaning(ctx.language, db.macros, f.parts))));
    AppendInner(db.warnings, PartsWarnings(ctx, db.macros, gap, f.parts, tail),
      FieldsWarnings(ctx, db.macros, gap, fields[1..], last, rest));
  }

  lemma {:induction false} FieldsRead(
    ctx: Context, db: State, gap: seq<Space>, entry: Entry, fields: seq<NamedValue>, last: bool, close: char, rest: string)
    requires IsGap(gap) && LegalFields(ctx.language, fields) && (close == '}' || close == ')')
    ensures Fields(ctx, db, close, entry, FieldsText(gap, fields, last, [close] + rest))
            == Next(AfterFields(ctx, db, gap, entry, fields, last, [close] + rest), rest)
    decreases |fields|
  {
    if fields == [] {
      FieldsEnd(ctx, db, entry, close, gap, rest);
      NoFields(ctx, db, gap, entry, last, [close] + rest);
    } else {
      FieldFirst(ctx, db, gap, entry, fields, last, [close] + rest);
      if |fields| == 1 && !last {
        LastField(ctx, db, gap, entry, fields[0], close, rest);
        NoFields(ctx, AfterField(ctx, db, gap, fields[0], [close] + rest), gap, WithNamed(ctx, db, entry, fields[0]), last,
          [close] + rest);
      } else {
        var more := FieldsText(gap, fields[1..], last, [close] + rest);
        FieldAndMore(ctx, db, gap, entry, fields[0], close, more);
        FieldsRead(ctx, AfterField(ctx, db, gap, fields[0], [','] + more), gap, WithNamed(ctx, db, entry, fields[0]),
          fields[1..], last, close, rest);
      }
    }
  }

  lemma FieldAndMore(
    ctx: Context, db: State, gap: seq<Space>, entry: Entry, f: NamedValue, close: char, more: string)
    requires IsGap(gap) && IsName(f.name) && ctx.language.lower(f.name) != [] && LegalParts(f.parts)
    requires close == '}' || close == ')'
    ensures var w := PartsWarnings(ctx, db.macros, gap, f.parts, [','] + more);
            var value := ctx.language.decompose(Collapse(Meaning(ctx.language, db.macros, f.parts)));
            Fields(ctx, db, close, entry,
              GapText(gap, f.name + GapText(gap, ['='] + PartsText(gap, f.parts, [','] + more))))
            == Fields(ctx, db.(warnings := db.warnings + w), close,
                 WithField(entry, ctx.language.lower(f.name), value), more)
  {
    var start := f.name + GapText(gap, ['='] + PartsText(gap, f.parts, [','] + more));
    OneField(ctx, db, gap, entry, f, [','] + more);
    GapSkipped(gap, start);
    assert start[0] == f.name[0] && ([','] + more)[1..] == more;
    FieldsMore(ctx, db, entry, close, GapText(gap, start), start, Field(ctx, db, entry, start));
  }

  // ----- Items -----

  lemma Opened(ctx: Context, db: State, gap: seq<Space>, word: string, paren: bool, inner: string)
    requires IsGap(gap) && IsName(word) && ctx.language.lower(word) != COMMENT
    ensures Item(ctx, db, GapText(gap, word + GapText(gap, [Opens(paren)] + inner)))
            == Body(ctx, db, ctx.language.lower(word), Closes(paren), AfterSpace(inner))
  {
    ItemWord(gap, word, [Opens(paren)] + inner);
    assert ([Opens(paren)] + inner)[1..] == inner;
  }

  /** The word behind the `@`, and the delimiter behind it. */
  lemma ItemWord(gap: seq<Space>, word: string, start: string)
    requires IsGap(gap) && IsName(word) && Solid(start)
    ensures var s := GapText(gap, word + GapText(gap, start)); Name(s) == word && AfterSpace(AfterName(s)) == start
  {
    var s := GapText(gap, word + GapText(gap, start));
    NameGap(word, gap, start);
    GapSkipped(gap, word + GapText(gap, start));
    SpaceStops(word + GapText(gap, start));
    GapSkipped(gap, start);
  }

  lemma CommentRead(ctx: Context, db: State, gap: seq<Space>, paren: bool, word: string, text: string, rest: string)
    requires IsGap(gap) && IsName(word) && ctx.language.lower(word) == "comment"
    requires Encloses(text, Opens(paren), Closes(paren), 0, false)
    ensures Item(ctx, db, GapText(gap, word + GapText(gap, [Opens(paren)] + (text + ([Closes(paren)] + rest)))))
            == Next(db, rest)
  {
    var start := [Opens(paren)] + (text + ([Closes(paren)] + rest));
    ItemWord(gap, word, start);
    BalancedRead(text, Opens(paren), Closes(paren), rest);
  }

  lemma ClosedRead(gap: seq<Space>, paren: bool, comma: bool, rest: string)
    requires IsGap(gap)
    ensures AfterComma(AfterSpace(CommaText(gap, comma, [Closes(paren)] + rest))) == [Closes(paren)] + rest
    ensures ([Closes(paren)] + rest)[1..] == rest && EndsValue(CommaText(gap, comma, [Closes(paren)] + rest))
  {
    var close := [Closes(paren)] + rest;
    SpaceStops(CommaText(gap, comma, close));
    GapSkipped(gap, close);
    assert ([','] + GapText(gap, close))[1..] == GapText(gap, close);
  }

  lemma {:induction false} SpaceTwice(s: string)
    ensures AfterSpace(AfterSpace(s)) == AfterSpace(s)
    decreases |s|
  {
    if s != [] {
      if Splitting.IsWhitespace(s[0]) {
        SpaceTwice(s[1..]);
      } else if s[0] == '%' {
        SpaceTwice(AfterLine(s));
      }
    }
  }

  /** A value does not depend on the space before it. */
  lemma ValueSpace(ctx: Context, macros: map<string, string>, s: string)
    ensures Value(ctx, macros, AfterSpace(s)) == Value(ctx, macros, s)
  {
    SpaceTwice(s);
    assert Parts(ctx, macros)(s) == Parts(ctx, macros)(AfterSpace(s));
    JoinedSpace(Parts(ctx, macros), s, AfterSpace(s));
  }

  lemma JoinedSpace(next: string -> Joint, s: string, u: string)
    requires next(s) == next(u)
    requires next(s).more ==> next(s).read.result.Ok?
    requires next(s).more ==> |next(s).read.result.value.rest| < |u| && |next(s).read.result.value.rest| < |s|
    ensures Joined(next, s, [], []) == Joined(next, u, [], [])
  {
  }

  lemma PreambleRead(
    ctx: Context, db: State, gap: seq<Space>, paren: bool, comma: bool, parts: seq<ValuePart>, rest: string)
    requires IsGap(gap) && LegalParts(parts)
    ensures var behind := CommaText(gap, comma, [Closes(paren)] + rest);
            Preamble(ctx, db, Closes(paren), AfterSpace(PartsText(gap, parts, behind)))
            == Next(db.(preamble := db.preamble + [Meaning(ctx.language, db.macros, parts)],
                        warnings := db.warnings + PartsWarnings(ctx, db.macros, gap, parts, behind)), rest)
  {
    var behind := CommaText(gap, comma, [Closes(paren)] + rest);
    ClosedRead(gap, paren, comma, rest);
    ValueRead(ctx, db.macros, gap, parts, behind);
    ValueSpace(ctx, db.macros, PartsText(gap, parts, behind));
  }

  lemma MacroRead(
    ctx: Context, db: State, gap: seq<Space>, paren: bool, comma: bool, name: string, parts: seq<ValuePart>, rest: string)
    requires IsGap(gap) && IsName(name) && LegalParts(parts)
    ensures var behind := CommaText(gap, comma, [Closes(paren)] + rest);
            Macro(ctx, db, Closes(paren), name + GapText(gap, ['='] + PartsText(gap, parts, behind)))
            == Next(db.(macros := db.macros[ctx.language.lower(name) := Meaning(ctx.language, db.macros, parts)],
                        warnings := db.warnings + PartsWarnings(ctx, db.macros, gap, parts, behind)), rest)
  {
    var behind := CommaText(gap, comma, [Closes(paren)] + rest);
    var equals := ['='] + PartsText(gap, parts, behind);
    NameGap(name, gap, equals);
    GapSkipped(gap, equals);
    assert equals[1..] == PartsText(gap, parts, behind);
    ClosedRead(gap, paren, comma, rest);
    ValueRead(ctx, db.macros, gap, parts, behind);
  }

  lemma {:induction false} GapMore(gap: seq<Space>, s: string)
    requires AllSpaces(gap)
    ensures AfterSpace(GapText(gap, s)) == AfterSpace(s)
    decreases |gap|
  {
    if gap != [] {
      GapMore(gap[1..], s);
      match gap[0]
      case Blank(c) => BlankSkipped(c, GapText(gap[1..], s));
      case LineComment(text) => CommentSkipped(text, GapText(gap[1..], s));
    }
  }

  /** The fields of an entry do not depend on the space before them. */
  lemma FieldsSpace(ctx: Context, db: State, entry: Entry, close: char, s: string)
    ensures Fields(ctx, db, close, entry, AfterSpace(s)) == Fields(ctx, db, close, entry, s)
  {
    SpaceTwice(s);
  }

  lemma FieldsStart(gap: seq<Space>, fields: seq<NamedValue>, last: bool, close: char, rest: string)
    requires IsGap(gap) && (forall i :: 0 <= i < |fields| ==> IsName(fields[i].name)) && (close == '}' || close == ')')
    ensures var s := AfterSpace(FieldsText(gap, fields, last, [close] + rest)); s != [] && s[0] != ','
  {
    if fields == [] {
      GapSkipped(gap, [close] + rest);
    } else {
      var equals := ['='] + PartsText(gap, fields[0].parts,
        if |fields| == 1 && !last then [close] + rest else [','] + FieldsText(gap, fields[1..], last, [close] + rest));
      NameGap(fields[0].name, gap, equals);
      GapSkipped(gap, fields[0].name + GapText(gap, equals));
    }
  }

  /** The key, with or without a comma behind it. */
  lemma KeyRead(
    ctx: Context, db: State, gap: seq<Space>, kind: string, close: char, commas: Commas, key: string,
    fields: seq<NamedValue>, rest: string)
    requires IsGap(gap) && IsName(key) && LegalFields(ctx.language, fields) && (close == '}' || close == ')')
    ensures EntryBody(ctx, db, kind, close, key + GapText(gap, EntryTail(gap, commas, fields, [close] + rest)))
            == Fields(ctx, db, close, Entry(key, kind, ctx.source, map[]), FieldsText(gap, fields, commas.last, [close] + rest))
  {
    var text, entry := FieldsText(gap, fields, commas.last, [close] + rest), Entry(key, kind, ctx.source, map[]);
    NameGap(key, gap, EntryTail(gap, commas, fields, [close] + rest));
    if commas.key {
      GapSkipped(gap, [','] + text);
      assert ([','] + text)[1..] == text;
    } else {
      assert [] + text == text;
      GapMore(gap, text);
      FieldsStart(gap, fields, commas.last, close, rest);
      FieldsSpace(ctx, db, entry, close, text);
    }
  }

  lemma BodyRead(
    ctx: Context, db: State, gap: seq<Space>, kind: string, paren: bool, commas: Commas, key: string,
    fields: seq<NamedValue>, rest: string)
    requires IsGap(gap) && IsName(key) && LegalFields(ctx.language, fields)
    ensures EntryBody(ctx, db, kind, Closes(paren), key + GapText(gap, EntryTail(gap, commas, fields, [Closes(paren)] + rest)))
            == Next(AfterFields(ctx, db, gap, Entry(key, kind, ctx.source, map[]), fields, commas.last, [Closes(paren)] + rest),
                 rest)
  {
    KeyRead(ctx, db, gap, kind, Closes(paren), commas, key, fields, rest);
    FieldsRead(ctx, db, gap, Entry(key, kind, ctx.source, map[]), fields, commas.last, Closes(paren), rest);
  }

  lemma EntryAdded(
    ctx: Context, db: State, gap: seq<Space>, kind: string, key: string, fields: seq<NamedValue>, last: bool, rest: string)
    ensures var w := FieldsWarnings(ctx, db.macros, gap, fields, last, rest);
            var warned := db.(warnings := db.warnings + w);
            AfterFields(ctx, db, gap, Entry(key, kind, ctx.source, map[]), fields, last, rest)
            == if key in KeysOf(db.entries) then warned.(warnings := warned.warnings + [DuplicateKey(key, ctx.source)])
               else warned.(entries := db.entries + [Entry(key, kind, ctx.source, FieldValues(ctx.language, db.macros, fields))])
  {
    var values := FieldValues(ctx.language, db.macros, fields);
    assert Under(map[], values) == values;
    AddedIs(ctx, db.(warnings := db.warnings + FieldsWarnings(ctx, db.macros, gap, fields, last, rest)),
      Entry(key, kind, ctx.source, values));
  }

  lemma AddedIs(ctx: Context, db: State, entry: Entry)
    ensures Added(ctx, db, entry)
            == if entry.key in KeysOf(db.entries) then db.(warnings := db.warnings + [DuplicateKey(entry.key, ctx.source)])
               else db.(entries := db.entries + [entry])
  {
    if i :| 0 <= i < |db.entries| && db.entries[i].key == entry.key {
      assert db.entries[i] in db.entries;
    }
  }

  /** The text of an item behind its `@`. */
  lemma ItemRead(ctx: Context, db: State, gap: seq<Space>, item: Source, rest: string)
    requires IsGap(gap) && LegalSource(ctx.language, item) && !item.Between? && !item.StrayAt?
    ensures var s := SourceText(gap, item, rest);
            s != [] && s[0] == '@' && Item(ctx, db, s[1..]) == Next(AfterSource(ctx, db, gap, item, rest), rest)
  {
    var s, behind := SourceText(gap, item, rest), [Closes(item.paren)] + rest;
    match item
    case EntrySource(paren, commas, kind, key, fields) =>
      var body := key + GapText(gap, EntryTail(gap, commas, fields, behind));
      assert s[1..] == GapText(gap, kind + GapText(gap, [Opens(paren)] + GapText(gap, body)));
      Opened(ctx, db, gap, kind, paren, GapText(gap, body));
      NameGap(key, gap, EntryTail(gap, commas, fields, behind));
      GapSkipped(gap, body);
      BodyRead(ctx, db, gap, ctx.language.lower(kind), paren, commas, key, fields, rest);
      EntryAdded(ctx, db, gap, ctx.language.lower(kind), key, fields, commas.last, behind);
    case MacroSource(paren, comma, word, name, parts) =>
      var equals := ['='] + PartsText(gap, parts, CommaText(gap, comma, behind));
      assert s[1..] == GapText(gap, word + GapText(gap, [Opens(paren)] + GapText(gap, name + GapText(gap, equals))));
      Opened(ctx, db, gap, word, paren, GapText(gap, name + GapText(gap, equals)));
      NameGap(name, gap, equals);
      GapSkipped(gap, name + GapText(gap, equals));
      MacroRead(ctx, db, gap, paren, comma, name, parts, rest);
    case PreambleSource(paren, comma, word, parts) =>
      var value := PartsText(gap, parts, CommaText(gap, comma, behind));
      assert s[1..] == GapText(gap, word + GapText(gap, [Opens(paren)] + value));
      Opened(ctx, db, gap, word, paren, value);
      PreambleRead(ctx, db, gap, paren, comma, parts, rest);
    case CommentSource(paren, word, text) =>
      assert s[1..] == GapText(gap, word + GapText(gap, [Opens(paren)] + (text + behind)));
      CommentRead(ctx, db, gap, paren, word, text, rest);
  }

  lemma {:induction false} BetweenRead(ctx: Context, db: State, text: string, rest: string)
    requires '@' !in text
    ensures AddAll(ctx, db, text + rest) == AddAll(ctx, db, rest)
    decreases |text|
  {
    if text == [] {
      assert text + rest == rest;
    } else {
      assert text[0] in text;
      assert (text + rest)[1..] == text[1..] + rest;
      BetweenRead(ctx, db, text[1..], rest);
    }
  }

  lemma ItemAdds(ctx: Context, db: State, s: string, next: State, rest: string)
    requires s != [] && s[0] == '@' && Item(ctx, db, s[1..]) == Next(next, rest)
    ensures AddAll(ctx, db, s) == AddAll(ctx, next, rest)
  {
    assert Items(ctx)(db, s[1..]) == Next(next, rest);
  }

  lemma StrayRead(ctx: Context, db: State, gap: seq<Space>, word: string, next: char, rest: string)
    requires IsGap(gap) && IsName(word) && Solid([next]) && next != '{' && next != '(' && next != '@'
    ensures AddAll(ctx, db, ['@'] + GapText(gap, word + GapText(gap, [next] + rest))) == AddAll(ctx, db, rest)
  {
    var s, start := ['@'] + GapText(gap, word + GapText(gap, [next] + rest)), [next] + rest;
    assert s[1..] == GapText(gap, word + GapText(gap, start));
    ItemWord(gap, word, start);
    ItemAdds(ctx, db, s, db, start);
    assert start[1..] == rest;
  }

  /** The items of a source are read as what they mean, one after another, and then what is behind them. */
  lemma {:induction false} SourcesRead(ctx: Context, db: State, gap: seq<Space>, items: seq<Source>, rest: string)
    requires IsGap(gap) && forall i :: 0 <= i < |items| ==> LegalSource(ctx.language, items[i])
    ensures AddAll(ctx, db, SourcesText(gap, items, rest)) == AddAll(ctx, ReadAll(ctx, db, gap, items, rest), rest)
    decreases |items|
  {
    if items != [] {
      var item, more := items[0], SourcesText(gap, items[1..], rest);
      var next := AfterSource(ctx, db, gap, item, more);
      if item.Between? {
        BetweenRead(ctx, db, item.text, more);
      } else if item.StrayAt? {
        StrayRead(ctx, db, gap, item.word, item.next, more);
      } else {
        ItemRead(ctx, db, gap, item, more);
        ItemAdds(ctx, db, SourceText(gap, item, more), next, more);
      }
      SourcesRead(ctx, next, gap, items[1..], rest);
    }
  }

  /** A whole source is read without an error. */
  lemma SourceRead(ctx: Context, db: State, gap: seq<Space>, items: seq<Source>)
    requires IsGap(gap) && forall i :: 0 <= i < |items| ==> LegalSource(ctx.language, items[i])
    ensures AddAll(ctx, db, SourcesText(gap, items, [])) == Outcome(ReadAll(ctx, db, gap, items, []), None)
  {
    SourcesRead(ctx, db, gap, items, []);
  }

  /** A source that ends behind the word of an item is read without an error, and nothing of that item is. */
  lemma CutOffRead(ctx: Context, db: State, gap: seq<Space>, items: seq<Source>, word: string)
    requires IsGap(gap) && (forall i :: 0 <= i < |items| ==> LegalSource(ctx.language, items[i])) && IsName(word)
    ensures var end := ['@'] + GapText(gap, word + GapText(gap, []));
            AddAll(ctx, db, SourcesText(gap, items, end)) == Outcome(ReadAll(ctx, db, gap, items, end), None)
  {
    var s := word + GapText(gap, []);
    var end := ['@'] + GapText(gap, s);
    var read := ReadAll(ctx, db, gap, items, end);
    SourcesRead(ctx, db, gap, items, end);
    NameGap(word, gap, []);
    GapSkipped(gap, s);
    SpaceStops(s);
    GapMore(gap, []);
    assert end[1..] == GapText(gap, s);
    assert Items(ctx)(read, end[1..]) == Stop(read);
  }
}

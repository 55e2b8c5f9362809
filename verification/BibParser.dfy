/**
 The BibTeX parser over a cursor and the database it fills (`Parser` and `Database`,
 crates/tex-biber/src/bib.rs). Positions count characters.
 */
module BibParser {
  import opened Wrappers
  import opened BibSpaces
  import opened BibSyntax

  class Parser {
    const input: string
    var pos: nat
    var line: nat

    ghost predicate Valid()
      reads this
    {
      pos <= |input| && line == 1 + Newlines(input) - Newlines(input[pos..])
    }

    /** The text still to be read. */
    function Rest(): string
      reads this
      requires pos <= |input|
    {
      input[pos..]
    }

    constructor (input: string)
      ensures Valid() && Rest() == input && this.input == input
    {
      this.input, pos, line := input, 0, 1;
    }

    function Peek(): (c: Option<char>)
      reads this
      requires pos <= |input|
      ensures c.Some? <==> Rest() != []
      ensures c.Some? ==> c.value == Rest()[0]
    {
      if pos < |input| then Some(input[pos]) else None
    }

    method Next() returns (c: Option<char>)
      requires Valid()
      modifies this
      ensures Valid() && c == old(Peek())
      ensures pos == old(pos) + if c.Some? then 1 else 0
      ensures Rest() == if old(Rest()) == [] then [] else old(Rest())[1..]
    {
      c := Peek();
      if c.Some? {
        ghost var before := Rest();
        pos := pos + 1;
        assert Rest() == before[1..];
        if c.value == '\n' {
          line := line + 1;
        }
      }
    }

    method SkipLine()
      requires Valid()
      modifies this
      ensures Valid() && Rest() == AfterLine(old(Rest()))
    {
      ghost var start := Rest();
      var more := true;
      while more
        invariant Valid()
        invariant more ==> AfterLine(Rest()) == AfterLine(start)
        invariant !more ==> Rest() == AfterLine(start)
        decreases more, |Rest()|
      {
        var c := Next();
        more := c.Some? && c.value != '\n';
      }
    }

    method SkipSpace()
      requires Valid()
      modifies this
      ensures Valid() && Rest() == AfterSpace(old(Rest()))
    {
      ghost var start := Rest();
      while Peek().Some? && (Splitting.IsWhitespace(Peek().value) || Peek().value == '%')
        invariant Valid() && AfterSpace(Rest()) == AfterSpace(start)
        decreases |Rest()|
      {
        if Peek().value == '%' {
          SkipLine();
        } else {
          var c := Next();
        }
      }
    }

    method Ident() returns (name: string)
      requires Valid()
      modifies this
      ensures Valid() && name == Name(old(Rest())) && Rest() == AfterName(old(Rest()))
    {
      SkipSpace();
      var start := pos;
      while Peek().Some? && IsNameChar(Peek().value)
        invariant Valid() && start <= pos && AllNameChars(input, start, pos)
        decreases |input| - pos
      {
        var c := Next();
      }
      NameScanned(input, start, pos);
      name := input[start..pos];
    }

    /** Behind the delimiter that closes `depth` open ones. */
    method ScanClose(open: char, close: char) returns (found: bool)
      requires Valid()
      modifies this
      ensures Valid() && pos >= old(pos)
      ensures match CloseAt(old(Rest()), open, close, 1, false)
              case None => !found
              case Some(n) => found && pos == old(pos) + n + 1
    {
      var depth, escaped := 1, false;
      var start := pos;
      ghost var whole := CloseAt(Rest(), open, close, 1, false);
      found := false;
      while !found && Peek().Some?
        invariant Valid() && start <= pos && depth >= 1
        invariant !found ==> whole == ShiftBy(CloseAt(Rest(), open, close, depth, escaped), pos - start)
        invariant found ==> whole == Some(pos - start - 1) && pos > start
        decreases |input| - pos
      {
        ghost var rest, at := Rest(), pos;
        ghost var d, e := depth, escaped;
        var c := Next();
        CloseStep(rest, open, close, d, e, at - start);
        if escaped {
          escaped := false;
        } else if c.value == '\\' {
          escaped := true;
        } else if c.value == open {
          depth := depth + 1;
        } else if c.value == close {
          depth := depth - 1;
          if depth == 0 {
            found := true;
            depth := 1;
          }
        }
      }
    }

    method ScanQuote() returns (found: bool)
      requires Valid()
      modifies this
      ensures Valid() && pos >= old(pos)
      ensures match QuoteAt(old(Rest()), 0, false)
              case None => !found
              case Some(n) => found && pos == old(pos) + n + 1
    {
      var depth: nat, escaped := 0, false;
      var start := pos;
      ghost var whole := QuoteAt(Rest(), 0, false);
      found := false;
      while !found && Peek().Some?
        invariant Valid() && start <= pos
        invariant !found ==> whole == ShiftBy(QuoteAt(Rest(), depth, escaped), pos - start)
        invariant found ==> whole == Some(pos - start - 1) && pos > start
        decreases |input| - pos
      {
        ghost var rest, at := Rest(), pos;
        ghost var d, e := depth, escaped;
        var c := Next();
        QuoteStep(rest, d, e, at - start);
        if escaped {
          escaped := false;
        } else if c.value == '\\' {
          escaped := true;
        } else if c.value == '{' {
          depth := depth + 1;
        } else if c.value == '}' {
          depth := if depth > 0 then depth - 1 else 0;
        } else if c.value == '"' && depth == 0 {
          found := true;
        }
      }
    }

    method ReadBalanced(open: char, close: char) returns (r: Result<string, Error>)
      requires Valid()
      modifies this
      ensures Valid() && WithRest(r, Rest()) == Balanced(old(Rest()), open, close)
    {
      var first := Next();
      if first != Some(open) {
        return Err(ExpectedDelimiter);
      }
      r := ReadInside(open, close);
    }

    /** The text behind an opening delimiter. */
    method ReadInside(open: char, close: char) returns (r: Result<string, Error>)
      requires Valid()
      modifies this
      ensures Valid() && WithRest(r, Rest()) == Inside(old(Rest()), open, close)
    {
      var start := pos;
      var found := ScanClose(open, close);
      if !found {
        return Err(UnclosedValue);
      }
      Between(input, start, pos);
      r := Ok(input[start..pos - 1]);
    }

    method ReadQuoted() returns (r: Result<string, Error>)
      requires Valid()
      modifies this
      ensures Valid() && WithRest(r, Rest()) == Quoted(old(Rest()))
    {
      var first := Next();
      var start := pos;
      var found := ScanQuote();
      if !found {
        return Err(UnclosedQuote);
      }
      Between(input, start, pos);
      r := Ok(input[start..pos - 1]);
    }

    /** `ctx` is about this text. */
    ghost predicate Reads(ctx: Context) {
      ctx.length == |input| && ctx.lines == Newlines(input)
    }

    method ReadAtom(db: Database, ghost ctx: Context) returns (r: Result<string, Error>)
      requires Valid() && Reads(ctx) && ctx.language == db.language
      modifies this, db`warnings
      ensures Valid()
      ensures var read := Atom(ctx, db.macros, old(Rest()));
              WithRest(r, Rest()) == read.result && db.warnings == old(db.warnings) + read.warnings
    {
      var at := line;
      var atom := Ident();
      if atom == [] {
        r := Err(ExpectedValue(pos));
      } else if AllAsciiDigits(atom) {
        r := Ok(atom);
      } else if db.language.lower(atom) in db.macros {
        r := Ok(db.macros[db.language.lower(atom)]);
      } else {
        db.warnings := db.warnings + [UndefinedMacro(at, atom)];
        r := Ok([]);
      }
    }

    method ReadPart(db: Database, ghost ctx: Context) returns (r: Result<string, Error>)
      requires Valid() && Reads(ctx) && ctx.language == db.language
      modifies this, db`warnings
      ensures Valid()
      ensures var read := Part(ctx, db.macros, old(Rest()));
              WithRest(r, Rest()) == read.result && db.warnings == old(db.warnings) + read.warnings
    {
      match Peek() {
        case None => r := Err(UnexpectedEnd);
        case Some(c) =>
          if c == '{' {
            r := ReadBalanced('{', '}');
          } else if c == '"' {
            r := ReadQuoted();
          } else {
            r := ReadAtom(db, ctx);
          }
      }
    }

    method ReadNextPart(db: Database, ghost ctx: Context) returns (r: Result<string, Error>, more: bool)
      requires Valid() && Reads(ctx) && ctx.language == db.language
      modifies this, db`warnings
      ensures Valid()
      ensures var next := NextPart(ctx, db.macros, old(Rest()));
              && WithRest(r, Rest()) == next.read.result && more == next.more
              && db.warnings == old(db.warnings) + next.read.warnings
    {
      SkipSpace();
      r := ReadPart(db, ctx);
      more := false;
      if r.Ok? {
        SkipSpace();
        if Peek() == Some('#') {
          var hash := Next();
          more := true;
        }
      }
    }

    /** One step of `ReadParts`: the value so far with one more part. */
    method JoinPart(db: Database, ghost ctx: Context, ghost next: string -> Joint, value: string,
      ghost warned: seq<Warning>)
      returns (r: Result<string, Error>, more: bool, ghost warned': seq<Warning>)
      requires Valid() && Reads(ctx) && ctx.language == db.language && ReadsParts(next, ctx, db.macros)
      modifies this, db`warnings
      ensures Valid() && (more ==> r.Ok? && |Rest()| < |old(Rest())|)
      ensures warned <= warned' && db.warnings == old(db.warnings) + warned'[|warned|..]
      ensures Joined(next, old(Rest()), value, warned)
              == if more then Joined(next, Rest(), r.value, warned') else Read(WithRest(r, Rest()), warned')
    {
      ghost var part := NextPart(ctx, db.macros, Rest());
      r, more := ReadNextPart(db, ctx);
      warned' := warned + part.read.warnings;
      if r.Ok? {
        r := Ok(value + r.value);
      }
    }

    method ReadParts(db: Database, ghost ctx: Context, ghost next: string -> Joint)
      returns (r: Result<string, Error>, ghost warned: seq<Warning>)
      requires Valid() && Reads(ctx) && ctx.language == db.language && ReadsParts(next, ctx, db.macros)
      modifies this, db`warnings
      ensures Valid() && db.warnings == old(db.warnings) + warned
      ensures Joined(next, old(Rest()), [], []) == Read(WithRest(r, Rest()), warned)
    {
      ghost var whole := Joined(next, Rest(), [], []);
      var value, more := [], true;
      warned := [];
      r := Ok(value);
      while more
        invariant Valid() && db.warnings == old(db.warnings) + warned
        invariant more ==> Joined(next, Rest(), value, warned) == whole
        invariant !more ==> whole == Read(WithRest(r, Rest()), warned)
        decreases more, |Rest()|
      {
        var again;
        r, again, warned := JoinPart(db, ctx, next, value, warned);
        value, more := if again then r.value else value, again;
      }
    }

    method ReadValue(db: Database, ghost ctx: Context) returns (r: Result<string, Error>)
      requires Valid() && Reads(ctx) && ctx.language == db.language
      modifies this, db`warnings
      ensures Valid()
      ensures Read(WithRest(r, Rest()), db.warnings) == Later(Value(ctx, db.macros, old(Rest())), old(db.warnings))
    {
      ghost var warned;
      r, warned := ReadParts(db, ctx, Parts(ctx, db.macros));
    }
  }

  ghost predicate ReadsParts(next: string -> Joint, ctx: Context, macros: map<string, string>) {
    forall s {:trigger NextPart(ctx, macros, s)} :: next(s) == NextPart(ctx, macros, s)
  }

  /** What was read, with earlier warnings before its own. */
  function Later(read: Read, warnings: seq<Warning>): Read {
    Read(read.result, warnings + read.warnings)
  }

  /** A method's result with the text it left, as the functions give it. */
  function WithRest(r: Result<string, Error>, rest: string): Result<Parsed, Error> {
    match r
    case Ok(text) => Ok(Parsed(text, rest))
    case Err(e) => Err(e)
  }

  function ShiftBy(n: Option<nat>, count: nat): Option<nat> {
    match n
    case None => None
    case Some(k) => Some(k + count)
  }

  lemma Between(s: string, start: nat, end: nat)
    requires start < end <= |s|
    ensures s[start..][..end - start - 1] == s[start..end - 1] && s[start..][end - start..] == s[end..]
  {
  }

  /** One character of the search for the closing delimiter. */
  lemma CloseStep(s: string, open: char, close: char, depth: nat, escaped: bool, count: nat)
    requires s != [] && depth >= 1
    ensures var whole, rest := ShiftBy(CloseAt(s, open, close, depth, escaped), count), s[1..];
            if escaped then whole == ShiftBy(CloseAt(rest, open, close, depth, false), count + 1)
            else if s[0] == '\\' then whole == ShiftBy(CloseAt(rest, open, close, depth, true), count + 1)
            else if s[0] == open then whole == ShiftBy(CloseAt(rest, open, close, depth + 1, false), count + 1)
            else if s[0] == close then
              whole == if depth == 1 then Some(count) else ShiftBy(CloseAt(rest, open, close, depth - 1, false), count + 1)
            else whole == ShiftBy(CloseAt(rest, open, close, depth, false), count + 1)
  {
  }

  lemma QuoteStep(s: string, depth: nat, escaped: bool, count: nat)
    requires s != []
    ensures var whole, rest := ShiftBy(QuoteAt(s, depth, escaped), count), s[1..];
            if escaped then whole == ShiftBy(QuoteAt(rest, depth, false), count + 1)
            else if s[0] == '\\' then whole == ShiftBy(QuoteAt(rest, depth, true), count + 1)
            else if s[0] == '{' then whole == ShiftBy(QuoteAt(rest, depth + 1, false), count + 1)
            else if s[0] == '}' then whole == ShiftBy(QuoteAt(rest, if depth > 0 then depth - 1 else 0, false), count + 1)
            else if s[0] == '"' && depth == 0 then whole == Some(count)
            else whole == ShiftBy(QuoteAt(rest, depth, false), count + 1)
  {
  }

  ghost predicate AllNameChars(s: string, from: nat, upto: nat)
    requires upto <= |s|
  {
    forall k :: from <= k < upto ==> IsNameChar(s[k])
  }

  lemma {:induction false} NameScanned(s: string, from: nat, upto: nat)
    requires from <= upto <= |s| && AllNameChars(s, from, upto) && (upto < |s| ==> !IsNameChar(s[upto]))
    ensures NameEnd(s[from..]) == upto - from
    ensures s[from..][..upto - from] == s[from..upto] && s[from..][upto - from..] == s[upto..]
    decreases upto - from
  {
    if from < upto {
      NameScanned(s, from + 1, upto);
      assert s[from..][1..] == s[from + 1..];
    }
  }

  /** How reading an item ended. */
  datatype Status = Continue | Halt | Failed(error: Error)

  /** A method's status with what it left, as the functions give it. */
  function StepOf(status: Status, db: State, rest: string): Step {
    match status
    case Continue => Next(db, rest)
    case Halt => Stop(db)
    case Failed(e) => Fail(db, e)
  }

  class Database {
    const language: Language
    var entries: seq<Entry>
    var preamble: seq<string>
    var warnings: seq<Warning>
    var macros: map<string, string>

    function Contents(): State
      reads this
    {
      State(entries, preamble, warnings, macros)
    }

    constructor (language: Language, macros: map<string, string>)
      ensures this.language == language && Contents() == State([], [], [], macros)
    {
      this.language := language;
      entries, preamble, warnings, this.macros := [], [], [], macros;
    }

    /** The optional comma and the closing delimiter behind a value. */
    method CloseItem(p: Parser, close: char) returns (closed: bool)
      requires p.Valid()
      modifies p
      ensures p.Valid()
      ensures var rest := AfterComma(AfterSpace(old(p.Rest())));
              closed == StartsWith(rest, close) && (closed ==> p.Rest() == rest[1..])
    {
      p.SkipSpace();
      if p.Peek() == Some(',') {
        var comma := p.Next();
        p.SkipSpace();
      }
      var c := p.Next();
      closed := c == Some(close);
    }

    method ReadPreamble(p: Parser, ghost ctx: Context, close: char) returns (status: Status)
      requires p.Valid() && p.Reads(ctx) && ctx.language == language
      modifies this, p
      ensures p.Valid()
      ensures StepOf(status, Contents(), p.Rest()) == Preamble(ctx, old(Contents()), close, old(p.Rest()))
    {
      var value := p.ReadValue(this, ctx);
      if value.Err? {
        return Failed(value.error);
      }
      preamble := preamble + [value.value];
      var closed := CloseItem(p, close);
      status := if closed then Continue else Failed(UnclosedPreamble);
    }

    method ReadEquals(p: Parser) returns (found: bool)
      requires p.Valid()
      modifies p
      ensures p.Valid()
      ensures var rest := AfterSpace(old(p.Rest()));
              found == StartsWith(rest, '=') && (found ==> p.Rest() == rest[1..])
    {
      p.SkipSpace();
      var c := p.Next();
      found := c == Some('=');
    }

    method ReadMacro(p: Parser, ghost ctx: Context, close: char) returns (status: Status)
      requires p.Valid() && p.Reads(ctx) && ctx.language == language
      modifies this, p
      ensures p.Valid()
      ensures StepOf(status, Contents(), p.Rest()) == Macro(ctx, old(Contents()), close, old(p.Rest()))
    {
      var name := p.Ident();
      var key := language.lower(name);
      var equals := ReadEquals(p);
      if !equals {
        return Failed(InvalidString);
      }
      var value := p.ReadValue(this, ctx);
      if value.Err? {
        return Failed(value.error);
      }
      macros := macros[key := value.value];
      var closed := CloseItem(p, close);
      status := if closed then Continue else Failed(UnclosedString);
    }

    /** One field of `entry`, up to what follows its value. */
    method ReadField(p: Parser, ghost ctx: Context, entry: Entry) returns (r: Result<Entry, Error>)
      requires p.Valid() && p.Reads(ctx) && ctx.language == language
      modifies p, `warnings
      ensures p.Valid()
      ensures FieldRead(Contents(), ExtendedBy(r, p.Rest())) == Field(ctx, old(Contents()), entry, old(p.Rest()))
    {
      var name := p.Ident();
      var field := language.lower(name);
      if field == [] {
        return Err(InvalidField(entry.key, p.pos));
      }
      var equals := ReadEquals(p);
      if !equals {
        return Err(MissingEquals(field, entry.key));
      }
      var raw := p.ReadValue(this, ctx);
      if raw.Err? {
        return Err(raw.error);
      }
      var collapsed := BibtexSpaces(raw.value);
      p.SkipSpace();
      r := Ok(WithField(entry, field, language.decompose(collapsed)));
    }

    method AddEntry(ghost ctx: Context, source: string, entry: Entry)
      requires source == ctx.source
      modifies `entries, `warnings
      ensures Contents() == Added(ctx, old(Contents()), entry)
    {
      var known := false;
      for i := 0 to |entries|
        invariant entries == old(entries) && warnings == old(warnings)
        invariant known == HasKey(entries[..i], entry.key)
      {
        assert entries[..i + 1] == entries[..i] + [entries[i]];
        HasKeyAppend(entries[..i], entries[i], entry.key);
        known := known || entries[i].key == entry.key;
      }
      assert entries[..|entries|] == entries;
      if known {
        warnings := warnings + [DuplicateKey(entry.key, source)];
      } else {
        entries := entries + [entry];
      }
    }

    /** One field and the comma behind it, from where the white space of `s` ends. */
    method ReadNextField(p: Parser, ghost ctx: Context, ghost field: (State, Entry, string) -> FieldRead, close: char,
      entry: Entry, ghost s: string)
      returns (r: Result<Entry, Error>)
      requires p.Valid() && p.Reads(ctx) && ctx.language == language && ReadsFields(field, ctx)
      requires p.Rest() == AfterSpace(s) && !StartsWith(p.Rest(), close)
      modifies p, `warnings
      ensures p.Valid() && (r.Ok? ==> |p.Rest()| < |s|)
      ensures FieldsBy(field, ctx, old(Contents()), close, entry, s)
              == match r
                 case Ok(extended) => FieldsBy(field, ctx, Contents(), close, extended, p.Rest())
                 case Err(e) => Fail(Contents(), e)
    {
      ghost var read := Field(ctx, Contents(), entry, p.Rest());
      r := ReadField(p, ctx, entry);
      if r.Ok? {
        if p.Peek() == Some(',') {
          var comma := p.Next();
        } else if p.Peek() != Some(close) {
          r := Err(MissingComma(entry.key));
        }
      }
    }

    method ReadFields(p: Parser, ghost ctx: Context, ghost field: (State, Entry, string) -> FieldRead, source: string,
      close: char, start: Entry)
      returns (status: Status)
      requires p.Valid() && p.Reads(ctx) && ctx.language == language && ReadsFields(field, ctx) && source == ctx.source
      modifies this, p
      ensures p.Valid()
      ensures StepOf(status, Contents(), p.Rest())
              == FieldsBy(field, ctx, old(Contents()), close, start, old(p.Rest()))
    {
      var entry, more := start, true;
      status := Continue;
      ghost var whole := FieldsBy(field, ctx, Contents(), close, start, p.Rest());
      while more
        invariant p.Valid()
        invariant more ==> status == Continue
        invariant more ==> FieldsBy(field, ctx, Contents(), close, entry, p.Rest()) == whole
        invariant !more ==> StepOf(status, Contents(), p.Rest()) == whole
        decreases more, |p.Rest()|
      {
        ghost var s := p.Rest();
        p.SkipSpace();
        if p.Peek() == Some(close) {
          var c := p.Next();
          AddEntry(ctx, source, entry);
          more := false;
        } else {
          var r := ReadNextField(p, ctx, field, close, entry, s);
          match r {
            case Ok(extended) => entry := extended;
            case Err(e) => status, more := Failed(e), false;
          }
        }
      }
    }

    method ReadEntry(p: Parser, ghost ctx: Context, source: string, kind: string, close: char) returns (status: Status)
      requires p.Valid() && p.Reads(ctx) && ctx.language == language && source == ctx.source
      modifies this, p
      ensures p.Valid()
      ensures StepOf(status, Contents(), p.Rest()) == EntryBody(ctx, old(Contents()), kind, close, old(p.Rest()))
    {
      var key := p.Ident();
      if key == [] {
        return Failed(EmptyKey);
      }
      p.SkipSpace();
      if p.Peek() == Some(',') {
        var comma := p.Next();
      }
      status := ReadFields(p, ctx, FieldReader(ctx), source, close, Entry(key, kind, source, map[]));
    }

    /** What follows an `@`. */
    method ReadItem(p: Parser, ghost ctx: Context, source: string) returns (status: Status)
      requires p.Valid() && p.Reads(ctx) && ctx.language == language && source == ctx.source
      modifies this, p
      ensures p.Valid()
      ensures StepOf(status, Contents(), p.Rest()) == Item(ctx, old(Contents()), old(p.Rest()))
    {
      var name := p.Ident();
      var kind := language.lower(name);
      p.SkipSpace();
      var peeked := p.Peek();
      if peeked == None {
        return Halt;
      }
      var open := peeked.value;
      if open != '{' && open != '(' {
        return Continue;
      }
      var close := if open == '{' then '}' else ')';
      if kind == COMMENT {
        var text := p.ReadBalanced(open, close);
        return if text.Ok? then Continue else Failed(text.error);
      }
      var c := p.Next();
      p.SkipSpace();
      status := ReadBody(p, ctx, source, kind, close);
    }

    method ReadBody(p: Parser, ghost ctx: Context, source: string, kind: string, close: char) returns (status: Status)
      requires p.Valid() && p.Reads(ctx) && ctx.language == language && source == ctx.source
      modifies this, p
      ensures p.Valid()
      ensures StepOf(status, Contents(), p.Rest()) == Body(ctx, old(Contents()), kind, close, old(p.Rest()))
    {
      if kind == PREAMBLE {
        status := ReadPreamble(p, ctx, close);
      } else if kind == STRING {
        status := ReadMacro(p, ctx, close);
      } else {
        status := ReadEntry(p, ctx, source, kind, close);
      }
    }

    /** Reads a whole source; the error, if any, leaves what was read before it. */
    method Add(input: string, source: string) returns (error: Option<Error>)
      modifies this
      ensures var ctx := Context(language, source, |input|, Newlines(input));
              Outcome(Contents(), error) == AddAll(ctx, old(Contents()), input)
    {
      var p := new Parser(input);
      ghost var ctx := Context(language, source, |input|, Newlines(input));
      error := ReadItems(p, ctx, Items(ctx), source);
    }

    method ReadItems(p: Parser, ghost ctx: Context, ghost item: (State, string) -> Step, source: string)
      returns (error: Option<Error>)
      requires p.Valid() && p.Reads(ctx) && ctx.language == language && source == ctx.source && ReadsItems(item, ctx)
      modifies this, p
      ensures Outcome(Contents(), error) == AddAllBy(item, old(Contents()), old(p.Rest()))
    {
      error := None;
      var more := true;
      ghost var whole := AddAllBy(item, Contents(), p.Rest());
      while more
        invariant p.Valid() && error == None
        invariant more ==> AddAllBy(item, Contents(), p.Rest()) == whole
        invariant !more ==> Outcome(Contents(), None) == whole
        decreases more, |p.Rest()|
      {
        var c := p.Next();
        if c == None {
          more := false;
        } else if c == Some('@') {
          ghost var at, db := p.Rest(), Contents();
          ghost var step := Item(ctx, db, at);
          assert item(db, at) == step;
          var status := ReadItem(p, ctx, source);
          match status {
            case Continue =>
            case Halt => more := false;
            case Failed(e) => return Some(e);
          }
        }
      }
    }
  }

  ghost predicate ReadsItems(item: (State, string) -> Step, ctx: Context) {
    forall db, s {:trigger Item(ctx, db, s)} :: item(db, s) == Item(ctx, db, s)
  }

  lemma HasKeyAppend(entries: seq<Entry>, entry: Entry, key: string)
    ensures HasKey(entries + [entry], key) <==> HasKey(entries, key) || entry.key == key
  {
    var all := entries + [entry];
    if HasKey(entries, key) {
      var i :| 0 <= i < |entries| && entries[i].key == key;
      assert all[i].key == key;
    }
    assert all[|entries|] == entry;
  }

  ghost predicate ReadsFields(field: (State, Entry, string) -> FieldRead, ctx: Context) {
    forall db, entry, s {:trigger Field(ctx, db, entry, s)} :: field(db, entry, s) == Field(ctx, db, entry, s)
  }

  function ExtendedBy(r: Result<Entry, Error>, rest: string): Result<Extended, Error> {
    match r
    case Ok(entry) => Ok(Extended(entry, rest))
    case Err(e) => Err(e)
  }
}

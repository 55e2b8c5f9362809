/** Normalization of spaces in BibTeX values (`bibtex_spaces`, crates/tex-biber/src/bib.rs). */
module BibSpaces {

  /** A physical line break, or the space: what separates words. Tabs and other spacing do not. */
  predicate IsBreak(c: char) {
    var x := c as int;
    x == 0x0d || x == 0x0a || x == 0x0b || x == 0x0c || x == 0x85 || x == 0x2028 || x == 0x2029
  }

  predicate IsSeparator(c: char) {
    c == ' ' || IsBreak(c)
  }

  /** Separators are dropped at the ends, and each run of them inside becomes one space. */
  function Collapsed(s: string, started: bool, pending: bool): string
    decreases |s|
  {
    if s == [] then []
    else if IsSeparator(s[0]) then Collapsed(s[1..], started, started)
    else (if pending then [' '] else []) + [s[0]] + Collapsed(s[1..], true, false)
  }

  function Collapse(s: string): string {
    Collapsed(s, false, false)
  }

  /** The value is already as `Collapse` makes it. */
  predicate Normal(s: string) {
    (s != [] ==> s[0] != ' ' && s[|s| - 1] != ' ') && !HasDoubleSpace(s) && !HasBreak(s)
  }

  predicate HasDoubleSpace(s: string) {
    |s| >= 2 && ((s[0] == ' ' && s[1] == ' ') || HasDoubleSpace(s[1..]))
  }

  predicate HasBreak(s: string) {
    s != [] && (IsBreak(s[0]) || HasBreak(s[1..]))
  }

  /** What may follow text already written: no break, no two spaces together, no space at the end. */
  predicate Continues(s: string) {
    && !HasDoubleSpace(s) && !HasBreak(s) && (s != [] ==> s[|s| - 1] != ' ')
  }

  lemma {:induction false} ContinuesTail(s: string)
    requires Continues(s) && s != []
    ensures Continues(s[1..])
  {
  }

  lemma {:induction false} CollapsedContinues(s: string)
    requires Continues(s)
    ensures Collapsed(s, true, false) == s
    decreases |s|
  {
    if s != [] {
      ContinuesTail(s);
      if s[0] == ' ' {
        assert |s| >= 2 && s[1] != ' ' && !IsBreak(s[1]);
        ContinuesTail(s[1..]);
        CollapsedContinues(s[2..]);
        assert s[1..][1..] == s[2..];
        assert Collapsed(s[1..], true, true) == [' '] + [s[1]] + s[2..];
        assert s == [s[0]] + [s[1]] + s[2..];
      } else {
        CollapsedContinues(s[1..]);
        assert s == [s[0]] + s[1..];
      }
    }
  }

  lemma {:induction false} DoubleSpaceFront(c: char, s: string)
    ensures HasDoubleSpace([c] + s) <==> (s != [] && c == ' ' && s[0] == ' ') || HasDoubleSpace(s)
    ensures HasBreak([c] + s) <==> IsBreak(c) || HasBreak(s)
  {
    assert ([c] + s)[1..] == s;
  }

  lemma WordContinues(c: char, rest: string)
    requires !IsSeparator(c) && Continues(rest)
    ensures Continues([c] + rest) && Continues([' '] + [c] + rest)
  {
    DoubleSpaceFront(c, rest);
    DoubleSpaceFront(' ', [c] + rest);
    assert [' '] + [c] + rest == [' '] + ([c] + rest);
  }

  /** Text in order that starts with a space exactly when one is pending. */
  predicate InOrder(r: string, pending: bool) {
    Continues(r) && (r != [] ==> (r[0] == ' ' <==> pending))
  }

  lemma WordInOrder(c: char, rest: string, pending: bool)
    requires !IsSeparator(c) && Continues(rest)
    ensures InOrder((if pending then [' '] else []) + [c] + rest, pending)
  {
    WordContinues(c, rest);
    assert [] + [c] + rest == [c] + rest;
  }

  /** What is written after the first word is in order. */
  lemma {:induction false} CollapsedInOrder(s: string, pending: bool)
    ensures InOrder(Collapsed(s, true, pending), s != [] && (pending || IsSeparator(s[0])))
    decreases |s|
  {
    if s != [] {
      if IsSeparator(s[0]) {
        CollapsedInOrder(s[1..], true);
      } else {
        CollapsedInOrder(s[1..], false);
        WordInOrder(s[0], Collapsed(s[1..], true, false), pending);
      }
    }
  }

  lemma {:induction false} CollapseNormal(s: string)
    ensures Normal(Collapse(s))
    decreases |s|
  {
    if s != [] {
      if IsSeparator(s[0]) {
        CollapseNormal(s[1..]);
      } else {
        CollapsedInOrder(s[1..], false);
        DoubleSpaceFront(s[0], Collapsed(s[1..], true, false));
      }
    }
  }

  /** A value is left as it is exactly when it passes the quick test; collapsing again changes nothing. */
  lemma NormalIffUnchanged(s: string)
    ensures Normal(s) <==> Collapse(s) == s
    ensures Collapse(Collapse(s)) == Collapse(s)
  {
    CollapseNormal(s);
    NormalUnchanged(s);
    NormalUnchanged(Collapse(s));
  }

  lemma NormalUnchanged(s: string)
    ensures Normal(s) ==> Collapse(s) == s
  {
    if Normal(s) && s != [] {
      assert !IsSeparator(s[0]);
      ContinuesTail(s);
      CollapsedContinues(s[1..]);
      assert s == [s[0]] + s[1..];
    }
  }

  /** What is written once `c` has been read. */
  function Written(out: string, pending: bool, c: char): string {
    if IsSeparator(c) then out else out + (if pending then [' '] else []) + [c]
  }

  /** Whether a space is pending once `c` has been read. */
  predicate Pending(out: string, c: char) {
    IsSeparator(c) && out != []
  }

  lemma CollapsedStep(out: string, s: string, pending: bool)
    requires s != [] && (pending ==> out != [])
    ensures var next := Written(out, pending, s[0]);
            out + Collapsed(s, out != [], pending) == next + Collapsed(s[1..], next != [], Pending(out, s[0]))
  {
  }

  /** The quick test, and the rewriting when it fails. */
  method BibtexSpaces(value: string) returns (out: string)
    ensures out == Collapse(value)
  {
    if Normal(value) {
      NormalIffUnchanged(value);
      return value;
    }
    out := Rewrite(value);
  }

  method Rewrite(value: string) returns (out: string)
    ensures out == Collapse(value)
  {
    out := [];
    var pending := false;
    for n := 0 to |value|
      invariant out + Collapsed(value[n..], out != [], pending) == Collapse(value)
      invariant pending ==> out != []
    {
      CollapsedStep(out, value[n..], pending);
      assert value[n..][0] == value[n] && value[n..][1..] == value[n + 1..];
      ghost var next, more := Written(out, pending, value[n]), Pending(out, value[n]);
      if IsSeparator(value[n]) {
        pending := out != [];
      } else {
        if pending {
          out := out + [' '];
          pending := false;
        }
        out := out + [value[n]];
      }
      assert out == next && pending == more;
    }
    assert out + [] == out;
  }
}

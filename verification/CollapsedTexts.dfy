/**
 What collapsing spaces does to a text (`bibtex_spaces`, crates/tex-biber/src/bib.rs): its other characters stay
 as they are, and one space stays where there were separators between two of them.
 */
module CollapsedTexts {
  import opened BibSpaces

  const SEPARATORS: set<int> := {0x20, 0xa, 0xb, 0xc, 0xd, 0x85, 0x2028, 0x2029}

  lemma SeparatorExact(c: char)
    ensures IsSeparator(c) <==> c as int in SEPARATORS
  {
  }

  /** The characters that are no separators, each with whether one stands between it and the one before. */
  function Marks(s: string): seq<(char, bool)> {
    if s == [] then []
    else
      var before, last := Marks(s[..|s| - 1]), s[|s| - 1];
      if IsSeparator(last) then before
      else before + [(last, before != [] && IsSeparator(s[|s| - 2]))]
  }

  lemma {:induction false} MarksBegin(s: string)
    requires s != [] && !IsSeparator(s[0])
    ensures Marks(s) != []
    decreases |s|
  {
    if |s| > 1 {
      MarksBegin(s[..|s| - 1]);
    }
  }

  /** The marks of `s` behind a text that has some, and that ends with a separator or not. */
  function MarksBehind(s: string, started: bool, separated: bool): seq<(char, bool)>
    decreases |s|
  {
    if s == [] then []
    else if IsSeparator(s[0]) then MarksBehind(s[1..], started, true)
    else [(s[0], started && separated)] + MarksBehind(s[1..], true, false)
  }

  lemma {:induction false} MarksAppend(a: string, s: string)
    ensures Marks(a + s) == Marks(a) + MarksBehind(s, Marks(a) != [], a != [] && IsSeparator(a[|a| - 1]))
    decreases |s|
  {
    if s == [] {
      assert a + s == a;
    } else {
      var next := a + [s[0]];
      assert next + s[1..] == a + s;
      MarksAppend(next, s[1..]);
      assert next[..|next| - 1] == a;
      var m := MarksBehind(s[1..], true, false);
      if !IsSeparator(s[0]) {
        assert Marks(a) + [(s[0], Marks(a) != [] && a != [] && IsSeparator(a[|a| - 1]))] + m
            == Marks(a) + ([(s[0], Marks(a) != [] && a != [] && IsSeparator(a[|a| - 1]))] + m);
      }
    }
  }

  lemma {:induction false} CollapsedMarks(s: string, started: bool, pending: bool)
    requires pending ==> started
    ensures MarksBehind(Collapsed(s, started, pending), started, false) == MarksBehind(s, started, pending)
    decreases |s|
  {
    if s != [] {
      if IsSeparator(s[0]) {
        CollapsedMarks(s[1..], started, started);
        if !started {
          NotStarted(s[1..]);
        }
      } else {
        var rest := Collapsed(s[1..], true, false);
        CollapsedMarks(s[1..], true, false);
        assert ([s[0]] + rest)[1..] == rest;
        if pending {
          var all := [' '] + [s[0]] + rest;
          assert all[1..] == [s[0]] + rest;
          assert MarksBehind(all, started, false) == MarksBehind(all[1..], started, true);
        } else {
          assert [] + [s[0]] + rest == [s[0]] + rest;
        }
      }
    }
  }

  lemma {:induction false} NotStarted(s: string)
    ensures MarksBehind(s, false, true) == MarksBehind(s, false, false)
    decreases |s|
  {
    if s != [] && IsSeparator(s[0]) {
    }
  }

  lemma MarksFromStart(s: string)
    ensures Marks(s) == MarksBehind(s, false, false)
  {
    MarksAppend([], s);
    assert [] + s == s && Marks([]) == [];
    assert [] + MarksBehind(s, false, false) == MarksBehind(s, false, false);
  }

  /** The other characters stay, and where separators stood between them. */
  lemma CollapseKeeps(s: string)
    ensures Marks(Collapse(s)) == Marks(s) && Normal(Collapse(s))
  {
    CollapsedMarks(s, false, false);
    MarksFromStart(Collapse(s));
    MarksFromStart(s);
    CollapseNormal(s);
  }

  lemma {:induction false} BehindDecides(a: string, b: string)
    requires Continues(a) && Continues(b) && MarksBehind(a, true, false) == MarksBehind(b, true, false)
    ensures a == b
    decreases |a|
  {
    if a == [] {
      NoMarks(b);
    } else if b == [] {
      NoMarks(a);
    } else {
      ContinuesTail(a);
      ContinuesTail(b);
      var i, j := if a[0] == ' ' then 1 else 0, if b[0] == ' ' then 1 else 0;
      FirstMark(a);
      FirstMark(b);
      var x, y := MarksBehind(a, true, false), MarksBehind(b, true, false);
      assert x[0] == y[0] && i == j && a[i] == b[i];
      ContinuesTail(a[i..]);
      ContinuesTail(b[i..]);
      assert a[i..][1..] == a[i + 1..] && b[i..][1..] == b[i + 1..];
      assert x[1..] == y[1..];
      BehindDecides(a[i + 1..], b[i + 1..]);
      assert a == a[..i + 1] + a[i + 1..] && b == b[..i + 1] + b[i + 1..];
      assert a[..i + 1] == b[..i + 1];
    }
  }

  /** The first mark of a text in order, behind one space or none. */
  lemma FirstMark(a: string)
    requires Continues(a) && a != []
    ensures var i := if a[0] == ' ' then 1 else 0;
            && i < |a| && !IsSeparator(a[i]) && Continues(a[i..])
            && MarksBehind(a, true, false) == [(a[i], i == 1)] + MarksBehind(a[i + 1..], true, false)
  {
    if a[0] == ' ' {
      ContinuesTail(a);
      assert |a| > 1 && a[1] != ' ' && !IsBreak(a[1]);
      assert a[1..][0] == a[1] && a[1..][1..] == a[2..];
    } else {
      assert a[0..] == a;
    }
  }

  lemma NoMarks(a: string)
    requires Continues(a) && MarksBehind(a, true, false) == []
    ensures a == []
  {
    if a != [] {
      FirstMark(a);
    }
  }

  lemma NormalFirst(a: string)
    requires Normal(a) && a != []
    ensures Continues(a[1..]) && Marks(a) == [(a[0], false)] + MarksBehind(a[1..], true, false)
  {
    ContinuesTail(a);
    MarksFromStart(a);
  }

  lemma SameFront(c: char, s: seq<(char, bool)>, d: char, t: seq<(char, bool)>)
    requires [(c, false)] + s == [(d, false)] + t
    ensures c == d && s == t
  {
    var x, y := [(c, false)] + s, [(d, false)] + t;
    assert x[0] == (c, false) && y[0] == (d, false);
    assert x[1..] == s && y[1..] == t;
  }

  /** A normal text is determined by its other characters and where separators stand between them. */
  lemma NormalDecided(a: string, b: string)
    requires Normal(a) && Normal(b) && Marks(a) == Marks(b)
    ensures a == b
  {
    if a != [] {
      NormalFirst(a);
    }
    if b != [] {
      NormalFirst(b);
    }
    if a != [] && b != [] {
      SameFront(a[0], MarksBehind(a[1..], true, false), b[0], MarksBehind(b[1..], true, false));
      BehindDecides(a[1..], b[1..]);
      assert a == [a[0]] + a[1..] && b == [b[0]] + b[1..];
    }
  }

  /** Collapsing gives the one normal text with the other characters, and separations, of the text. */
  lemma CollapseExact(s: string, r: string)
    ensures r == Collapse(s) <==> Normal(r) && Marks(r) == Marks(s)
  {
    CollapseKeeps(s);
    if Normal(r) && Marks(r) == Marks(s) {
      NormalDecided(r, Collapse(s));
    }
  }
}

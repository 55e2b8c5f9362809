/**
 What splitting and trimming do to a text (`split_list`, crates/tex-biber/src/bib.rs), told of its groups in
 braces, its characters behind backslashes and the others.
 */
module SplitTexts {
  import opened Splitting

  // ----- White space -----

  /** The code points with the property White_Space. */
  const WHITE_SPACE: set<int> := {
    0x9, 0xa, 0xb, 0xc, 0xd, 0x20, 0x85, 0xa0, 0x1680, 0x2000, 0x2001, 0x2002, 0x2003, 0x2004, 0x2005, 0x2006,
    0x2007, 0x2008, 0x2009, 0x200a, 0x2028, 0x2029, 0x202f, 0x205f, 0x3000}

  lemma WhitespaceExact(c: char)
    ensures IsWhitespace(c) <==> c as int in WHITE_SPACE
  {
  }

  predicate AllWhite(s: string) {
    forall i :: 0 <= i < |s| ==> IsWhitespace(s[i])
  }

  lemma {:induction false} TrimStartExact(s: string)
    ensures AllWhite(s[..|s| - |TrimStart(s)|])
  {
    if s != [] && IsWhitespace(s[0]) {
      TrimStartExact(s[1..]);
      var n := |s| - |TrimStart(s)|;
      assert s[..n] == [s[0]] + s[1..][..n - 1];
    }
  }

  lemma {:induction false} TrimEndExact(s: string)
    ensures AllWhite(s[|TrimEnd(s)|..])
  {
    if s != [] && IsWhitespace(s[|s| - 1]) {
      var front := s[..|s| - 1];
      TrimEndExact(front);
      assert s[|TrimEnd(s)|..] == front[|TrimEnd(front)|..] + [s[|s| - 1]];
    }
  }

  lemma Parted(s: string, u: string, t: string)
    requires |u| <= |s| && s[|s| - |u|..] == u && t <= u
    ensures s == s[..|s| - |u|] + t + u[|t|..]
  {
    var before := s[..|s| - |u|];
    assert s == before + u && u == t + u[|t|..];
  }

  lemma TrimInner(s: string)
    ensures Trim(s) != [] ==> !IsWhitespace(Trim(s)[0]) && !IsWhitespace(Trim(s)[|Trim(s)| - 1])
  {
    var u := TrimStart(s);
    var t := TrimEnd(u);
    if t != [] {
      assert u[..|t|] == t;
      assert t[0] == u[0];
    }
  }

  /** Trimming takes exactly the white space at the ends. */
  lemma TrimExact(s: string) returns (before: string, behind: string)
    ensures s == before + Trim(s) + behind && AllWhite(before) && AllWhite(behind)
    ensures Trim(s) != [] ==> !IsWhitespace(Trim(s)[0]) && !IsWhitespace(Trim(s)[|Trim(s)| - 1])
  {
    var u := TrimStart(s);
    TrimStartExact(s);
    TrimEndExact(u);
    before, behind := s[..|s| - |u|], u[|TrimEnd(u)|..];
    Parted(s, u, TrimEnd(u));
    TrimInner(s);
  }

  // ----- Texts -----

  /** A character, one behind a backslash, a group in braces, or a closing brace without an opening one. */
  datatype Token = Plain(c: char) | Escaped(c: char) | Group(text: string) | Stray

  predicate IsSpecial(c: char) {
    c in {'\\', '{', '}'}
  }

  /** Braces match, but for those behind a backslash, from `depth` open ones. */
  predicate Matched(s: string, depth: nat, escaped: bool) {
    if s == [] then depth == 0 && !escaped
    else if escaped then Matched(s[1..], depth, false)
    else if s[0] == '\\' then Matched(s[1..], depth, true)
    else if s[0] == '{' then Matched(s[1..], depth + 1, false)
    else if s[0] == '}' then depth > 0 && Matched(s[1..], depth - 1, false)
    else Matched(s[1..], depth, false)
  }

  predicate IsToken(t: Token) {
    match t
    case Plain(c) => !IsSpecial(c)
    case Escaped(_) => true
    case Group(text) => Matched(text, 0, false)
    case Stray => true
  }

  function TokenText(t: Token): (s: string)
    ensures s != []
  {
    match t
    case Plain(c) => [c]
    case Escaped(c) => ['\\', c]
    case Group(text) => ['{'] + (text + ['}'])
    case Stray => ['}']
  }

  function Text(ts: seq<Token>): string {
    if ts == [] then [] else TokenText(ts[0]) + Text(ts[1..])
  }

  /** The plain characters that spell `sep`. */
  function Spelt(sep: string): (ts: seq<Token>)
    ensures |ts| == |sep| && forall i :: 0 <= i < |sep| ==> ts[i] == Plain(sep[i])
  {
    seq(|sep|, i requires 0 <= i < |sep| => Plain(sep[i]))
  }

  /** The texts between the separators, which are plain characters; the first continues `piece`. */
  function Between(sep: string, piece: string, ts: seq<Token>): seq<string>
    decreases |ts|
  {
    if ts == [] then [piece]
    else if sep != [] && Spelt(sep) <= ts then [piece] + Between(sep, [], ts[|sep|..])
    else Between(sep, piece + TokenText(ts[0]), ts[1..])
  }

  lemma {:induction false} InsideGroup(sep: string, piece: string, text: string, depth: nat, escaped: bool, rest: string)
    requires Matched(text, depth, escaped)
    ensures Pieces(sep, piece, Nesting(depth + 1, escaped), text + (['}'] + rest))
         == Pieces(sep, piece + text + ['}'], OUTSIDE, rest)
    decreases |text|
  {
    var s := text + (['}'] + rest);
    if text == [] {
      assert s == ['}'] + rest && s[1..] == rest;
      assert piece + [] + ['}'] == piece + ['}'];
    } else {
      var next := piece + [text[0]];
      assert s[0] == text[0] && s[1..] == text[1..] + (['}'] + rest);
      assert next + text[1..] == piece + text;
      if escaped {
        InsideGroup(sep, next, text[1..], depth, false, rest);
      } else if text[0] == '\\' {
        InsideGroup(sep, next, text[1..], depth, true, rest);
      } else if text[0] == '{' {
        InsideGroup(sep, next, text[1..], depth + 1, false, rest);
      } else if text[0] == '}' {
        InsideGroup(sep, next, text[1..], depth - 1, false, rest);
      } else {
        InsideGroup(sep, next, text[1..], depth, false, rest);
      }
    }
  }

  /** Outside groups a separator is found exactly where plain characters spell it. */
  lemma {:induction false} SeparatorSpelt(sep: string, ts: seq<Token>)
    requires forall i :: 0 <= i < |ts| ==> IsToken(ts[i])
    requires forall i :: 0 <= i < |sep| ==> !IsSpecial(sep[i])
    ensures sep <= Text(ts) <==> Spelt(sep) <= ts
    ensures Spelt(sep) <= ts ==> Text(ts)[|sep|..] == Text(ts[|sep|..])
    decreases |sep|
  {
    if sep == [] {
      assert ts[0..] == ts && Text(ts)[0..] == Text(ts);
    } else if ts != [] {
      var s, first := Text(ts), TokenText(ts[0]);
      assert s[0] == first[0];
      if ts[0] == Plain(sep[0]) {
        assert s == [sep[0]] + Text(ts[1..]) && s[1..] == Text(ts[1..]);
        SeparatorSpelt(sep[1..], ts[1..]);
        SpeltFirst(sep, ts);
        PrefixFirst(sep, s);
        if Spelt(sep) <= ts {
          assert s[|sep|..] == s[1..][|sep| - 1..] && ts[|sep|..] == ts[1..][|sep| - 1..];
        }
      } else {
        assert Spelt(sep)[0] == Plain(sep[0]);
      }
    }
  }

  lemma SpeltFirst(sep: string, ts: seq<Token>)
    requires sep != [] && ts != [] && ts[0] == Plain(sep[0])
    ensures Spelt(sep) <= ts <==> Spelt(sep[1..]) <= ts[1..]
  {
    var a := Spelt(sep);
    assert a == [Plain(sep[0])] + Spelt(sep[1..]);
    assert ts == [ts[0]] + ts[1..];
    if |sep| <= |ts| {
      assert ts[..|sep|] == [ts[0]] + ts[1..][..|sep| - 1];
    }
  }

  lemma PrefixFirst(sep: string, s: string)
    requires sep != [] && s != [] && s[0] == sep[0]
    ensures sep <= s <==> sep[1..] <= s[1..]
  {
    assert sep == [sep[0]] + sep[1..] && s == [s[0]] + s[1..];
    if |sep| <= |s| {
      assert s[..|sep|] == [s[0]] + s[1..][..|sep| - 1];
    }
  }

  lemma OneCharacter(sep: string, piece: string, n: Nesting, c: char, rest: string)
    requires !SeparatorAt(n, sep, [c] + rest)
    ensures Pieces(sep, piece, n, [c] + rest) == Pieces(sep, piece + [c], Advance(n, c), rest)
  {
    assert ([c] + rest)[1..] == rest;
  }

  lemma OneEscaped(sep: string, piece: string, c: char, rest: string)
    ensures Pieces(sep, piece, OUTSIDE, ['\\', c] + rest) == Pieces(sep, piece + ['\\', c], OUTSIDE, rest)
  {
    assert ['\\', c] + rest == ['\\'] + ([c] + rest);
    OneCharacter(sep, piece, OUTSIDE, '\\', [c] + rest);
    OneCharacter(sep, piece + ['\\'], Nesting(0, true), c, rest);
    assert piece + ['\\'] + [c] == piece + ['\\', c];
  }

  lemma OneGroup(sep: string, piece: string, text: string, rest: string)
    requires Matched(text, 0, false)
    ensures var g := ['{'] + (text + ['}']);
            Pieces(sep, piece, OUTSIDE, g + rest) == Pieces(sep, piece + g, OUTSIDE, rest)
  {
    var g := ['{'] + (text + ['}']);
    assert g + rest == ['{'] + (text + (['}'] + rest));
    OneCharacter(sep, piece, OUTSIDE, '{', text + (['}'] + rest));
    InsideGroup(sep, piece + ['{'], text, 0, false, rest);
    assert piece + ['{'] + text + ['}'] == piece + g;
  }

  lemma OneToken(sep: string, piece: string, t: Token, rest: string)
    requires IsToken(t) && (sep != [] ==> !(sep <= TokenText(t) + rest) || IsSpecial(TokenText(t)[0]))
    ensures Pieces(sep, piece, OUTSIDE, TokenText(t) + rest) == Pieces(sep, piece + TokenText(t), OUTSIDE, rest)
  {
    match t
    case Plain(c) => OneCharacter(sep, piece, OUTSIDE, c, rest);
    case Escaped(c) => OneEscaped(sep, piece, c, rest);
    case Group(text) => OneGroup(sep, piece, text, rest);
    case Stray => OneCharacter(sep, piece, OUTSIDE, '}', rest);
  }

  /** A text is split exactly where plain characters outside groups spell the separator. */
  lemma {:induction false} PiecesExact(sep: string, piece: string, ts: seq<Token>)
    requires forall i :: 0 <= i < |ts| ==> IsToken(ts[i])
    requires forall i :: 0 <= i < |sep| ==> !IsSpecial(sep[i])
    ensures Pieces(sep, piece, OUTSIDE, Text(ts)) == Between(sep, piece, ts)
    decreases |ts|
  {
    if ts != [] {
      var s := Text(ts);
      SeparatorSpelt(sep, ts);
      if sep != [] && Spelt(sep) <= ts {
        assert s[0] == sep[0];
        PiecesExact(sep, [], ts[|sep|..]);
      } else {
        OneToken(sep, piece, ts[0], Text(ts[1..]));
        PiecesExact(sep, piece + TokenText(ts[0]), ts[1..]);
      }
    }
  }

  predicate NeverMatched(s: string, depth: nat, escaped: bool) {
    s == [] || (if escaped then NeverMatched(s[1..], depth, false)
                else if s[0] == '\\' then NeverMatched(s[1..], depth, true)
                else if s[0] == '{' then NeverMatched(s[1..], depth + 1, false)
                else if s[0] == '}' then depth > 1 && NeverMatched(s[1..], depth - 1, false)
                else NeverMatched(s[1..], depth, false))
  }

  /** Nothing is split behind a brace that is never closed. */
  lemma {:induction false} NeverSplitInside(sep: string, piece: string, s: string, depth: nat, escaped: bool)
    requires depth > 0 && NeverMatched(s, depth, escaped)
    ensures Pieces(sep, piece, Nesting(depth, escaped), s) == [piece + s]
    decreases |s|
  {
    if s == [] {
      assert piece + [] == piece;
    } else {
      var next := piece + [s[0]];
      assert next + s[1..] == piece + s;
      if escaped {
        NeverSplitInside(sep, next, s[1..], depth, false);
      } else if s[0] == '\\' {
        NeverSplitInside(sep, next, s[1..], depth, true);
      } else if s[0] == '{' {
        NeverSplitInside(sep, next, s[1..], depth + 1, false);
      } else if s[0] == '}' {
        NeverSplitInside(sep, next, s[1..], depth - 1, false);
      } else {
        NeverSplitInside(sep, next, s[1..], depth, false);
      }
    }
  }
}

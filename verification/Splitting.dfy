/**
 Separated lists of the bibliography engine (`split_list`, crates/tex-biber/src/bib.rs): the
 separator counts only outside braces and not after a backslash.
 */
module Splitting {

  /** Unicode White_Space, which Rust's `trim` and `is_whitespace` use. */
  predicate IsWhitespace(c: char) {
    var x := c as int;
    || 9 <= x <= 13 || x == 0x20 || x == 0x85 || x == 0xA0 || x == 0x1680
    || 0x2000 <= x <= 0x200A || x == 0x2028 || x == 0x2029 || x == 0x202F || x == 0x205F || x == 0x3000
  }

  function TrimStart(s: string): (t: string)
    ensures |t| <= |s| && s[|s| - |t|..] == t
    ensures t != [] ==> !IsWhitespace(t[0])
  {
    if s != [] && IsWhitespace(s[0]) then TrimStart(s[1..]) else s
  }

  function TrimEnd(s: string): (t: string)
    ensures t <= s
    ensures t != [] ==> !IsWhitespace(t[|t| - 1])
  {
    if s != [] && IsWhitespace(s[|s| - 1]) then TrimEnd(s[..|s| - 1]) else s
  }

  function Trim(s: string): string {
    TrimEnd(TrimStart(s))
  }

  /** The reader's state between two characters. */
  datatype Nesting = Nesting(depth: nat, escaped: bool)

  const OUTSIDE := Nesting(0, false)

  function Advance(n: Nesting, c: char): Nesting {
    if n.escaped then Nesting(n.depth, false)
    else if c == '\\' then Nesting(n.depth, true)
    else if c == '{' then Nesting(n.depth + 1, false)
    else if c == '}' then Nesting(if n.depth > 0 then n.depth - 1 else 0, false)
    else n
  }

  predicate SeparatorAt(n: Nesting, sep: string, s: string) {
    && s != [] && !n.escaped && s[0] != '\\' && s[0] != '{' && s[0] != '}'
    && sep != [] && n.depth == 0 && sep <= s
  }

  /** The pieces of `s`, the first of which continues `piece`. */
  function Pieces(sep: string, piece: string, n: Nesting, s: string): (pieces: seq<string>)
    ensures pieces != []
    decreases |s|
  {
    if s == [] then [piece]
    else if SeparatorAt(n, sep, s) then [piece] + Pieces(sep, [], n, s[|sep|..])
    else Pieces(sep, piece + [s[0]], Advance(n, s[0]), s[1..])
  }

  function TrimAll(pieces: seq<string>): (trimmed: seq<string>)
    ensures |trimmed| == |pieces|
  {
    seq(|pieces|, i requires 0 <= i < |pieces| => Trim(pieces[i]))
  }

  function SplitList(value: string, sep: string): seq<string> {
    TrimAll(Pieces(sep, [], OUTSIDE, value))
  }

  method Split(value: string, sep: string) returns (result: seq<string>)
    ensures result == SplitList(value, sep)
  {
    var raw: seq<string> := [];
    var n := OUTSIDE;
    var start: nat, p: nat := 0, 0;
    assert value[0..] == value && value[0..0] == [];
    while p < |value|
      invariant 0 <= start <= p <= |value|
      invariant raw + Pieces(sep, value[start..p], n, value[p..]) == Pieces(sep, [], OUTSIDE, value)
    {
      PieceStep(sep, raw, value, start, p, n);
      if SeparatorAt(n, sep, value[p..]) {
        raw := raw + [value[start..p]];
        p := p + |sep|;
        start := p;
        continue;
      }
      n := Advance(n, value[p]);
      p := p + 1;
    }
    assert value[p..] == [] && value[start..p] == value[start..];
    raw := raw + [value[start..]];
    result := TrimAll(raw);
  }

  lemma PieceStep(sep: string, raw: seq<string>, value: string, start: nat, p: nat, n: Nesting)
    requires start <= p < |value|
    ensures var all := raw + Pieces(sep, value[start..p], n, value[p..]);
            if SeparatorAt(n, sep, value[p..]) then
              var q := p + |sep|;
              q <= |value| && all == raw + [value[start..p]] + Pieces(sep, value[q..q], n, value[q..])
            else all == raw + Pieces(sep, value[start..p + 1], Advance(n, value[p]), value[p + 1..])
  {
    var rest := value[p..];
    assert rest[1..] == value[p + 1..];
    assert value[start..p + 1] == value[start..p] + [value[p]];
    if SeparatorAt(n, sep, rest) {
      var q := p + |sep|;
      assert rest[|sep|..] == value[q..] && value[q..q] == [];
      assert Pieces(sep, value[start..p], n, rest) == [value[start..p]] + Pieces(sep, [], n, value[q..]);
    }
  }

  // ----- Joining -----

  function Join(pieces: seq<string>, sep: string): string
    requires pieces != []
  {
    if |pieces| == 1 then pieces[0] else pieces[0] + sep + Join(pieces[1..], sep)
  }

  /** No character is lost: the pieces joined by the separator spell the value. */
  lemma {:induction false} JoinPieces(sep: string, piece: string, n: Nesting, s: string)
    ensures Join(Pieces(sep, piece, n, s), sep) == piece + s
    decreases |s|
  {
    if s == [] {
    } else if SeparatorAt(n, sep, s) {
      var rest := s[|sep|..];
      JoinPieces(sep, [], n, rest);
      assert Pieces(sep, piece, n, s)[1..] == Pieces(sep, [], n, rest);
      assert s == sep + rest;
      assert piece + sep + ([] + rest) == piece + (sep + rest);
    } else {
      JoinPieces(sep, piece + [s[0]], Advance(n, s[0]), s[1..]);
      assert piece + [s[0]] + s[1..] == piece + s;
    }
  }

  function AdvanceAll(n: Nesting, s: string): Nesting
    decreases |s|
  {
    if s == [] then n else AdvanceAll(Advance(n, s[0]), s[1..])
  }

  /** Reading `s` from nesting `n`, with `after` behind it, no separator begins within `s`. */
  predicate NoSeparator(n: Nesting, sep: string, s: string, after: string)
    decreases |s|
  {
    if s == [] then true
    else !SeparatorAt(n, sep, s + after) && NoSeparator(Advance(n, s[0]), sep, s[1..], after)
  }

  /** A piece before a separator: none begins within it, and it keeps its braces and escapes to itself. */
  predicate Enclosed(sep: string, s: string) {
    NoSeparator(OUTSIDE, sep, s, sep) && SeparatorAt(AdvanceAll(OUTSIDE, s), sep, sep)
  }

  /** What splitting undoes the joining of: pieces before separators, and a last one without a separator. */
  predicate Separable(pieces: seq<string>, sep: string)
    requires pieces != []
  {
    if |pieces| == 1 then NoSeparator(OUTSIDE, sep, pieces[0], [])
    else Enclosed(sep, pieces[0]) && Separable(pieces[1..], sep)
  }

  /** Only what the separator may overlap matters of what follows. */
  lemma SeparatorNear(n: Nesting, sep: string, s: string, tail: string)
    requires s != []
    ensures SeparatorAt(n, sep, s + (sep + tail)) <==> SeparatorAt(n, sep, s + sep)
  {
    assert s + (sep + tail) == s + sep + tail;
    assert (s + sep + tail)[..|sep|] == (s + sep)[..|sep|];
  }

  lemma {:induction false} NoSeparatorNear(n: Nesting, sep: string, s: string, tail: string)
    ensures NoSeparator(n, sep, s, sep + tail) <==> NoSeparator(n, sep, s, sep)
    decreases |s|
  {
    if s != [] {
      SeparatorNear(n, sep, s, tail);
      NoSeparatorNear(Advance(n, s[0]), sep, s[1..], tail);
    }
  }

  lemma {:induction false} PiecesPass(sep: string, piece: string, n: Nesting, s: string, rest: string)
    requires NoSeparator(n, sep, s, rest)
    ensures Pieces(sep, piece, n, s + rest) == Pieces(sep, piece + s, AdvanceAll(n, s), rest)
    decreases |s|
  {
    if s == [] {
      assert s + rest == rest && piece + s == piece;
    } else {
      assert (s + rest)[1..] == s[1..] + rest;
      PiecesPass(sep, piece + [s[0]], Advance(n, s[0]), s[1..], rest);
      assert piece + [s[0]] + s[1..] == piece + s;
    }
  }

  /** The first piece continues what it began with. */
  lemma {:induction false} FirstPiece(sep: string, piece: string, n: Nesting, s: string)
    ensures |Pieces(sep, piece, n, s)[0]| >= |piece|
    ensures s != [] && !SeparatorAt(n, sep, s) ==> |Pieces(sep, piece, n, s)[0]| > |piece|
    decreases |s|
  {
    if s != [] && !SeparatorAt(n, sep, s) {
      FirstPiece(sep, piece + [s[0]], Advance(n, s[0]), s[1..]);
    }
  }

  /** If the first piece reaches over `s`, no separator begins within `s`. */
  lemma {:induction false} PieceReaches(sep: string, piece: string, n: Nesting, s: string, rest: string)
    requires |Pieces(sep, piece, n, s + rest)[0]| >= |piece| + |s|
    ensures NoSeparator(n, sep, s, rest)
    decreases |s|
  {
    if s != [] {
      assert (s + rest)[1..] == s[1..] + rest;
      PieceReaches(sep, piece + [s[0]], Advance(n, s[0]), s[1..], rest);
    }
  }

  lemma SeparatorOutside(n: Nesting, sep: string, tail: string)
    ensures SeparatorAt(n, sep, sep + tail) <==> SeparatorAt(n, sep, sep)
    ensures SeparatorAt(n, sep, sep) ==> n == OUTSIDE
  {
  }

  /** One piece and a separator are split off exactly when the piece is enclosed. */
  lemma SplitOff(sep: string, p: string, tail: string)
    requires sep != []
    ensures Enclosed(sep, p) ==> Pieces(sep, [], OUTSIDE, p + (sep + tail)) == [p] + Pieces(sep, [], OUTSIDE, tail)
    ensures Pieces(sep, [], OUTSIDE, p + (sep + tail))[0] == p ==> Enclosed(sep, p)
  {
    var rest, n := sep + tail, AdvanceAll(OUTSIDE, p);
    NoSeparatorNear(OUTSIDE, sep, p, tail);
    SeparatorOutside(n, sep, tail);
    assert rest[|sep|..] == tail && [] + p == p;
    if Enclosed(sep, p) {
      PiecesPass(sep, [], OUTSIDE, p, rest);
    }
    if Pieces(sep, [], OUTSIDE, p + rest)[0] == p {
      PieceReaches(sep, [], OUTSIDE, p, rest);
      PiecesPass(sep, [], OUTSIDE, p, rest);
      FirstPiece(sep, p, n, rest);
    }
  }

  /** Splitting undoes joining exactly for separable pieces, whatever the separator. */
  lemma {:induction false} SplitJoin(sep: string, pieces: seq<string>)
    requires pieces != []
    ensures Pieces(sep, [], OUTSIDE, Join(pieces, sep)) == pieces <==> Separable(pieces, sep)
    decreases |pieces|
  {
    var p := pieces[0];
    if |pieces| == 1 {
      LastPiece(sep, p);
    } else {
      var tail := Join(pieces[1..], sep);
      assert p + sep + tail == p + (sep + tail);
      SplitJoin(sep, pieces[1..]);
      assert pieces == [p] + pieces[1..];
      if sep == [] {
        NeverSplit([], OUTSIDE, p + (sep + tail));
      } else {
        SplitOff(sep, p, tail);
        SplitOffOnly(p, Pieces(sep, [], OUTSIDE, tail), pieces[1..]);
      }
    }
  }

  lemma SplitOffOnly(p: string, a: seq<string>, b: seq<string>)
    ensures [p] + a == [p] + b <==> a == b
  {
    assert ([p] + a)[1..] == a && ([p] + b)[1..] == b;
  }

  lemma LastPiece(sep: string, p: string)
    ensures Pieces(sep, [], OUTSIDE, p) == [p] <==> NoSeparator(OUTSIDE, sep, p, [])
  {
    assert p + [] == p && [] + p == p;
    if NoSeparator(OUTSIDE, sep, p, []) {
      PiecesPass(sep, [], OUTSIDE, p, []);
    }
    if Pieces(sep, [], OUTSIDE, p) == [p] {
      PieceReaches(sep, [], OUTSIDE, p, []);
    }
  }

  lemma {:induction false} NeverSplit(piece: string, n: Nesting, s: string)
    ensures |Pieces([], piece, n, s)| == 1
    decreases |s|
  {
    if s != [] {
      NeverSplit(piece + [s[0]], Advance(n, s[0]), s[1..]);
    }
  }

  // ----- Trimmed pieces -----

  function Total(pieces: seq<string>): nat {
    if pieces == [] then 0 else |pieces[0]| + Total(pieces[1..])
  }

  lemma {:induction false} ShorterTotal(a: seq<string>, b: seq<string>)
    requires |a| == |b|
    requires forall i :: 0 <= i < |a| ==> |a[i]| <= |b[i]| && (|a[i]| == |b[i]| ==> a[i] == b[i])
    ensures Total(a) <= Total(b) && (Total(a) == Total(b) ==> a == b)
    decreases |a|
  {
    if a != [] {
      ShorterTotal(a[1..], b[1..]);
      assert a == [a[0]] + a[1..] && b == [b[0]] + b[1..];
    }
  }

  lemma TrimmedTotal(pieces: seq<string>)
    ensures Total(TrimAll(pieces)) <= Total(pieces)
    ensures Total(TrimAll(pieces)) == Total(pieces) ==> TrimAll(pieces) == pieces
  {
    forall i | 0 <= i < |pieces|
      ensures |Trim(pieces[i])| <= |pieces[i]| && (|Trim(pieces[i])| == |pieces[i]| ==> Trim(pieces[i]) == pieces[i])
    {
      TrimShortens(pieces[i]);
    }
    ShorterTotal(TrimAll(pieces), pieces);
  }

  lemma TrimShortens(s: string)
    ensures |Trim(s)| <= |s| && (|Trim(s)| == |s| ==> Trim(s) == s)
  {
  }

  lemma {:induction false} JoinTotal(pieces: seq<string>, sep: string)
    requires pieces != []
    ensures |Join(pieces, sep)| == Total(pieces) + (|pieces| - 1) * |sep|
    decreases |pieces|
  {
    if |pieces| > 1 {
      JoinTotal(pieces[1..], sep);
    } else {
      assert Total(pieces[1..]) == 0;
    }
  }

  /** A list comes back from its joined text exactly when its pieces are separable and trimmed. */
  lemma SplitListJoin(sep: string, pieces: seq<string>)
    requires pieces != []
    ensures SplitList(Join(pieces, sep), sep) == pieces <==> Separable(pieces, sep) && TrimAll(pieces) == pieces
  {
    var value := Join(pieces, sep);
    var raw := Pieces(sep, [], OUTSIDE, value);
    SplitJoin(sep, pieces);
    if TrimAll(raw) == pieces {
      JoinPieces(sep, [], OUTSIDE, value);
      JoinTotal(raw, sep);
      JoinTotal(pieces, sep);
      TrimmedTotal(raw);
    }
  }
}

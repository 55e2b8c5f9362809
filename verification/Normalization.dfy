/**
 Unicode normalization of the bibliography engine
 (crates/tex-biber/src/collation_normalization.rs): UAX #15, with the Hangul arithmetic of
 section 3.12 of the Unicode Standard.

 A `char` is a Unicode scalar value, so every character the algorithm builds from a number is
 proved to be one. The generated tables are parameters; `Tables.Valid` states what their
 generator guarantees.
 */
module Normalization {
  import opened Wrappers
  import opened CanonicalOrder

  // ----- Tables -----

  datatype Row = Row(compat: bool, mapping: seq<char>)

  datatype Tables = Tables(ccc: char -> nat, rows: map<char, Row>, compositions: map<(char, char), char>) {

    /** A decomposition row never leads back to its own character. */
    ghost predicate WellFounded() {
      exists rank: map<char, nat> :: IsRank(rank)
    }

    ghost predicate IsRank(rank: map<char, nat>) {
      && rows.Keys <= rank.Keys
      && forall c, x :: c in rows && x in rows[c].mapping && x in rows ==> rank[x] < rank[c]
    }

    ghost function Rank(): map<char, nat>
      requires WellFounded()
    {
      var rank: map<char, nat> :| IsRank(rank);
      rank
    }

    ghost function RankOf(c: char): nat
      requires WellFounded()
    {
      if c in rows then Rank()[c] + 1 else 0
    }

    ghost predicate Valid() {
      && WellFounded()
      && (forall c :: c in rows ==> rows[c].mapping != [] && !IsJamo(c) && !IsSyllable(c))
      && (forall a, b :: (a, b) in compositions ==>
           var c := compositions[(a, b)];
           c in rows && rows[c] == Row(false, [a, b]))
    }
  }

  predicate IsSyllable(c: char) {
    0xAC00 <= c as int <= 0xD7A3
  }

  predicate IsLeading(c: char) {
    0x1100 <= c as int <= 0x1112
  }

  predicate IsVowel(c: char) {
    0x1161 <= c as int <= 0x1175
  }

  predicate IsTrailing(c: char) {
    0x11A8 <= c as int <= 0x11C2
  }

  predicate IsJamo(c: char) {
    IsLeading(c) || IsVowel(c) || IsTrailing(c)
  }

  // ----- Combining classes -----

  datatype ClassRange = ClassRange(lo: char, hi: char, cls: nat)

  predicate SortedRanges(ranges: seq<ClassRange>) {
    && (forall i :: 0 <= i < |ranges| ==> ranges[i].lo <= ranges[i].hi)
    && (forall i, j :: 0 <= i < j < |ranges| ==> ranges[i].hi < ranges[j].lo)
  }

  /** The number of leading ranges that end before `c`. */
  function PartitionPoint(ranges: seq<ClassRange>, c: char): (i: nat)
    ensures i <= |ranges|
    ensures forall k :: 0 <= k < i ==> ranges[k].hi < c
    ensures i < |ranges| ==> c <= ranges[i].hi
  {
    if ranges == [] || c <= ranges[0].hi then 0
    else PartitionPoint(ranges[1..], c) + 1
  }

  function CombiningClass(ranges: seq<ClassRange>, c: char): nat {
    var i := PartitionPoint(ranges, c);
    if i < |ranges| && ranges[i].lo <= c then ranges[i].cls else 0
  }

  /** The lookup finds the one range that holds the character, and answers 0 where there is none. */
  lemma CombiningClassExact(ranges: seq<ClassRange>, c: char)
    requires SortedRanges(ranges)
    ensures forall k :: 0 <= k < |ranges| && ranges[k].lo <= c <= ranges[k].hi ==>
              CombiningClass(ranges, c) == ranges[k].cls
    ensures (forall k :: 0 <= k < |ranges| ==> !(ranges[k].lo <= c <= ranges[k].hi)) ==>
              CombiningClass(ranges, c) == 0
  {
    var i := PartitionPoint(ranges, c);
    assert forall k :: i < k < |ranges| ==> ranges[i].hi < ranges[k].lo;
  }

  // ----- Decomposition -----

  function SyllableDecomposition(c: char): (d: seq<char>)
    requires IsSyllable(c)
    ensures |d| >= 2 && IsLeading(d[0]) && IsVowel(d[1])
    ensures |d| > 2 ==> |d| == 3 && IsTrailing(d[2])
  {
    var i := c as int - 0xAC00;
    [(0x1100 + i / 588) as char, (0x1161 + i % 588 / 28) as char]
    + if i % 28 != 0 then [(0x11A7 + i % 28) as char] else []
  }

  /** The full decomposition of one character. */
  function Decompose(t: Tables, c: char, compat: bool): (d: seq<char>)
    requires t.Valid()
    ensures d != []
    decreases t.RankOf(c), 0
  {
    if IsSyllable(c) then SyllableDecomposition(c)
    else if c in t.rows && (compat || !t.rows[c].compat) then
      DecomposeMapping(t, c, t.rows[c].mapping, compat)
    else [c]
  }

  function DecomposeMapping(t: Tables, c: char, mapping: seq<char>, compat: bool): (d: seq<char>)
    requires t.Valid() && c in t.rows
    requires forall x :: x in mapping ==> x in t.rows[c].mapping
    ensures mapping != [] ==> d != []
    decreases t.RankOf(c), 0, |mapping|
  {
    if mapping == [] then []
    else
      assert mapping[|mapping| - 1] in t.rows[c].mapping;
      DecomposeMapping(t, c, mapping[..|mapping| - 1], compat) + Decompose(t, mapping[|mapping| - 1], compat)
  }

  function DecomposeAll(t: Tables, s: seq<char>, compat: bool): seq<char>
    requires t.Valid()
  {
    if s == [] then []
    else DecomposeAll(t, s[..|s| - 1], compat) + Decompose(t, s[|s| - 1], compat)
  }

  lemma DecomposeOne(t: Tables, c: char, compat: bool)
    requires t.Valid()
    ensures DecomposeAll(t, [c], compat) == Decompose(t, c, compat)
  {
    assert [c][..0] == [];
  }

  /** Every character of `s` is its own decomposition. */
  ghost predicate Irreducible(t: Tables, s: seq<char>, compat: bool)
    requires t.Valid()
  {
    forall x :: x in s ==> Decompose(t, x, compat) == [x]
  }

  lemma {:induction false} DecomposeMappingAll(t: Tables, c: char, mapping: seq<char>, compat: bool)
    requires t.Valid() && c in t.rows
    requires forall x :: x in mapping ==> x in t.rows[c].mapping
    ensures DecomposeMapping(t, c, mapping, compat) == DecomposeAll(t, mapping, compat)
  {
    if mapping != [] {
      DecomposeMappingAll(t, c, mapping[..|mapping| - 1], compat);
    }
  }

  lemma {:induction false} DecomposeAllAppend(t: Tables, s: seq<char>, u: seq<char>, compat: bool)
    requires t.Valid()
    ensures DecomposeAll(t, s + u, compat) == DecomposeAll(t, s, compat) + DecomposeAll(t, u, compat)
    decreases |u|
  {
    if u == [] {
      assert s + u == s;
    } else {
      var front := u[..|u| - 1];
      assert (s + u)[..|s + u| - 1] == s + front;
      DecomposeAllAppend(t, s, front, compat);
      Regroup(DecomposeAll(t, s, compat), DecomposeAll(t, front, compat), Decompose(t, u[|u| - 1], compat));
    }
  }

  lemma Regroup(a: seq<char>, b: seq<char>, c: seq<char>)
    ensures a + b + c == a + (b + c)
  {
  }

  lemma {:induction false} DecomposeIrreducible(t: Tables, c: char, compat: bool)
    requires t.Valid()
    ensures Irreducible(t, Decompose(t, c, compat), compat)
    decreases t.RankOf(c), 0
  {
    if !IsSyllable(c) && c in t.rows && (compat || !t.rows[c].compat) {
      DecomposeMappingIrreducible(t, c, t.rows[c].mapping, compat);
    }
  }

  lemma {:induction false} DecomposeMappingIrreducible(t: Tables, c: char, mapping: seq<char>, compat: bool)
    requires t.Valid() && c in t.rows
    requires forall x :: x in mapping ==> x in t.rows[c].mapping
    ensures Irreducible(t, DecomposeMapping(t, c, mapping, compat), compat)
    decreases t.RankOf(c), 0, |mapping|
  {
    if mapping != [] {
      assert mapping[|mapping| - 1] in t.rows[c].mapping;
      DecomposeMappingIrreducible(t, c, mapping[..|mapping| - 1], compat);
      DecomposeIrreducible(t, mapping[|mapping| - 1], compat);
    }
  }

  /** Full decomposition leaves nothing to decompose. */
  lemma {:induction false} DecomposeAllIrreducible(t: Tables, s: seq<char>, compat: bool)
    requires t.Valid()
    ensures Irreducible(t, DecomposeAll(t, s, compat), compat)
  {
    if s != [] {
      DecomposeAllIrreducible(t, s[..|s| - 1], compat);
      DecomposeIrreducible(t, s[|s| - 1], compat);
    }
  }

  lemma {:induction false} IrreducibleFixed(t: Tables, s: seq<char>, compat: bool)
    requires t.Valid() && Irreducible(t, s, compat)
    ensures DecomposeAll(t, s, compat) == s
  {
    if s != [] {
      IrreducibleFixed(t, s[..|s| - 1], compat);
    }
  }

  // ----- Composition -----

  function Composite(t: Tables, a: char, b: char): Option<char> {
    var x, y := a as int, b as int;
    if IsLeading(a) && IsVowel(b) then
      Some((0xAC00 + (x - 0x1100) * 588 + (y - 0x1161) * 28) as char)
    else if IsSyllable(a) && (x - 0xAC00) % 28 == 0 && IsTrailing(b) then
      Some((x + y - 0x11A7) as char)
    else if (a, b) in t.compositions then Some(t.compositions[(a, b)])
    else None
  }

  /** A composite decomposes to the decompositions of its parts. */
  lemma CompositeDecomposes(t: Tables, a: char, b: char, compat: bool)
    requires t.Valid()
    requires Composite(t, a, b).Some?
    ensures Decompose(t, Composite(t, a, b).value, compat) == Decompose(t, a, compat) + Decompose(t, b, compat)
  {
    if IsLeading(a) && IsVowel(b) {
      LeadingPlusVowel(t, a, b, compat);
    } else if IsSyllable(a) && (a as int - 0xAC00) % 28 == 0 && IsTrailing(b) {
      SyllablePlusTrailing(a, b, Composite(t, a, b).value);
    } else {
      TableComposite(t, a, b, compat);
    }
  }

  lemma LeadingPlusVowel(t: Tables, a: char, b: char, compat: bool)
    requires t.Valid() && IsLeading(a) && IsVowel(b)
    ensures Decompose(t, Composite(t, a, b).value, compat) == Decompose(t, a, compat) + Decompose(t, b, compat)
  {
    var c := Composite(t, a, b).value;
    var l, v := a as int - 0x1100, b as int - 0x1161;
    var i := c as int - 0xAC00;
    assert i == l * 588 + v * 28 && 0 <= v * 28 < 588;
    assert i / 588 == l && i % 588 == v * 28;
    assert i % 588 / 28 == v && i % 28 == 0;
    assert SyllableDecomposition(c) == [a, b];
    assert a !in t.rows && b !in t.rows;
  }

  lemma TableComposite(t: Tables, a: char, b: char, compat: bool)
    requires t.Valid() && (a, b) in t.compositions
    ensures Decompose(t, t.compositions[(a, b)], compat) == Decompose(t, a, compat) + Decompose(t, b, compat)
  {
    var c, m := t.compositions[(a, b)], [a, b];
    DecomposeMappingAll(t, c, m, compat);
    assert m == [a] + [b];
    DecomposeAllAppend(t, [a], [b], compat);
    DecomposeOne(t, a, compat);
    DecomposeOne(t, b, compat);
  }

  lemma SyllablePlusTrailing(a: char, b: char, c: char)
    requires IsSyllable(a) && (a as int - 0xAC00) % 28 == 0 && IsTrailing(b)
    requires c as int == a as int + b as int - 0x11A7
    ensures IsSyllable(c)
    ensures SyllableDecomposition(c) == SyllableDecomposition(a) + [b]
  {
    var i, n := a as int - 0xAC00, b as int - 0x11A7;
    var k := i / 28;
    assert i == 28 * k && 0 < n < 28;
    assert i / 588 == (i + n) / 588 && i % 588 / 28 == (i + n) % 588 / 28 by {
      var q, r := i / 588, i % 588;
      assert i == 588 * q + r;
      assert r == 28 * (k - 21 * q);
      assert r + n < 588;
      assert (i + n) / 588 == q && (i + n) % 588 == r + n;
      assert (r + n) / 28 == k - 21 * q;
    }
    assert (i + n) % 28 == n;
  }

  /** The pass over `rest`, with the characters written so far, the index of the last starter and the class written last. */
  function ComposeFrom(t: Tables, fcc: bool, w: seq<char>, starter: nat, last: nat, rest: seq<char>): (r: seq<char>)
    requires starter < |w|
    decreases |rest|
  {
    if rest == [] then w
    else
      var cc := t.ccc(rest[0]);
      var combined := if last == 0 || last < cc then Composite(t, w[starter], rest[0]) else None;
      match combined
      case Some(c) => ComposeFrom(t, fcc, w[starter := c], starter, last, rest[1..])
      case None => ComposeFrom(t, fcc, w + [rest[0]], if cc == 0 || fcc then |w| else starter, cc, rest[1..])
  }

  function Compose(t: Tables, fcc: bool, s: seq<char>): seq<char> {
    if s == [] then [] else ComposeFrom(t, fcc, [s[0]], 0, t.ccc(s[0]), s[1..])
  }

  /** Between the last starter and `rest` stand only marks no higher than the class written last. */
  ghost predicate Composing(t: Tables, w: seq<char>, starter: nat, last: nat, rest: seq<char>, compat: bool)
    requires t.Valid()
  {
    && starter < |w|
    && Ordered(t.ccc, rest)
    && Irreducible(t, rest, compat)
    && Irreducible(t, w[starter + 1..], compat)
    && (forall x :: x in w[starter + 1..] ==> 0 < t.ccc(x) <= last)
    && (starter + 1 < |w| && rest != [] ==> t.ccc(rest[0]) == 0 || last <= t.ccc(rest[0]))
  }

  /** One combination keeps every projection of what has been written and what remains. */
  lemma CombineKeeps(t: Tables, w: seq<char>, starter: nat, last: nat, rest: seq<char>, compat: bool, k: nat)
    requires t.Valid()
    requires Composing(t, w, starter, last, rest, compat)
    requires rest != [] && (last == 0 || last < t.ccc(rest[0]))
    requires Composite(t, w[starter], rest[0]).Some?
    ensures var w' := w[starter := Composite(t, w[starter], rest[0]).value];
            Keep(t.ccc, DecomposeAll(t, w', compat) + rest[1..], k)
            == Keep(t.ccc, DecomposeAll(t, w, compat) + rest, k)
  {
    var b, marks, before, tail := rest[0], w[starter + 1..], w[..starter], rest[1..];
    var c := Composite(t, w[starter], b).value;
    CompositeDecomposes(t, w[starter], b, compat);
    SplitAt(t, w, starter, w[starter], compat);
    SplitAt(t, w, starter, c, compat);
    IrreducibleFixed(t, marks, compat);
    assert w[starter := w[starter]] == w;
    assert rest == [b] + tail;
    assert marks != [] ==> 0 < t.ccc(marks[0]) <= last;
    MarkMovesWithin(t.ccc, DecomposeAll(t, before, compat), Decompose(t, w[starter], compat), marks, b, tail, last, k);
  }

  lemma SplitAt(t: Tables, w: seq<char>, i: nat, c: char, compat: bool)
    requires t.Valid() && i < |w|
    ensures DecomposeAll(t, w[i := c], compat)
         == DecomposeAll(t, w[..i], compat) + Decompose(t, c, compat) + DecomposeAll(t, w[i + 1..], compat)
  {
    assert w[i := c] == w[..i] + [c] + w[i + 1..];
    DecomposeAllAppend(t, w[..i] + [c], w[i + 1..], compat);
    DecomposeAllAppend(t, w[..i], [c], compat);
    assert [c][..0] == [];
  }

  /** A mark above the marks before it may move in front of them. */
  lemma MarkMoves(cls: char -> nat, marks: seq<char>, b: char, last: nat, k: nat)
    requires forall x :: x in marks ==> 0 < cls(x) <= last
    requires marks == [] || last < cls(b)
    ensures Keep(cls, [b] + marks, k) == Keep(cls, marks + [b], k)
  {
    KeepAppend(cls, [b], marks, k);
    KeepAppend(cls, marks, [b], k);
    KeepSingleton(cls, b, k);
    if marks == [] || cls(b) != k {
    } else {
      KeepNone(cls, marks, k);
    }
  }

  lemma MarkMovesWithin(
    cls: char -> nat, before: seq<char>, head: seq<char>, marks: seq<char>, b: char, tail: seq<char>, last: nat, k: nat)
    requires forall x :: x in marks ==> 0 < cls(x) <= last
    requires marks == [] || last < cls(b)
    ensures Keep(cls, before + (head + [b]) + marks + tail, k) == Keep(cls, before + head + marks + ([b] + tail), k)
  {
    var h := before + head;
    assert before + (head + [b]) + marks + tail == h + ([b] + marks) + tail;
    assert before + head + marks + ([b] + tail) == h + (marks + [b]) + tail;
    MarkMoves(cls, marks, b, last, k);
    KeepAppend(cls, h + ([b] + marks), tail, k);
    KeepAppend(cls, h, [b] + marks, k);
    KeepAppend(cls, h + (marks + [b]), tail, k);
    KeepAppend(cls, h, marks + [b], k);
  }

  lemma ComposingAfterCombination(t: Tables, w: seq<char>, starter: nat, last: nat, rest: seq<char>, compat: bool, c: char)
    requires t.Valid()
    requires Composing(t, w, starter, last, rest, compat)
    requires rest != [] && (last == 0 || last < t.ccc(rest[0]))
    ensures Composing(t, w[starter := c], starter, last, rest[1..], compat)
  {
    var tail := rest[1..];
    assert w[starter := c][starter + 1..] == w[starter + 1..];
    assert Irreducible(t, tail, compat);
    assert tail != [] ==> rest[1] == tail[0];
  }

  lemma ComposingAfterWrite(t: Tables, fcc: bool, w: seq<char>, starter: nat, last: nat, rest: seq<char>, compat: bool)
    requires t.Valid()
    requires Composing(t, w, starter, last, rest, compat)
    requires rest != []
    ensures var cc := t.ccc(rest[0]);
            Composing(t, w + [rest[0]], if cc == 0 || fcc then |w| else starter, cc, rest[1..], compat)
  {
    var b, tail := rest[0], rest[1..];
    var cc := t.ccc(b);
    var w', starter' := w + [b], if cc == 0 || fcc then |w| else starter;
    assert w'[starter' + 1..] == if cc == 0 || fcc then [] else w[starter + 1..] + [b];
    assert Irreducible(t, tail, compat);
    assert tail != [] ==> rest[1] == tail[0];
  }

  lemma DecomposeAllPush(t: Tables, w: seq<char>, b: char, tail: seq<char>, compat: bool)
    requires t.Valid() && Decompose(t, b, compat) == [b]
    ensures DecomposeAll(t, w + [b], compat) + tail == DecomposeAll(t, w, compat) + ([b] + tail)
  {
    assert (w + [b])[..|w|] == w;
  }

  lemma {:induction false} ComposeFromKeeps(
    t: Tables, fcc: bool, w: seq<char>, starter: nat, last: nat, rest: seq<char>, compat: bool, k: nat)
    requires t.Valid()
    requires Composing(t, w, starter, last, rest, compat)
    ensures Keep(t.ccc, DecomposeAll(t, ComposeFrom(t, fcc, w, starter, last, rest), compat), k)
         == Keep(t.ccc, DecomposeAll(t, w, compat) + rest, k)
    decreases |rest|
  {
    if rest == [] {
      assert DecomposeAll(t, w, compat) + rest == DecomposeAll(t, w, compat);
    } else {
      var b, tail := rest[0], rest[1..];
      var cc := t.ccc(b);
      assert rest == [b] + tail;
      var combined := if last == 0 || last < cc then Composite(t, w[starter], b) else None;
      if combined.Some? {
        ComposingAfterCombination(t, w, starter, last, rest, compat, combined.value);
        CombineKeeps(t, w, starter, last, rest, compat, k);
        ComposeFromKeeps(t, fcc, w[starter := combined.value], starter, last, tail, compat, k);
      } else {
        ComposingAfterWrite(t, fcc, w, starter, last, rest, compat);
        ComposeFromKeeps(t, fcc, w + [b], if cc == 0 || fcc then |w| else starter, cc, tail, compat, k);
        DecomposeAllPush(t, w, b, tail, compat);
      }
    }
  }

  /**
   Composition stays in the equivalence class: decomposing and reordering what the pass leaves of a
   fully decomposed, canonically ordered sequence gives back exactly that sequence.
   */
  lemma ComposePreserves(t: Tables, fcc: bool, s: seq<char>, compat: bool)
    requires t.Valid()
    requires Ordered(t.ccc, s) && Irreducible(t, s, compat)
    ensures Reorder(t.ccc, DecomposeAll(t, Compose(t, fcc, s), compat)) == s
  {
    var d := DecomposeAll(t, Compose(t, fcc, s), compat);
    forall k: nat ensures Keep(t.ccc, d, k) == Keep(t.ccc, s, k) {
      if s != [] {
        var w := [s[0]];
        assert w[1..] == [] && w[..0] == [];
        ComposeFromKeeps(t, fcc, w, 0, t.ccc(s[0]), s[1..], compat, k);
        assert DecomposeAll(t, w, compat) == w;
        assert w + s[1..] == s;
      }
    }
    ReorderUnique(t.ccc, d, s);
  }

  // ----- The normalization forms -----

  datatype Form = Nfd | Nfc | Nfkd | Nfkc | Fcd | Fcc | Unknown {
    predicate Compat() {
      Nfkd? || Nfkc?
    }

    predicate Composing() {
      Nfc? || Nfkc? || Fcc?
    }
  }

  function FormOf(name: string): Form {
    match name
    case "NFD" => Nfd
    case "D" => Nfd
    case "NFC" => Nfc
    case "C" => Nfc
    case "NFKD" => Nfkd
    case "KD" => Nfkd
    case "NFKC" => Nfkc
    case "KC" => Nfkc
    case "FCD" => Fcd
    case "FCC" => Fcc
    case _ => Unknown
  }

  /** The FCD check over the characters of `s`, after a character whose decomposition ended in class `previous`. */
  predicate FcdFrom(t: Tables, s: seq<char>, previous: nat)
    requires t.Valid()
  {
    if s == [] then true
    else
      var d := Decompose(t, s[0], false);
      var lead := t.ccc(d[0]);
      !(lead != 0 && previous > lead) && FcdFrom(t, s[1..], t.ccc(d[|d| - 1]))
  }

  /** The decomposed and reordered text every form starts from. */
  function Decomposed(t: Tables, s: seq<char>, compat: bool): seq<char>
    requires t.Valid()
  {
    Reorder(t.ccc, DecomposeAll(t, s, compat))
  }

  /** `Borrowed` marks a text returned untouched. */
  datatype Text = Borrowed(chars: seq<char>) | Owned(chars: seq<char>)

  function Normalize(t: Tables, s: seq<char>, form: Form): Text
    requires t.Valid()
  {
    if form.Unknown? then Borrowed(s)
    else
      var d := Decomposed(t, s, form.Compat());
      if form.Fcd? then (if FcdFrom(t, s, 0) then Borrowed(s) else Owned(d))
      else if form.Composing() then Owned(Compose(t, form.Fcc?, d))
      else Owned(d)
  }

  lemma DecomposedNormal(t: Tables, s: seq<char>, compat: bool)
    requires t.Valid()
    ensures Ordered(t.ccc, Decomposed(t, s, compat))
    ensures Irreducible(t, Decomposed(t, s, compat), compat)
  {
    var d := DecomposeAll(t, s, compat);
    ReorderOrdered(t.ccc, d);
    DecomposeAllIrreducible(t, s, compat);
    forall x | x in Reorder(t.ccc, d) ensures x in d {
      ReorderPermutes(t.ccc, d);
      assert x in multiset(Reorder(t.ccc, d));
    }
  }

  /** Whatever the form, the result decomposes to the decomposition of the input. */
  lemma NormalizeKeepsClass(t: Tables, s: seq<char>, form: Form)
    requires t.Valid() && !form.Unknown?
    ensures Decomposed(t, Normalize(t, s, form).chars, form.Compat()) == Decomposed(t, s, form.Compat())
  {
    var compat := form.Compat();
    var d := Decomposed(t, s, compat);
    DecomposedNormal(t, s, compat);
    IrreducibleFixed(t, d, compat);
    OrderedFixed(t.ccc, d);
    if form.Composing() {
      ComposePreserves(t, form.Fcc?, d, compat);
    }
  }

  lemma NormalizeIdempotent(t: Tables, s: seq<char>, form: Form)
    requires t.Valid()
    ensures var n := Normalize(t, s, form).chars;
            Normalize(t, n, form).chars == n
  {
    if !form.Unknown? {
      NormalizeKeepsClass(t, s, form);
    }
  }

  /** Two texts have the same composed form exactly when they have the same decomposed form. */
  lemma ComposedFormsDecide(t: Tables, s: seq<char>, u: seq<char>, form: Form)
    requires t.Valid() && form.Composing()
    ensures Normalize(t, s, form).chars == Normalize(t, u, form).chars
       <==> Decomposed(t, s, form.Compat()) == Decomposed(t, u, form.Compat())
  {
    NormalizeKeepsClass(t, s, form);
    NormalizeKeepsClass(t, u, form);
  }

  /** NFC and FCC take any text and its NFD to the same result, and NFD takes them back. */
  lemma CanonicalRoundTrip(t: Tables, s: seq<char>, form: Form)
    requires t.Valid() && (form.Nfc? || form.Fcc?)
    ensures Normalize(t, Normalize(t, s, Nfd).chars, form).chars == Normalize(t, s, form).chars
    ensures Normalize(t, Normalize(t, s, form).chars, Nfd).chars == Normalize(t, s, Nfd).chars
  {
    NormalizeKeepsClass(t, s, form);
    NormalizeKeepsClass(t, s, Nfd);
  }

  // ----- The FCD check -----

  /** Each full canonical decomposition is in canonical order. */
  ghost predicate OrderedRows(t: Tables)
    requires t.Valid()
  {
    forall c :: Ordered(t.ccc, Decompose(t, c, false))
  }

  lemma OrderedAppend(cls: char -> nat, a: seq<char>, b: seq<char>)
    requires a != [] && b != []
    ensures Ordered(cls, a + b)
       <==> Ordered(cls, a) && Ordered(cls, b) && (cls(b[0]) == 0 || cls(a[|a| - 1]) <= cls(b[0]))
  {
    var s := a + b;
    if Ordered(cls, s) {
      forall i | 0 < i < |a| ensures cls(a[i]) == 0 || cls(a[i - 1]) <= cls(a[i]) {
        assert s[i] == a[i] && s[i - 1] == a[i - 1];
      }
      forall i | 0 < i < |b| ensures cls(b[i]) == 0 || cls(b[i - 1]) <= cls(b[i]) {
        assert s[|a| + i] == b[i] && s[|a| + i - 1] == b[i - 1];
      }
      assert s[|a|] == b[0] && s[|a| - 1] == a[|a| - 1];
    }
  }

  lemma FirstMoved(before: seq<char>, s: seq<char>)
    requires s != []
    ensures before + [s[0]] + s[1..] == before + s
  {
  }

  lemma {:induction false} FcdFromExact(t: Tables, before: seq<char>, s: seq<char>)
    requires t.Valid() && OrderedRows(t)
    requires Ordered(t.ccc, DecomposeAll(t, before, false)) && before != []
    ensures var d := DecomposeAll(t, before, false);
            d != [] && (FcdFrom(t, s, t.ccc(d[|d| - 1])) <==> Ordered(t.ccc, DecomposeAll(t, before + s, false)))
    decreases |s|
  {
    var d := DecomposeAll(t, before, false);
    if s == [] {
      assert before + s == before;
    } else {
      var e := Decompose(t, s[0], false);
      var next := before + [s[0]];
      assert next[..|next| - 1] == before;
      OrderedAppend(t.ccc, d, e);
      FirstMoved(before, s);
      if Ordered(t.ccc, d + e) {
        FcdFromExact(t, next, s[1..]);
      } else {
        var rest := DecomposeAll(t, s[1..], false);
        DecomposeAllAppend(t, next, s[1..], false);
        if rest == [] {
          assert d + e + rest == d + e;
        } else {
          OrderedAppend(t.ccc, d + e, rest);
        }
      }
    }
  }

  lemma FcdFromStart(t: Tables, s: seq<char>)
    requires t.Valid() && OrderedRows(t)
    ensures FcdFrom(t, s, 0) <==> Ordered(t.ccc, DecomposeAll(t, s, false))
  {
    if s != [] {
      var first, rest, d := [s[0]], s[1..], Decompose(t, s[0], false);
      DecomposeOne(t, s[0], false);
      assert first + rest == s;
      assert Ordered(t.ccc, d);
      FcdFromExact(t, first, rest);
      assert FcdFrom(t, s, 0) == FcdFrom(t, rest, t.ccc(d[|d| - 1]));
    }
  }

  /** The FCD check accepts exactly the texts whose decomposition the reordering leaves unchanged. */
  lemma FcdExact(t: Tables, s: seq<char>)
    requires t.Valid() && OrderedRows(t)
    ensures FcdFrom(t, s, 0) <==> Reorder(t.ccc, DecomposeAll(t, s, false)) == DecomposeAll(t, s, false)
    ensures Normalize(t, s, Fcd).Borrowed? <==> Ordered(t.ccc, DecomposeAll(t, s, false))
  {
    OrderedFixed(t.ccc, DecomposeAll(t, s, false));
    FcdFromStart(t, s);
  }

  // ----- Order of the normalized text -----

  /** The full canonical decomposition of `c` starts in the class of `c` and ends in no smaller one. */
  ghost predicate Led(t: Tables, c: char)
    requires t.Valid()
  {
    var d := Decompose(t, c, false);
    t.ccc(d[0]) == t.ccc(c) <= t.ccc(d[|d| - 1])
  }

  ghost predicate MarksLed(t: Tables)
    requires t.Valid()
  {
    forall c :: t.ccc(c) != 0 ==> Led(t, c)
  }

  /** A composite has the class of its first part. */
  ghost predicate CompositesKeep(t: Tables) {
    forall a, b :: Composite(t, a, b).Some? ==> t.ccc(Composite(t, a, b).value) == t.ccc(a)
  }

  /** In order, with nothing above `last` at the end. */
  ghost predicate OrderedTo(cls: char -> nat, w: seq<char>, last: nat) {
    Ordered(cls, w) && (w != [] ==> cls(w[|w| - 1]) <= last)
  }

  /** In order, and the first mark may follow a mark of class `last`. */
  ghost predicate OrderedFrom(cls: char -> nat, s: seq<char>, last: nat) {
    Ordered(cls, s) && (s != [] ==> cls(s[0]) == 0 || last <= cls(s[0]))
  }

  lemma OrderedPush(cls: char -> nat, w: seq<char>, c: char, last: nat, next: nat)
    requires OrderedTo(cls, w, last) && (cls(c) == 0 || last <= cls(c)) && cls(c) <= next
    ensures OrderedTo(cls, w + [c], next)
  {
  }

  lemma OrderedReplace(cls: char -> nat, w: seq<char>, i: nat, c: char, last: nat)
    requires i < |w| && cls(c) == cls(w[i]) && OrderedTo(cls, w, last)
    ensures OrderedTo(cls, w[i := c], last)
  {
  }

  lemma OrderedRest(cls: char -> nat, s: seq<char>)
    requires s != [] && Ordered(cls, s)
    ensures OrderedFrom(cls, s[1..], cls(s[0]))
  {
    assert forall i :: 0 <= i < |s[1..]| ==> s[1..][i] == s[i + 1];
  }

  lemma OrderedLower(cls: char -> nat, s: seq<char>, last: nat, less: nat)
    requires OrderedFrom(cls, s, last) && less <= last
    ensures OrderedFrom(cls, s, less)
  {
  }

  lemma {:induction false} ComposeFromOrdered(
    t: Tables, fcc: bool, w: seq<char>, starter: nat, last: nat, rest: seq<char>)
    requires CompositesKeep(t) && starter < |w|
    requires OrderedTo(t.ccc, w, last) && OrderedFrom(t.ccc, rest, last)
    ensures Ordered(t.ccc, ComposeFrom(t, fcc, w, starter, last, rest))
    decreases |rest|
  {
    if rest != [] {
      var b, tail := rest[0], rest[1..];
      var cc := t.ccc(b);
      OrderedRest(t.ccc, rest);
      var combined := if last == 0 || last < cc then Composite(t, w[starter], b) else None;
      if combined.Some? {
        OrderedReplace(t.ccc, w, starter, combined.value, last);
        OrderedLower(t.ccc, tail, cc, last);
        ComposeFromOrdered(t, fcc, w[starter := combined.value], starter, last, tail);
      } else {
        OrderedPush(t.ccc, w, b, last, cc);
        ComposeFromOrdered(t, fcc, w + [b], if cc == 0 || fcc then |w| else starter, cc, tail);
      }
    }
  }

  lemma {:induction false} FcdFromOrdered(t: Tables, before: seq<char>, s: seq<char>, previous: nat)
    requires t.Valid() && MarksLed(t)
    requires OrderedTo(t.ccc, before, previous) && FcdFrom(t, s, previous)
    ensures Ordered(t.ccc, before + s)
    decreases |s|
  {
    if s == [] {
      assert before + s == before;
    } else {
      var d := Decompose(t, s[0], false);
      assert t.ccc(s[0]) != 0 ==> Led(t, s[0]);
      OrderedPush(t.ccc, before, s[0], previous, t.ccc(d[|d| - 1]));
      FcdFromOrdered(t, before + [s[0]], s[1..], t.ccc(d[|d| - 1]));
      FirstMoved(before, s);
    }
  }

  lemma ComposeOrdered(t: Tables, fcc: bool, s: seq<char>)
    requires CompositesKeep(t) && Ordered(t.ccc, s)
    ensures Ordered(t.ccc, Compose(t, fcc, s))
  {
    if s != [] {
      OrderedRest(t.ccc, s);
      ComposeFromOrdered(t, fcc, [s[0]], 0, t.ccc(s[0]), s[1..]);
    }
  }

  /** The normalized text is in canonical order, whatever the form. */
  lemma NormalizeOrdered(t: Tables, s: seq<char>, form: Form)
    requires t.Valid() && MarksLed(t) && CompositesKeep(t) && !form.Unknown?
    ensures Ordered(t.ccc, Normalize(t, s, form).chars)
  {
    DecomposedNormal(t, s, form.Compat());
    if form.Fcd? && FcdFrom(t, s, 0) {
      FcdFromOrdered(t, [], s, 0);
      assert [] + s == s;
    } else if form.Composing() {
      ComposeOrdered(t, form.Fcc?, Decomposed(t, s, form.Compat()));
    }
  }

  // ----- The code, in place -----

  lemma MappingStep(t: Tables, c: char, n: nat, compat: bool, out: seq<char>)
    requires t.Valid() && c in t.rows && n < |t.rows[c].mapping|
    ensures var m := t.rows[c].mapping;
            && out + DecomposeMapping(t, c, m[..n + 1], compat)
               == out + DecomposeMapping(t, c, m[..n], compat) + Decompose(t, m[n], compat)
            && t.RankOf(m[n]) < t.RankOf(c)
  {
    var m := t.rows[c].mapping;
    assert m[..n + 1][..n] == m[..n];
  }

  method PushSyllable(c: char, out: seq<char>) returns (out': seq<char>)
    requires IsSyllable(c)
    ensures out' == out + SyllableDecomposition(c)
  {
    var i := c as int - 0xAC00;
    out' := out + [(0x1100 + i / 588) as char, (0x1161 + i % 588 / 28) as char];
    if i % 28 != 0 {
      out' := out' + [(0x11A7 + i % 28) as char];
    }
  }

  /** Append the decomposition of `c` to `out`. */
  method PushDecomposition(t: Tables, c: char, compat: bool, out: seq<char>) returns (out': seq<char>)
    requires t.Valid()
    ensures out' == out + Decompose(t, c, compat)
    decreases t.RankOf(c)
  {
    if IsSyllable(c) {
      out' := PushSyllable(c, out);
      return;
    }
    if c in t.rows && (compat || !t.rows[c].compat) {
      var mapping := t.rows[c].mapping;
      out' := out;
      for n := 0 to |mapping|
        invariant out' == out + DecomposeMapping(t, c, mapping[..n], compat)
      {
        MappingStep(t, c, n, compat, out);
        out' := PushDecomposition(t, mapping[n], compat, out');
      }
      assert mapping[..|mapping|] == mapping;
      return;
    }
    out' := out + [c];
  }

  /** `p` with `x` sunk to position `j`, then `rest`. */
  ghost function Sunk(p: seq<char>, x: char, j: nat, rest: seq<char>): (r: seq<char>)
    requires j <= |p|
    ensures |r| == |p| + 1 + |rest| && r[j] == x
    ensures j > 0 ==> r[j - 1] == p[j - 1]
  {
    p[..j] + [x] + p[j..] + rest
  }

  lemma SunkStep(p: seq<char>, x: char, j: nat, rest: seq<char>)
    requires 0 < j <= |p|
    ensures Sunk(p, x, j, rest)[j - 1 := x][j := p[j - 1]] == Sunk(p, x, j - 1, rest)
  {
  }

  /** From `j` on stand marks of classes above `cc`. */
  ghost predicate Above(cls: char -> nat, p: seq<char>, j: nat, cc: nat) {
    forall n :: j <= n < |p| ==> cls(p[n]) > cc
  }

  lemma AboveStep(cls: char -> nat, p: seq<char>, j: nat, cc: nat)
    requires 0 < j <= |p| && Above(cls, p, j, cc) && cls(p[j - 1]) > cc
    ensures Above(cls, p, j - 1, cc)
  {
  }

  lemma SunkIsInserted(cls: char -> nat, p: seq<char>, x: char, j: nat, rest: seq<char>)
    requires j <= |p|
    requires cls(x) != 0 && Above(cls, p, j, cls(x))
    requires j > 0 ==> cls(p[j - 1]) <= cls(x)
    ensures Sunk(p, x, j, rest) == Insert(cls, p, x) + rest
  {
    InsertSplit(cls, p, x, j);
    assert Insert(cls, p[..j], x) == p[..j] + [x];
  }

  method SwapWithPrevious(cps: array<char>, j: nat, ghost p: seq<char>, ghost x: char, ghost rest: seq<char>)
    requires 0 < j <= |p| && cps[..] == Sunk(p, x, j, rest)
    modifies cps
    ensures cps[..] == Sunk(p, x, j - 1, rest)
    ensures j > 1 ==> cps[j - 2] == p[j - 2]
  {
    assert j < |cps[..]|;
    SunkStep(p, x, j, rest);
    assert cps[j - 1] == cps[..][j - 1] && cps[j] == cps[..][j];
    cps[j - 1], cps[j] := cps[j], cps[j - 1];
    assert cps[..] == old(cps[..])[j - 1 := x][j := p[j - 1]];
    assert j > 1 ==> cps[j - 2] == cps[..][j - 2];
  }

  /** Swap the mark at `i` left while a mark of a higher class stands before it, down to `start`. */
  method SinkMark(t: Tables, cps: array<char>, start: nat, i: nat)
    requires start <= i < cps.Length
    requires t.ccc(cps[i]) != 0 && (start > 0 ==> t.ccc(cps[start - 1]) == 0)
    modifies cps
    ensures cps[..] == Insert(t.ccc, old(cps[..i]), old(cps[i])) + old(cps[i + 1..])
  {
    ghost var p, x, rest := cps[..i], cps[i], cps[i + 1..];
    var cc := t.ccc(cps[i]);
    var j := i;
    assert cps[..] == Sunk(p, x, i, rest);
    assert start > 0 ==> t.ccc(p[start - 1]) == 0;
    while j > start && t.ccc(cps[j - 1]) > cc
      invariant start <= j <= i
      invariant cps[..] == Sunk(p, x, j, rest)
      invariant Above(t.ccc, p, j, cc) && (j > 0 ==> cps[j - 1] == p[j - 1])
    {
      AboveStep(t.ccc, p, j, cc);
      SwapWithPrevious(cps, j, p, x, rest);
      j := j - 1;
    }
    SunkIsInserted(t.ccc, p, x, j, rest);
  }

  /** The starter that ends the settled prefix is still in its place. */
  lemma StarterBefore(t: Tables, s: seq<char>, i: nat, start: nat)
    requires 0 < start <= i < |s|
    requires t.ccc(Reorder(t.ccc, s[..i])[start - 1]) == 0
    ensures t.ccc(Reorder(t.ccc, s[..i + 1])[start - 1]) == 0
  {
    ReorderStep(t.ccc, s, i);
    InsertStarters(t.ccc, Reorder(t.ccc, s[..i]), s[i], start - 1);
  }

  /** The first `i` characters are reordered, and a starter ends the settled ones. */
  ghost predicate Reordering(t: Tables, s: seq<char>, now: seq<char>, i: nat, start: nat) {
    && start <= i <= |s| == |now| && now[..i] == Reorder(t.ccc, s[..i]) && now[i..] == s[i..]
    && (start > 0 ==> t.ccc(now[start - 1]) == 0)
  }

  lemma StillThere(t: Tables, s: seq<char>, now: seq<char>, i: nat, start: nat)
    requires Reordering(t, s, now, i, start) && i < |s|
    ensures now[i] == s[i] && now[i + 1..] == s[i + 1..]
  {
    assert now[i] == now[i..][0] == s[i..][0] == s[i];
    assert now[i + 1..] == now[i..][1..] == s[i..][1..] == s[i + 1..];
  }

  lemma ReorderStarter(t: Tables, s: seq<char>, now: seq<char>, i: nat, start: nat)
    requires Reordering(t, s, now, i, start) && i < |s| && t.ccc(s[i]) == 0
    ensures Reordering(t, s, now, i + 1, i + 1)
  {
    StillThere(t, s, now, i, start);
    ReorderStep(t.ccc, s, i);
    assert now[..i + 1] == now[..i] + [now[i]];
  }

  lemma ReorderMark(t: Tables, s: seq<char>, now: seq<char>, i: nat, start: nat)
    requires Reordering(t, s, now, i, start) && i < |s| && t.ccc(s[i]) != 0
    ensures Reordering(t, s, Insert(t.ccc, now[..i], now[i]) + now[i + 1..], i + 1, start)
  {
    StillThere(t, s, now, i, start);
    ReorderStep(t.ccc, s, i);
    if start > 0 {
      assert now[..i][start - 1] == now[start - 1];
      StarterBefore(t, s, i, start);
    }
  }

  /** Stable canonical ordering; starters divide independent combining sequences. */
  method ReorderInPlace(t: Tables, cps: array<char>)
    modifies cps
    ensures cps[..] == Reorder(t.ccc, old(cps[..]))
  {
    ghost var s := cps[..];
    var start := 0;
    for i := 0 to cps.Length
      invariant Reordering(t, s, cps[..], i, start)
    {
      ghost var now := cps[..];
      assert cps[..i] == now[..i] && cps[i] == now[i] && cps[i + 1..] == now[i + 1..];
      var cc := t.ccc(cps[i]);
      StillThere(t, s, now, i, start);
      if cc == 0 {
        ReorderStarter(t, s, now, i, start);
        start := i + 1;
        continue;
      }
      ReorderMark(t, s, now, i, start);
      SinkMark(t, cps, start, i);
    }
    assert s[..cps.Length] == s && cps[..cps.Length] == cps[..];
  }

  /** The composition pass: `write` never passes the read index, so one array holds both ends. */
  method ComposeInPlace(t: Tables, fcc: bool, cps: array<char>) returns (write: nat)
    requires cps.Length > 0
    modifies cps
    ensures write <= cps.Length
    ensures cps[..write] == Compose(t, fcc, old(cps[..]))
  {
    var starter := 0;
    var lastClass := t.ccc(cps[0]);
    write := 1;
    ghost var s := old(cps[..]);
    assert cps[..1] == [s[0]];
    for i := 1 to cps.Length
      invariant starter < write <= i
      invariant cps[i..] == s[i..]
      invariant ComposeFrom(t, fcc, cps[..write], starter, lastClass, s[i..]) == Compose(t, fcc, s)
    {
      var cp := cps[i];
      var cc := t.ccc(cp);
      assert cp == s[i] && s[i..][0] == cp && s[i..][1..] == s[i + 1..];
      ghost var w := cps[..write];
      assert cps[i + 1..] == s[i + 1..];
      var combined := if lastClass == 0 || lastClass < cc then Composite(t, cps[starter], cp) else None;
      if combined.Some? {
        cps[starter] := combined.value;
        assert cps[..write] == w[starter := combined.value];
      } else {
        if cc == 0 {
          starter := write;
        } else if fcc {
          starter := write;
        }
        cps[write] := cp;
        write := write + 1;
        lastClass := cc;
        assert cps[..write] == w + [cp];
      }
    }
    assert s[cps.Length..] == [];
  }

  method FcdOrdered(t: Tables, s: seq<char>) returns (ordered: bool)
    requires t.Valid()
    ensures ordered == FcdFrom(t, s, 0)
  {
    var previous := 0;
    ordered := true;
    for i := 0 to |s|
      invariant ordered
      invariant FcdFrom(t, s, 0) == FcdFrom(t, s[i..], previous)
    {
      var d := PushDecomposition(t, s[i], false, []);
      assert d == Decompose(t, s[i], false) && s[i..][1..] == s[i + 1..];
      var lead := t.ccc(d[0]);
      if lead != 0 && previous > lead {
        ordered := false;
        break;
      }
      previous := t.ccc(d[|d| - 1]);
    }
  }

  method NormalizeText(t: Tables, s: seq<char>, name: string) returns (r: Text)
    requires t.Valid()
    ensures r == Normalize(t, s, FormOf(name))
  {
    var form := FormOf(name);
    if form.Unknown? {
      return Borrowed(s);
    }
    var compat := form.Compat();
    var decomposed := [];
    for n := 0 to |s|
      invariant decomposed == DecomposeAll(t, s[..n], compat)
    {
      assert s[..n + 1][..n] == s[..n];
      decomposed := PushDecomposition(t, s[n], compat, decomposed);
    }
    assert s[..|s|] == s;
    var cps := new char[|decomposed|](n requires 0 <= n < |decomposed| => decomposed[n]);
    assert cps[..] == decomposed;
    ReorderInPlace(t, cps);
    var write := cps.Length;
    assert cps[..write] == Decomposed(t, s, compat);
    if form.Fcd? {
      var ordered := FcdOrdered(t, s);
      if ordered {
        return Borrowed(s);
      }
    } else if form.Composing() && cps.Length != 0 {
      assert cps[..] == Decomposed(t, s, compat);
      write := ComposeInPlace(t, form.Fcc?, cps);
    }
    r := Owned(cps[..write]);
  }

  // ----- With the generated ranges of classes -----

  /** The tables whose classes are looked up in ranges. */
  function RangeTables(
    ranges: seq<ClassRange>, rows: map<char, Row>, compositions: map<(char, char), char>): Tables
  {
    Tables(c => CombiningClass(ranges, c), rows, compositions)
  }

  predicate InRange(ranges: seq<ClassRange>, k: nat, c: char) {
    k < |ranges| && ranges[k].lo <= c <= ranges[k].hi
  }

  /** The class of the range of `y`, if there is one, is 0 or no lower than that of the range of `x`. */
  ghost predicate MayFollow(ranges: seq<ClassRange>, x: char, y: char) {
    forall p: nat, q: nat :: InRange(ranges, p, x) && InRange(ranges, q, y) ==>
      ranges[q].cls == 0 || ranges[p].cls <= ranges[q].cls
  }

  ghost predicate RangesOrdered(ranges: seq<ClassRange>, s: seq<char>) {
    forall i :: 0 < i < |s| ==> MayFollow(ranges, s[i - 1], s[i])
  }

  lemma OrderedInRanges(ranges: seq<ClassRange>, s: seq<char>)
    requires SortedRanges(ranges) && Ordered(c => CombiningClass(ranges, c), s)
    ensures RangesOrdered(ranges, s)
  {
    forall i | 0 < i < |s| ensures MayFollow(ranges, s[i - 1], s[i]) {
      CombiningClassExact(ranges, s[i - 1]);
      CombiningClassExact(ranges, s[i]);
    }
  }

  /** Normalization with classes looked up in sorted ranges leaves the marks in the order of the ranges. */
  method NormalizeInRanges(
    ranges: seq<ClassRange>, rows: map<char, Row>, compositions: map<(char, char), char>, s: seq<char>, name: string)
    returns (r: Text)
    requires SortedRanges(ranges) && RangeTables(ranges, rows, compositions).Valid()
    ensures r == Normalize(RangeTables(ranges, rows, compositions), s, FormOf(name))
    ensures var t := RangeTables(ranges, rows, compositions);
            MarksLed(t) && CompositesKeep(t) && !FormOf(name).Unknown? ==> RangesOrdered(ranges, r.chars)
  {
    var t := RangeTables(ranges, rows, compositions);
    r := NormalizeText(t, s, name);
    if MarksLed(t) && CompositesKeep(t) && !FormOf(name).Unknown? {
      NormalizeOrdered(t, s, FormOf(name));
      OrderedInRanges(ranges, r.chars);
    }
  }
}

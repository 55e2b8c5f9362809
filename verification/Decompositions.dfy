/**
 What decomposition is, in terms of the rows and of the numbers of the Hangul syllables alone (`decompose`
 and `composite`, crates/tex-biber/src/collation_normalization.rs; D65, D68 and section 3.12 of the Unicode
 Standard), and what each form makes of a text.
 */
module Decompositions {
  import opened Wrappers
  import opened CanonicalOrder
  import opened Normalization
  import opened ComposedForms

  // ----- The rules -----

  /** The jamo that spell the syllable of leading consonant `l`, vowel `v` and trailing consonant `f`, if any. */
  function Spelled(l: nat, v: nat, f: nat): seq<char>
    requires l < 19 && v < 21 && f < 28
  {
    [(0x1100 + l) as char, (0x1161 + v) as char] + if f > 0 then [(0x11A7 + f) as char] else []
  }

  function SyllableNumber(l: nat, v: nat, f: nat): nat {
    0xAC00 + (l * 21 + v) * 28 + f
  }

  ghost predicate Spells(d: seq<char>, c: char, l: nat, v: nat, f: nat) {
    l < 19 && v < 21 && f < 28 && c as int == SyllableNumber(l, v, f) && d == Spelled(l, v, f)
  }

  /** A rule for `c`: its row, if that is a canonical one or all rows count, or its spelling. */
  ghost predicate Rule(t: Tables, compat: bool, c: char, d: seq<char>) {
    || (c in t.rows && t.rows[c] == Row(false, d))
    || (compat && c in t.rows && t.rows[c] == Row(true, d))
    || exists l: nat, v: nat, f: nat :: Spells(d, c, l, v, f)
  }

  /** No rule is left for any character. */
  ghost predicate Final(t: Tables, compat: bool, s: seq<char>) {
    forall x, d :: x in s ==> !Rule(t, compat, x, d)
  }

  // ----- Rules and decomposition -----

  lemma SyllableSpelled(c: char, l: nat, v: nat, f: nat)
    requires l < 19 && v < 21 && f < 28 && c as int == SyllableNumber(l, v, f)
    ensures IsSyllable(c) && SyllableDecomposition(c) == Spelled(l, v, f)
  {
    var i := c as int - 0xAC00;
    assert i == l * 588 + (v * 28 + f) && 0 <= v * 28 + f < 588;
    assert i / 588 == l && i % 588 == v * 28 + f;
    assert (v * 28 + f) / 28 == v && i % 28 == f;
  }

  lemma SyllableHasSpelling(c: char)
    requires IsSyllable(c)
    ensures exists l: nat, v: nat, f: nat :: Spells(SyllableDecomposition(c), c, l, v, f)
  {
    var i := c as int - 0xAC00;
    var l, v, f := i / 588, i % 588 / 28, i % 28;
    assert i == 588 * l + i % 588 && i % 588 == 28 * v + i % 588 % 28;
    assert i % 588 % 28 == f;
    assert Spells(SyllableDecomposition(c), c, l, v, f);
  }

  /** A rule gives the text that is decomposed further. */
  lemma RuleDecomposes(t: Tables, compat: bool, c: char, d: seq<char>)
    requires t.Valid() && Rule(t, compat, c, d)
    ensures Decompose(t, c, compat) == DecomposeAll(t, d, compat)
  {
    if l: nat, v: nat, f: nat :| Spells(d, c, l, v, f) {
      SyllableSpelled(c, l, v, f);
      JamoFixed(t, compat, d);
    } else {
      DecomposeMappingAll(t, c, t.rows[c].mapping, compat);
    }
  }

  lemma {:induction false} JamoFixed(t: Tables, compat: bool, d: seq<char>)
    requires t.Valid() && forall x :: x in d ==> IsJamo(x)
    ensures DecomposeAll(t, d, compat) == d
  {
    forall x | x in d ensures Decompose(t, x, compat) == [x] {
      assert x !in t.rows;
    }
    IrreducibleFixed(t, d, compat);
  }

  lemma UnruledFixed(t: Tables, compat: bool, c: char)
    requires t.Valid() && forall d :: !Rule(t, compat, c, d)
    ensures Decompose(t, c, compat) == [c]
  {
    if IsSyllable(c) {
      SyllableHasSpelling(c);
      assert Rule(t, compat, c, SyllableDecomposition(c));
    } else if c in t.rows {
      assert !Rule(t, compat, c, t.rows[c].mapping);
      assert t.rows[c] == Row(t.rows[c].compat, t.rows[c].mapping);
    }
  }

  /** A text for which no rule is left is its own decomposition. */
  lemma FinalFixed(t: Tables, compat: bool, s: seq<char>)
    requires t.Valid() && Final(t, compat, s)
    ensures DecomposeAll(t, s, compat) == s
  {
    forall x | x in s ensures Decompose(t, x, compat) == [x] {
      UnruledFixed(t, compat, x);
    }
    IrreducibleFixed(t, s, compat);
  }

  lemma JamoFinal(t: Tables, compat: bool, s: seq<char>)
    requires t.Valid() && forall x :: x in s ==> IsJamo(x)
    ensures Final(t, compat, s)
  {
    forall x, d | x in s ensures !Rule(t, compat, x, d) {
      assert x !in t.rows;
    }
  }

  lemma {:induction false} DecomposeFinal(t: Tables, compat: bool, c: char)
    requires t.Valid()
    ensures Final(t, compat, Decompose(t, c, compat))
    decreases t.RankOf(c), 0
  {
    if IsSyllable(c) {
      JamoFinal(t, compat, SyllableDecomposition(c));
    } else if c in t.rows && (compat || !t.rows[c].compat) {
      MappingFinal(t, compat, c, t.rows[c].mapping);
    } else {
      NoRule(t, compat, c);
    }
  }

  lemma NoRule(t: Tables, compat: bool, c: char)
    requires !IsSyllable(c) && !(c in t.rows && (compat || !t.rows[c].compat))
    ensures Final(t, compat, [c])
  {
    forall x, d | x in [c] ensures !Rule(t, compat, x, d) {
      if l: nat, v: nat, f: nat :| Spells(d, c, l, v, f) {
        SyllableSpelled(c, l, v, f);
      }
    }
  }

  lemma {:induction false} MappingFinal(t: Tables, compat: bool, c: char, mapping: seq<char>)
    requires t.Valid() && c in t.rows
    requires forall x :: x in mapping ==> x in t.rows[c].mapping
    ensures Final(t, compat, DecomposeMapping(t, c, mapping, compat))
    decreases t.RankOf(c), 0, |mapping|
  {
    if mapping != [] {
      assert mapping[|mapping| - 1] in t.rows[c].mapping;
      MappingFinal(t, compat, c, mapping[..|mapping| - 1]);
      DecomposeFinal(t, compat, mapping[|mapping| - 1]);
    }
  }

  /** No rule is left for the decomposition of a text. */
  lemma {:induction false} DecomposeAllFinal(t: Tables, compat: bool, s: seq<char>)
    requires t.Valid()
    ensures Final(t, compat, DecomposeAll(t, s, compat))
  {
    if s != [] {
      DecomposeAllFinal(t, compat, s[..|s| - 1]);
      DecomposeFinal(t, compat, s[|s| - 1]);
    }
  }

  // ----- Derivations -----

  /** `u` is `s` with one character replaced by a rule. */
  ghost predicate Replaces(t: Tables, compat: bool, s: seq<char>, u: seq<char>, i: nat, d: seq<char>) {
    i < |s| && Rule(t, compat, s[i], d) && u == s[..i] + d + s[i + 1..]
  }

  ghost predicate OneStep(t: Tables, compat: bool, s: seq<char>, u: seq<char>) {
    exists i: nat, d :: Replaces(t, compat, s, u, i, d)
  }

  /** Texts, each but the last with one character replaced to give the next. */
  ghost predicate Derivation(t: Tables, compat: bool, texts: seq<seq<char>>) {
    texts != [] && forall k :: 0 < k < |texts| ==> OneStep(t, compat, texts[k - 1], texts[k])
  }

  ghost predicate Derives(t: Tables, compat: bool, s: seq<char>, u: seq<char>) {
    exists texts :: Derivation(t, compat, texts) && texts[0] == s && texts[|texts| - 1] == u
  }

  /** Replacing one character by a rule leaves the decomposition of the text unchanged. */
  lemma ReplacementKeeps(t: Tables, compat: bool, s: seq<char>, u: seq<char>, i: nat, d: seq<char>)
    requires t.Valid() && Replaces(t, compat, s, u, i, d)
    ensures DecomposeAll(t, u, compat) == DecomposeAll(t, s, compat)
  {
    var a, c, b := s[..i], [s[i]], s[i + 1..];
    assert s == a + c + b;
    RuleDecomposes(t, compat, s[i], d);
    DecomposeOne(t, s[i], compat);
    DecomposeAllAppend(t, a + c, b, compat);
    DecomposeAllAppend(t, a, c, compat);
    DecomposeAllAppend(t, a + d, b, compat);
    DecomposeAllAppend(t, a, d, compat);
  }

  lemma {:induction false} DerivationKeeps(t: Tables, compat: bool, texts: seq<seq<char>>)
    requires t.Valid() && Derivation(t, compat, texts)
    ensures DecomposeAll(t, texts[|texts| - 1], compat) == DecomposeAll(t, texts[0], compat)
    decreases |texts|
  {
    var n := |texts| - 1;
    if n > 0 {
      DerivationKeeps(t, compat, texts[..n]);
      assert OneStep(t, compat, texts[n - 1], texts[n]);
      var i: nat, d :| Replaces(t, compat, texts[n - 1], texts[n], i, d);
      ReplacementKeeps(t, compat, texts[n - 1], texts[n], i, d);
    }
  }

  lemma DerivesTrans(t: Tables, compat: bool, s: seq<char>, u: seq<char>, w: seq<char>)
    requires Derives(t, compat, s, u) && Derives(t, compat, u, w)
    ensures Derives(t, compat, s, w)
  {
    var a :| Derivation(t, compat, a) && a[0] == s && a[|a| - 1] == u;
    var b :| Derivation(t, compat, b) && b[0] == u && b[|b| - 1] == w;
    var texts := a + b[1..];
    forall k | 0 < k < |texts| ensures OneStep(t, compat, texts[k - 1], texts[k]) {
      if k >= |a| {
        assert texts[k] == b[k - |a| + 1] && texts[k - 1] == b[k - |a|];
      }
    }
    assert Derivation(t, compat, texts);
  }

  lemma DerivesSelf(t: Tables, compat: bool, s: seq<char>)
    ensures Derives(t, compat, s, s)
  {
    assert Derivation(t, compat, [s]);
  }

  lemma DerivesOne(t: Tables, compat: bool, a: seq<char>, c: char, b: seq<char>, d: seq<char>)
    requires Rule(t, compat, c, d)
    ensures Derives(t, compat, a + [c] + b, a + d + b)
  {
    var s, u := a + [c] + b, a + d + b;
    assert s[..|a|] == a && s[|a| + 1..] == b && s[|a|] == c;
    assert Replaces(t, compat, s, u, |a|, d);
    assert OneStep(t, compat, s, u);
    assert Derivation(t, compat, [s, u]);
  }

  lemma {:induction false} DerivesCharacter(t: Tables, compat: bool, a: seq<char>, c: char, b: seq<char>)
    requires t.Valid()
    ensures Derives(t, compat, a + [c] + b, a + Decompose(t, c, compat) + b)
    decreases t.RankOf(c), 0
  {
    if IsSyllable(c) {
      SyllableHasSpelling(c);
      assert Rule(t, compat, c, SyllableDecomposition(c));
      DerivesOne(t, compat, a, c, b, SyllableDecomposition(c));
    } else if c in t.rows && (compat || !t.rows[c].compat) {
      var m := t.rows[c].mapping;
      assert t.rows[c] == Row(t.rows[c].compat, m);
      DerivesOne(t, compat, a, c, b, m);
      DerivesMapping(t, compat, a, c, m, b);
      DerivesTrans(t, compat, a + [c] + b, a + m + b, a + Decompose(t, c, compat) + b);
    } else {
      DerivesSelf(t, compat, a + [c] + b);
    }
  }

  lemma {:induction false} DerivesMapping(t: Tables, compat: bool, a: seq<char>, c: char, mapping: seq<char>, b: seq<char>)
    requires t.Valid() && c in t.rows
    requires forall x :: x in mapping ==> x in t.rows[c].mapping
    ensures Derives(t, compat, a + mapping + b, a + DecomposeMapping(t, c, mapping, compat) + b)
    decreases t.RankOf(c), 0, |mapping|
  {
    if mapping == [] {
      DerivesSelf(t, compat, a + mapping + b);
    } else {
      var n := |mapping| - 1;
      var front, last := mapping[..n], mapping[n];
      assert last in t.rows[c].mapping;
      var done := DecomposeMapping(t, c, front, compat);
      DerivesMapping(t, compat, a, c, front, [last] + b);
      DerivesCharacter(t, compat, a + done, last, b);
      assert a + mapping + b == a + front + ([last] + b);
      assert a + done + ([last] + b) == a + done + [last] + b;
      assert a + (done + Decompose(t, last, compat)) + b == a + done + Decompose(t, last, compat) + b;
      DerivesTrans(t, compat, a + mapping + b, a + done + [last] + b, a + DecomposeMapping(t, c, mapping, compat) + b);
    }
  }

  lemma {:induction false} DerivesAll(t: Tables, compat: bool, s: seq<char>, b: seq<char>)
    requires t.Valid()
    ensures Derives(t, compat, s + b, DecomposeAll(t, s, compat) + b)
    decreases |s|
  {
    if s == [] {
      DerivesSelf(t, compat, s + b);
    } else {
      var n := |s| - 1;
      var front, last, done := s[..n], s[n], DecomposeAll(t, s[..n], compat);
      DerivesAll(t, compat, front, [last] + b);
      DerivesCharacter(t, compat, done, last, b);
      assert s + b == front + ([last] + b) && done + ([last] + b) == done + [last] + b;
      DerivesTrans(t, compat, s + b, done + [last] + b, DecomposeAll(t, s, compat) + b);
    }
  }

  /**
   The decomposition of a text is the one text without a rule left that rules derive from it. Canonical
   decomposition uses the canonical rows and the spellings, compatibility decomposition all rows.
   */
  lemma DecompositionExact(t: Tables, compat: bool, s: seq<char>, u: seq<char>)
    requires t.Valid()
    ensures u == DecomposeAll(t, s, compat) <==> Derives(t, compat, s, u) && Final(t, compat, u)
  {
    DerivesAll(t, compat, s, []);
    assert s + [] == s && DecomposeAll(t, s, compat) + [] == DecomposeAll(t, s, compat);
    DecomposeAllFinal(t, compat, s);
    if Derives(t, compat, s, u) && Final(t, compat, u) {
      var texts :| Derivation(t, compat, texts) && texts[0] == s && texts[|texts| - 1] == u;
      DerivationKeeps(t, compat, texts);
      FinalFixed(t, compat, u);
    }
  }

  // ----- Composites -----

  /** Syllables are composed from their spellings, and every row of the table is. */
  lemma CompositeOfSpelling(t: Tables, l: nat, v: nat, f: nat)
    requires l < 19 && v < 21 && f < 28
    ensures Composite(t, (0x1100 + l) as char, (0x1161 + v) as char) == Some(SyllableNumber(l, v, 0) as char)
    ensures f > 0 ==>
              Composite(t, SyllableNumber(l, v, 0) as char, (0x11A7 + f) as char) == Some(SyllableNumber(l, v, f) as char)
  {
    var lv := SyllableNumber(l, v, 0) as char;
    assert (lv as int - 0xAC00) == 28 * (l * 21 + v);
  }

  /** The table composes every other pair it has. */
  lemma CompositeOfTable(t: Tables, a: char, b: char)
    requires (a, b) in t.compositions
    requires !(0x1100 <= a as int < 0x1113 && 0x1161 <= b as int < 0x1176)
    requires !(0xAC00 <= a as int < 0xD7A4 && (a as int - 0xAC00) % 28 == 0 && 0x11A8 <= b as int < 0x11C3)
    ensures Composite(t, a, b) == Some(t.compositions[(a, b)])
  {
  }

  // ----- The forms by name -----

  lemma FormNames(name: string)
    ensures FormOf(name).Nfd? <==> name == "NFD" || name == "D"
    ensures FormOf(name).Nfkd? <==> name == "NFKD" || name == "KD"
    ensures FormOf(name).Nfc? <==> name == "NFC" || name == "C"
    ensures FormOf(name).Nfkc? <==> name == "NFKC" || name == "KC"
    ensures FormOf(name).Fcd? <==> name == "FCD"
    ensures FormOf(name).Fcc? <==> name == "FCC"
  {
  }

  /** The canonical decomposition of a text in order, or the compatibility one. */
  function InOrder(t: Tables, s: seq<char>, compat: bool): seq<char>
    requires t.Valid()
  {
    Reorder(t.ccc, DecomposeAll(t, s, compat))
  }

  /** NFD and NFKD give the decomposition in order, and an unknown form the text itself. */
  lemma DecomposedForms(t: Tables, s: seq<char>)
    requires t.Valid()
    ensures Normalize(t, s, Nfd).chars == InOrder(t, s, false)
    ensures Normalize(t, s, Nfkd).chars == InOrder(t, s, true)
    ensures Normalize(t, s, Unknown) == Borrowed(s)
  {
  }

  /** FCD gives the canonical decomposition in order, unless that of the text is in order as it stands. */
  lemma FcdForm(t: Tables, s: seq<char>)
    requires t.Valid() && OrderedRows(t)
    ensures Normalize(t, s, Fcd).chars == if Ordered(t.ccc, DecomposeAll(t, s, false)) then s else InOrder(t, s, false)
  {
    FcdExact(t, s);
  }

  /** NFC, NFKC and FCC give composed texts with the decomposition of the text. */
  lemma FormsCompose(t: Tables, s: seq<char>, form: Form)
    requires t.Valid()
    ensures var r := Normalize(t, s, form).chars;
            && (form.Nfc? || form.Fcc? ==> InOrder(t, r, false) == InOrder(t, s, false))
            && (form.Nfkc? ==> InOrder(t, r, true) == InOrder(t, s, true))
            && (form.Nfc? && Composable(t, false) ==> Settled(t, r))
            && (form.Nfkc? && Composable(t, true) ==> Settled(t, r))
            && (form.Fcc? && Composable(t, false) ==> Contiguous(t, r))
  {
    if !form.Unknown? {
      NormalizeKeepsClass(t, s, form);
    }
    if (form.Nfc? || form.Nfkc?) && Composable(t, form.Compat()) {
      NormalizeComplete(t, s, form);
    }
    if form.Fcc? && Composable(t, false) {
      FccComplete(t, s);
    }
  }
}

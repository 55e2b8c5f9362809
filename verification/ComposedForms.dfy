/**
 Composition is complete (`normalize`, crates/tex-biber/src/collation_normalization.rs; D117 of section
 3.11 of the Unicode Standard): in what it leaves, no starter has a composite with an unblocked
 character behind it.
 */
module ComposedForms {
  import opened Wrappers
  import opened CanonicalOrder
  import opened Normalization

  /** Every full decomposition is in canonical order. */
  ghost predicate OrderedDecompositions(t: Tables, compat: bool)
    requires t.Valid()
  {
    forall c :: Ordered(t.ccc, Decompose(t, c, compat))
  }

  /** The second part of a composite of the table does not decompose. */
  ghost predicate SecondsIrreducible(t: Tables, compat: bool)
    requires t.Valid()
  {
    forall a, b :: (a, b) in t.compositions ==> Decompose(t, b, compat) == [b]
  }

  /** The facts about the generated tables that completeness rests on. */
  ghost predicate Composable(t: Tables, compat: bool)
    requires t.Valid()
  {
    OrderedDecompositions(t, compat) && SecondsIrreducible(t, compat) && CompositesKeep(t)
  }

  lemma SecondIrreducible(t: Tables, a: char, b: char, compat: bool)
    requires t.Valid() && SecondsIrreducible(t, compat) && Composite(t, a, b).Some?
    ensures Decompose(t, b, compat) == [b]
  {
  }

  /** A composite is no second part. */
  lemma CompositeNotSecond(t: Tables, s: char, a: char, b: char, compat: bool)
    requires t.Valid() && SecondsIrreducible(t, compat) && Composite(t, a, b).Some?
    ensures Composite(t, s, Composite(t, a, b).value).None?
  {
    var c := Composite(t, a, b).value;
    if Composite(t, s, c).Some? {
      SecondIrreducible(t, s, c, compat);
      CompositeDecomposes(t, a, b, compat);
    }
  }

  lemma OrderedEnd(cls: char -> nat, d: seq<char>, x: char, y: char)
    requires Ordered(cls, d + [x] + [y])
    ensures cls(y) == 0 || cls(x) <= cls(y)
  {
    var s := d + [x] + [y];
    assert s[|d|] == x && s[|d| + 1] == y;
  }

  /** A composite has no further composite with a mark of a class below that of its second part. */
  lemma NoLowerMark(t: Tables, a: char, b: char, m: char, compat: bool)
    requires t.Valid() && OrderedDecompositions(t, compat) && SecondsIrreducible(t, compat)
    requires Composite(t, a, b).Some? && 0 < t.ccc(m) < t.ccc(b)
    ensures Composite(t, Composite(t, a, b).value, m).None?
  {
    var c := Composite(t, a, b).value;
    if Composite(t, c, m).Some? {
      SecondIrreducible(t, a, b, compat);
      SecondIrreducible(t, c, m, compat);
      CompositeDecomposes(t, a, b, compat);
      CompositeDecomposes(t, c, m, compat);
      OrderedEnd(t.ccc, Decompose(t, a, compat), b, m);
    }
  }

  // ----- Unblocked pairs -----

  /** Nothing between positions `i` and `j` blocks them (D115). */
  predicate Open(t: Tables, w: seq<char>, i: nat, j: nat)
    requires j < |w|
  {
    forall k :: i < k < j ==> 0 < t.ccc(w[k]) < t.ccc(w[j])
  }

  /** A starter and an unblocked character behind it have no composite. */
  ghost predicate PairSettled(t: Tables, w: seq<char>, i: nat, j: nat)
    requires i < j < |w|
  {
    t.ccc(w[i]) == 0 && Open(t, w, i, j) ==> Composite(t, w[i], w[j]).None?
  }

  ghost predicate Settled(t: Tables, w: seq<char>) {
    forall i, j :: 0 <= i < j < |w| ==> PairSettled(t, w, i, j)
  }

  /** Between two steps of the pass: behind the last starter stand only marks up to the class written last. */
  ghost predicate Passing(t: Tables, w: seq<char>, starter: nat, last: nat) {
    && starter < |w| && last == t.ccc(w[|w| - 1])
    && (forall k :: starter < k < |w| ==> 0 < t.ccc(w[k]) <= last)
    && (t.ccc(w[starter]) == 0 || starter == 0)
    && Settled(t, w)
  }

  lemma Combines(t: Tables, w: seq<char>, starter: nat, last: nat, b: char, compat: bool)
    requires t.Valid() && Composable(t, compat) && Passing(t, w, starter, last)
    requires (last == 0 || last < t.ccc(b)) && Composite(t, w[starter], b).Some?
    ensures Passing(t, w[starter := Composite(t, w[starter], b).value], starter, last)
  {
    var c := Composite(t, w[starter], b).value;
    var w' := w[starter := c];
    forall i, j | 0 <= i < j < |w'| ensures PairSettled(t, w', i, j) {
      assert PairSettled(t, w, i, j);
      if j == starter {
        CompositeNotSecond(t, w[i], w[starter], b, compat);
      } else if i == starter {
        NoLowerMark(t, w[starter], b, w[j], compat);
      } else if Open(t, w', i, j) {
        assert Open(t, w, i, j) by {
          forall k | i < k < j ensures 0 < t.ccc(w[k]) < t.ccc(w[j]) {
            assert t.ccc(w'[k]) == t.ccc(w[k]);
          }
        }
      }
    }
  }

  lemma Writes(t: Tables, w: seq<char>, starter: nat, last: nat, b: char)
    requires Passing(t, w, starter, last)
    requires (last == 0 || last < t.ccc(b)) ==> Composite(t, w[starter], b).None?
    requires |w| > starter + 1 ==> t.ccc(b) == 0 || last <= t.ccc(b)
    ensures Passing(t, w + [b], if t.ccc(b) == 0 then |w| else starter, t.ccc(b))
  {
    var w' := w + [b];
    forall i, j | 0 <= i < j < |w'| ensures PairSettled(t, w', i, j) {
      if j < |w| {
        assert PairSettled(t, w, i, j);
        if Open(t, w', i, j) {
          assert Open(t, w, i, j) by {
            forall k | i < k < j ensures 0 < t.ccc(w[k]) < t.ccc(w[j]) {
              assert w'[k] == w[k];
            }
          }
        }
      } else if t.ccc(w'[i]) == 0 && Open(t, w', i, j) {
        StarterIs(t, w, starter, last, b, i);
      }
    }
  }

  /** The one starter that a character written next may be unblocked from. */
  lemma StarterIs(t: Tables, w: seq<char>, starter: nat, last: nat, b: char, i: nat)
    requires Passing(t, w, starter, last) && i < |w|
    requires t.ccc(w[i]) == 0 && Open(t, w + [b], i, |w|)
    ensures i == starter && (last == 0 || last < t.ccc(b))
  {
    assert forall k :: 0 <= k < |w| ==> (w + [b])[k] == w[k];
  }

  lemma {:induction false} ComposeFromComplete(
    t: Tables, w: seq<char>, starter: nat, last: nat, rest: seq<char>, compat: bool)
    requires t.Valid() && Composable(t, compat) && Passing(t, w, starter, last)
    requires Ordered(t.ccc, rest) && (rest != [] ==> t.ccc(rest[0]) == 0 || last <= t.ccc(rest[0]))
    ensures Settled(t, ComposeFrom(t, false, w, starter, last, rest))
    decreases |rest|
  {
    if rest != [] {
      var b, tail := rest[0], rest[1..];
      var cc := t.ccc(b);
      assert forall i :: 0 <= i < |tail| ==> tail[i] == rest[i + 1];
      var combined := if last == 0 || last < cc then Composite(t, w[starter], b) else None;
      if combined.Some? {
        Combines(t, w, starter, last, b, compat);
        ComposeFromComplete(t, w[starter := combined.value], starter, last, tail, compat);
      } else {
        Writes(t, w, starter, last, b);
        ComposeFromComplete(t, w + [b], if cc == 0 then |w| else starter, cc, tail, compat);
      }
    }
  }

  /** Composition of a text in canonical order leaves no starter that has a composite with an unblocked character. */
  lemma ComposeComplete(t: Tables, d: seq<char>, compat: bool)
    requires t.Valid() && Composable(t, compat) && Ordered(t.ccc, d)
    ensures Settled(t, Compose(t, false, d))
  {
    if d != [] {
      assert forall i :: 0 <= i < |d[1..]| ==> d[1..][i] == d[i + 1];
      ComposeFromComplete(t, [d[0]], 0, t.ccc(d[0]), d[1..], compat);
    }
  }

  /** Texts in NFC and NFKC are fully composed. */
  lemma NormalizeComplete(t: Tables, s: seq<char>, form: Form)
    requires t.Valid() && (form.Nfc? || form.Nfkc?) && Composable(t, form.Compat())
    ensures Settled(t, Normalize(t, s, form).chars)
  {
    DecomposedNormal(t, s, form.Compat());
    ComposeComplete(t, Decomposed(t, s, form.Compat()), form.Compat());
  }

  // ----- Contiguous composition -----

  /** No character has a composite with the next one, unless it blocks that. */
  ghost predicate Contiguous(t: Tables, w: seq<char>) {
    forall i :: 0 < i < |w| && (t.ccc(w[i - 1]) == 0 || t.ccc(w[i - 1]) < t.ccc(w[i])) ==>
      Composite(t, w[i - 1], w[i]).None?
  }

  lemma {:induction false} ContiguousFrom(t: Tables, w: seq<char>, rest: seq<char>, compat: bool)
    requires t.Valid() && Composable(t, compat) && w != [] && Contiguous(t, w)
    ensures Contiguous(t, ComposeFrom(t, true, w, |w| - 1, t.ccc(w[|w| - 1]), rest))
    decreases |rest|
  {
    if rest != [] {
      var b, last, starter := rest[0], t.ccc(w[|w| - 1]), |w| - 1;
      var combined := if last == 0 || last < t.ccc(b) then Composite(t, w[starter], b) else None;
      if combined.Some? {
        if starter > 0 {
          CompositeNotSecond(t, w[starter - 1], w[starter], b, compat);
        }
        ContiguousFrom(t, w[starter := combined.value], rest[1..], compat);
      } else {
        ContiguousFrom(t, w + [b], rest[1..], compat);
      }
    }
  }

  /** Texts in FCC are composed as far as composition of neighbours goes. */
  lemma FccComplete(t: Tables, s: seq<char>)
    requires t.Valid() && Composable(t, false)
    ensures Contiguous(t, Normalize(t, s, Fcc).chars)
  {
    var d := Decomposed(t, s, false);
    if d != [] {
      ContiguousFrom(t, [d[0]], d[1..], false);
    }
  }
}

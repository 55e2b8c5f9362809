/**
 The key of a text (`Collator::key`, crates/tex-biber/src/collation.rs): the text is normalized, its
 elements are found, and the key is built from them.
 */
module CollationKeys {
  import opened CanonicalOrder
  import opened Normalization
  import opened SortKeys
  import opened Contractions
  import opened CollationSteps
  import opened CollationElements

  function CodePoints(s: seq<char>): (text: seq<nat>)
    ensures IsText(text) && |text| == |s|
    ensures forall i :: 0 <= i < |s| ==> text[i] == s[i] as int
  {
    seq(|s|, i requires 0 <= i < |s| => s[i] as int)
  }

  /** The text that a collator works on. */
  function NormalText(t: Tables, form: Form, s: seq<char>): (text: seq<nat>)
    requires t.Valid()
    ensures IsText(text)
  {
    CodePoints(Normalize(t, s, form).chars)
  }

  function TextKey(t: Tables, form: Form, c: Collator, o: Options, s: seq<char>): seq<nat>
    requires t.Valid()
  {
    var text := NormalText(t, form, s);
    Key(o, Weigh(c, TextSteps(c, text), 0), text)
  }

  /** The collator takes its combining classes from the tables of the normalization. */
  ghost predicate SameClasses(t: Tables, c: Collator) {
    forall x: char :: c.combining(x as nat) == t.ccc(x)
  }

  /** Under a known form, and in versions that leave nothing out, what the tables generated guarantee. */
  ghost predicate WellOrdered(t: Tables, form: Form, c: Collator)
    requires t.Valid()
  {
    MarksLed(t) && CompositesKeep(t) && SameClasses(t, c) && !form.Unknown? && c.version != 9 && c.version != 11
  }

  /**
   Normalize, find the elements, build the key. The steps by which the elements were found consume each
   code point once, but for those left out, and absorb no blocked mark of a normalized text.
   */
  method SortKey(t: Tables, form: string, c: Collator, o: Options, s: seq<char>)
    returns (key: seq<nat>, ghost steps: seq<Step>)
    requires t.Valid() && c.Valid() && o.Valid()
    ensures key == TextKey(t, FormOf(form), c, o, s)
    ensures var text := NormalText(t, FormOf(form), s);
            && steps == TextSteps(c, text)
            && (forall q: nat :: Times(steps, q) == TextDue(c, text, q))
            && (WellOrdered(t, FormOf(form), c) ==> EachUnblocked(c, text, steps))
  {
    var normalized := NormalizeText(t, s, form);
    var text := CodePoints(normalized.chars);
    var elements;
    elements, steps := Elements(c, text);
    key := BuildKey(o, elements, text);
    if WellOrdered(t, FormOf(form), c) {
      NormalTextOrdered(t, FormOf(form), c, s);
    }
  }

  /** A form under which texts of the same decomposition become the same text. */
  predicate Settles(form: Form) {
    !form.Unknown? && !form.Fcd?
  }

  lemma SettledText(t: Tables, form: Form, a: seq<char>, b: seq<char>)
    requires t.Valid() && Settles(form)
    ensures NormalText(t, form, a) == NormalText(t, form, b)
            <==> Decomposed(t, a, form.Compat()) == Decomposed(t, b, form.Compat())
  {
    var x, y := Normalize(t, a, form).chars, Normalize(t, b, form).chars;
    CodePointsInjective(x, y);
    if form.Composing() {
      ComposedFormsDecide(t, a, b, form);
    }
  }

  lemma CodePointsInjective(x: seq<char>, y: seq<char>)
    ensures CodePoints(x) == CodePoints(y) <==> x == y
  {
    if CodePoints(x) == CodePoints(y) {
      assert |x| == |CodePoints(y)| == |y|;
      forall i | 0 <= i < |x| ensures x[i] == y[i] {
        assert x[i] as int == CodePoints(x)[i] == y[i] as int;
      }
    }
  }

  /**
   Equivalent texts have the same key, and with the identical level only equivalent texts have: canonical
   equivalence for NFD, NFC and FCC, compatibility equivalence for NFKD and NFKC.
   */
  lemma KeysDecideEquivalence(t: Tables, form: Form, c: Collator, o: Options, a: seq<char>, b: seq<char>)
    requires t.Valid() && Settles(form)
    ensures var same := Decomposed(t, a, form.Compat()) == Decomposed(t, b, form.Compat());
            && (same ==> TextKey(t, form, c, o, a) == TextKey(t, form, c, o, b))
            && (o.identical && TextKey(t, form, c, o, a) == TextKey(t, form, c, o, b) ==> same)
  {
    var x, y := NormalText(t, form, a), NormalText(t, form, b);
    SettledText(t, form, a, b);
    EqualKeys(o, Weigh(c, TextSteps(c, x), 0), x, Weigh(c, TextSteps(c, y), 0), y);
  }

  lemma CodePointsOrdered(t: Tables, c: Collator, s: seq<char>)
    requires SameClasses(t, c) && Ordered(t.ccc, s)
    ensures Ordered(c.combining, CodePoints(s))
  {
    var text := CodePoints(s);
    forall i | 0 < i < |text| ensures c.combining(text[i]) == 0 || c.combining(text[i - 1]) <= c.combining(text[i]) {
      assert c.combining(s[i] as nat) == t.ccc(s[i]) && c.combining(s[i - 1] as nat) == t.ccc(s[i - 1]);
    }
  }

  lemma NormalTextOrdered(t: Tables, form: Form, c: Collator, s: seq<char>)
    requires t.Valid() && WellOrdered(t, form, c)
    ensures var text := NormalText(t, form, s);
            LeftOut(c, text) == {} && Ordered(c.combining, BehindFirst(c, text))
  {
    NormalizeOrdered(t, s, form);
    CodePointsOrdered(t, c, Normalize(t, s, form).chars);
    NothingLeftOut(c, NormalText(t, form, s));
  }

  /**
   Rule S2.1 of UTS 10 for every step over a normalized text: no mark that a match absorbs is blocked. For
   versions 9 and 11 `BlockedMarks.RuleHoldsExact` has the condition.
   */
  lemma NormalTextUnblocked(t: Tables, form: Form, c: Collator, s: seq<char>)
    requires t.Valid() && MarksLed(t) && CompositesKeep(t) && SameClasses(t, c)
    requires !form.Unknown? && c.version != 9 && c.version != 11
    ensures var text := NormalText(t, form, s);
            AllUnblocked(c, text, {}, TextSteps(c, text))
  {
    NormalTextOrdered(t, form, c, s);
    EveryStepUnblocked(c, NormalText(t, form, s));
  }
}

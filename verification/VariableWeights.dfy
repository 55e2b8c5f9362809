/**
 What the options make of the weights of elements (`Collator::key`, crates/tex-biber/src/collation.rs;
 variable weighting is section 4 of UTS 10): which elements count, with which weight on which level, told
 of the elements as they stand in the text.
 */
module VariableWeights {
  import opened SortKeys

  // ----- Case and Kana -----

  predicate IsLower(w: nat) {
    2 <= w <= 6
  }

  predicate IsUpper(w: nat) {
    8 <= w <= 12
  }

  predicate IsHiragana(w: nat) {
    w == 0xd || w == 0xe
  }

  predicate IsKatakana(w: nat) {
    0xf <= w <= 0x13
  }

  /** With upper case first the two cases, in order among themselves, exchange their places, and two weights more. */
  lemma UpperFirstExact(a: nat, b: nat)
    ensures UpperFirst(UpperFirst(a)) == a
    ensures IsLower(a) <==> IsUpper(UpperFirst(a))
    ensures IsLower(a) && IsLower(b) && a < b ==> UpperFirst(a) < UpperFirst(b)
    ensures UpperFirst(0x1c) == 0x1d
    ensures !IsLower(a) && !IsUpper(a) && a != 0x1c && a != 0x1d ==> UpperFirst(a) == a
  {
  }

  /** With Katakana first its weights, in order, come before those of Hiragana, in the same range. */
  lemma KatakanaFirstExact(a: nat, b: nat)
    ensures IsKatakana(a) || IsHiragana(a) <==> 0xd <= KatakanaFirst(a) <= 0x13
    ensures IsKatakana(a) && IsHiragana(b) ==> KatakanaFirst(a) < KatakanaFirst(b)
    ensures (IsKatakana(a) && IsKatakana(b)) || (IsHiragana(a) && IsHiragana(b)) ==>
              (a < b <==> KatakanaFirst(a) < KatakanaFirst(b))
    ensures !IsKatakana(a) && !IsHiragana(a) ==> KatakanaFirst(a) == a
  {
  }

  // ----- Which elements count, and how -----

  predicate IsVariable(e: Element) {
    e.variable != 0
  }

  predicate Ignorable(e: Element) {
    e.variable == 0 && e.w1 == 0
  }

  /** Position `i` stands behind a variable element with nothing but variable and ignorable ones between. */
  ghost predicate BehindVariable(es: seq<Element>, i: nat)
    requires i <= |es|
  {
    exists j :: 0 <= j < i && IsVariable(es[j]) && OnlyBetween(es, j + 1, i)
  }

  predicate OnlyBetween(es: seq<Element>, from: nat, upto: nat)
    requires upto <= |es|
  {
    forall k :: from <= k < upto ==> IsVariable(es[k]) || Ignorable(es[k])
  }

  /** From version 9 on, ignorable elements behind a variable one do not count, unless variable ones are like others. */
  ghost predicate Counts(o: Options, es: seq<Element>, i: nat)
    requires i < |es|
  {
    o.variable == NonIgnorable || o.version < 9 || !Ignorable(es[i]) || !BehindVariable(es, i)
  }

  /** A variable element, where these are not like others. */
  predicate SetAside(o: Options, e: Element) {
    o.variable != NonIgnorable && IsVariable(e)
  }

  /** A secondary difference that does not count: that of an element without a primary weight. */
  predicate SecondaryOff(o: Options, e: Element) {
    o.ignoreSecondary && e.w1 == 0 && e.w2 > 0
  }

  function Third(o: Options, w: nat): nat {
    match (o.upperFirst, o.katakanaFirst)
    case (false, false) => w
    case (true, false) => UpperFirst(w)
    case (false, true) => KatakanaFirst(w)
    case (true, true) => if IsKatakana(w) || IsHiragana(w) then KatakanaFirst(w) else UpperFirst(w)
  }

  /** The fourth weight of an element that is not set aside, where variable elements are shifted. */
  function Beyond(version: nat, e: Element, off: bool): nat {
    var second, third := if off then 0 else e.w2, if off then 0 else e.w3;
    if e.w1 == 1 then 1
    else if second > 0 || third > 0 then 0xffff
    else if e.w1 > 0 && version < 36 then 0xffff
    else 0
  }

  function WeightOn(o: Options, e: Element, level: nat): nat
    requires level < 4
  {
    match level
    case 0 => if SetAside(o, e) then 0 else e.w1
    case 1 => if SetAside(o, e) || SecondaryOff(o, e) then 0 else e.w2
    case 2 => if SetAside(o, e) || SecondaryOff(o, e) then 0 else Third(o, e.w3)
    case _ =>
      match o.variable
      case Shifted => if IsVariable(e) then e.w1 else Beyond(o.version, e, SecondaryOff(o, e))
      case ShiftTrimmed => if IsVariable(e) then e.w1 else 0
      case _ => e.w4
  }

  function Nonzero(w: nat): seq<nat> {
    if w == 0 then [] else [w]
  }

  /** The weights on a level of the first `n` elements. */
  ghost function WeightsOf(o: Options, es: seq<Element>, level: nat, n: nat): seq<nat>
    requires level < 4 && n <= |es|
  {
    if n == 0 then []
    else WeightsOf(o, es, level, n - 1) + if Counts(o, es, n - 1) then Nonzero(WeightOn(o, es[n - 1], level)) else []
  }

  lemma ThirdIs(o: Options, w: nat)
    ensures Third(o, w)
            == var upper := if o.upperFirst then UpperFirst(w) else w;
               if o.katakanaFirst then KatakanaFirst(upper) else upper
  {
  }

  lemma WeightIs(o: Options, e: Element, level: nat)
    requires level < 4
    ensures Adjusted(o, WithoutSecondary(o, e)).Weight(level) == WeightOn(o, e, level)
  {
    ThirdIs(o, WithoutSecondary(o, e).w3);
    ThirdIs(o, 0);
  }

  lemma BehindNext(es: seq<Element>, i: nat)
    requires i < |es|
    ensures BehindVariable(es, i + 1) <==> IsVariable(es[i]) || (Ignorable(es[i]) && BehindVariable(es, i))
  {
    if IsVariable(es[i]) {
      assert OnlyBetween(es, i + 1, i + 1);
    }
    if Ignorable(es[i]) && BehindVariable(es, i) {
      var j :| 0 <= j < i && IsVariable(es[j]) && OnlyBetween(es, j + 1, i);
      assert OnlyBetween(es, j + 1, i + 1);
    }
    if BehindVariable(es, i + 1) && !IsVariable(es[i]) {
      var j :| 0 <= j < i + 1 && IsVariable(es[j]) && OnlyBetween(es, j + 1, i + 1);
      assert OnlyBetween(es, j + 1, i);
    }
  }

  lemma AfterIs(o: Options, es: seq<Element>, i: nat, after: bool)
    requires i < |es| && o.variable != NonIgnorable && (after <==> BehindVariable(es, i))
    ensures AfterVariable(o, after, WithoutSecondary(o, es[i])) <==> BehindVariable(es, i + 1)
    ensures Dropped(o, after, WithoutSecondary(o, es[i])) <==> !Counts(o, es, i)
  {
    BehindNext(es, i);
  }

  ghost predicate Follows(o: Options, es: seq<Element>, i: nat, after: bool)
    requires i <= |es|
  {
    o.variable == NonIgnorable || (after <==> BehindVariable(es, i))
  }

  lemma LevelStep(o: Options, es: seq<Element>, level: nat, i: nat, after: bool)
    requires level < 4 && i < |es| && level < o.level && Follows(o, es, i, after)
    ensures var after' := AfterVariable(o, after, WithoutSecondary(o, es[i]));
            && Follows(o, es, i + 1, after')
            && LevelWeights(o, es[i..], level, after)
               == (if Counts(o, es, i) then Nonzero(WeightOn(o, es[i], level)) else [])
                  + LevelWeights(o, es[i + 1..], level, after')
  {
    assert es[i..][1..] == es[i + 1..];
    WeightIs(o, es[i], level);
    if o.variable != NonIgnorable {
      AfterIs(o, es, i, after);
    }
  }

  lemma {:induction false} LevelFrom(o: Options, es: seq<Element>, level: nat, i: nat, after: bool)
    requires level < 4 && i <= |es| && level < o.level && Follows(o, es, i, after)
    ensures WeightsOf(o, es, level, i) + LevelWeights(o, es[i..], level, after) == WeightsOf(o, es, level, |es|)
    decreases |es| - i
  {
    if i < |es| {
      LevelStep(o, es, level, i, after);
      LevelFrom(o, es, level, i + 1, AfterVariable(o, after, WithoutSecondary(o, es[i])));
    }
  }

  lemma {:induction false} NoLevel(o: Options, es: seq<Element>, level: nat, after: bool)
    requires level < 4 && level >= o.level
    ensures LevelWeights(o, es, level, after) == []
    decreases |es|
  {
    if es != [] {
      NoLevel(o, es[1..], level, AfterVariable(o, after, WithoutSecondary(o, es[0])));
    }
  }

  /** The weights of a level are those of the elements that count, in order, without zeros. */
  lemma LevelExact(o: Options, es: seq<Element>, level: nat)
    requires level < 4
    ensures LevelWeights(o, es, level, false) == if level < o.level then WeightsOf(o, es, level, |es|) else []
  {
    if level < o.level {
      assert es[0..] == es;
      LevelFrom(o, es, level, 0, false);
    } else {
      NoLevel(o, es, level, false);
    }
  }

  // ----- Variable elements taken out -----

  /** The elements that count and are not variable. */
  ghost function Others(o: Options, es: seq<Element>, n: nat): seq<Element>
    requires n <= |es|
  {
    if n == 0 then []
    else Others(o, es, n - 1) + if Counts(o, es, n - 1) && !IsVariable(es[n - 1]) then [es[n - 1]] else []
  }

  function Plainly(o: Options): Options {
    o.(variable := NonIgnorable)
  }

  lemma {:induction false} WeightsSame(o: Options, a: seq<Element>, b: seq<Element>, level: nat, n: nat)
    requires level < 4 && n <= |a| && n <= |b| && a[..n] == b[..n] && o.variable == NonIgnorable
    ensures WeightsOf(o, a, level, n) == WeightsOf(o, b, level, n)
  {
    if n > 0 {
      assert a[..n - 1] == a[..n][..n - 1] && b[..n - 1] == b[..n][..n - 1];
      WeightsSame(o, a, b, level, n - 1);
      assert a[n - 1] == a[..n][n - 1] && b[n - 1] == b[..n][n - 1];
    }
  }

  lemma PlainlyMore(o: Options, before: seq<Element>, e: Element, level: nat)
    requires level < 3 && o.variable == NonIgnorable
    ensures WeightsOf(o, before + [e], level, |before| + 1)
            == WeightsOf(o, before, level, |before|) + Nonzero(WeightOn(o, e, level))
  {
    assert (before + [e])[..|before|] == before[..|before|];
    WeightsSame(o, before + [e], before, level, |before|);
  }

  lemma WeightPlainly(o: Options, e: Element, level: nat)
    requires level < 3 && o.variable != NonIgnorable
    ensures WeightOn(o, e, level) == if IsVariable(e) then 0 else WeightOn(Plainly(o), e, level)
  {
  }

  lemma {:induction false} TakenOut(o: Options, es: seq<Element>, level: nat, n: nat)
    requires level < 3 && n <= |es| && o.variable != NonIgnorable
    ensures WeightsOf(o, es, level, n) == WeightsOf(Plainly(o), Others(o, es, n), level, |Others(o, es, n)|)
  {
    if n > 0 {
      var before := Others(o, es, n - 1);
      TakenOut(o, es, level, n - 1);
      WeightPlainly(o, es[n - 1], level);
      if Counts(o, es, n - 1) && !IsVariable(es[n - 1]) {
        PlainlyMore(Plainly(o), before, es[n - 1], level);
      } else {
        assert Others(o, es, n) == before;
      }
    }
  }

  /**
   Where variable elements are not like others, the first three levels are those of the other elements
   alone, without the ignorable ones behind variable ones from version 9 on.
   */
  lemma VariableTakenOut(o: Options, es: seq<Element>, level: nat)
    requires level < 3 && o.variable != NonIgnorable
    ensures LevelWeights(o, es, level, false) == LevelWeights(Plainly(o), Others(o, es, |es|), level, false)
  {
    LevelExact(o, es, level);
    LevelExact(Plainly(o), Others(o, es, |es|), level);
    TakenOut(o, es, level, |es|);
  }

  /** What a variable element is makes no difference there. */
  lemma VariableExchanged(o: Options, a: seq<Element>, e: Element, f: Element, b: seq<Element>, level: nat)
    requires level < 3 && o.variable != NonIgnorable && IsVariable(e) && IsVariable(f)
    ensures LevelWeights(o, a + [e] + b, level, false) == LevelWeights(o, a + [f] + b, level, false)
  {
    var s, u := a + [e] + b, a + [f] + b;
    LevelExact(o, s, level);
    LevelExact(o, u, level);
    ExchangedWeights(o, s, u, |a|, level, |s|);
  }

  lemma ExchangedBehind(s: seq<Element>, u: seq<Element>, p: nat, i: nat)
    requires p < |s| == |u| && IsVariable(s[p]) && IsVariable(u[p]) && i <= |s|
    requires forall k :: 0 <= k < |s| && k != p ==> s[k] == u[k]
    ensures BehindVariable(s, i) ==> BehindVariable(u, i)
  {
    if j :| 0 <= j < i && IsVariable(s[j]) && OnlyBetween(s, j + 1, i) {
      assert IsVariable(u[j]) && OnlyBetween(u, j + 1, i);
    }
  }

  lemma ExchangedCounts(o: Options, s: seq<Element>, u: seq<Element>, p: nat, i: nat)
    requires p < |s| == |u| && u == s[p := u[p]] && IsVariable(s[p]) && IsVariable(u[p]) && i < |s|
    ensures Counts(o, s, i) <==> Counts(o, u, i)
  {
    ExchangedBehind(s, u, p, i);
    ExchangedBehind(u, s, p, i);
  }

  lemma {:induction false} ExchangedWeights(o: Options, s: seq<Element>, u: seq<Element>, p: nat, level: nat, n: nat)
    requires p < |s| == |u| && u == s[p := u[p]] && IsVariable(s[p]) && IsVariable(u[p])
    requires level < 3 && n <= |s| && o.variable != NonIgnorable
    ensures WeightsOf(o, s, level, n) == WeightsOf(o, u, level, n)
  {
    if n > 0 {
      ExchangedWeights(o, s, u, p, level, n - 1);
      ExchangedCounts(o, s, u, p, n - 1);
    }
  }

  // ----- The key -----

  /** A level as it is compared: backwards if so asked. */
  lemma LevelDirection(o: Options, es: seq<Element>, level: nat)
    requires level < 4
    ensures var w, r := LevelWeights(o, es, level, false), Level(o, es, level);
            |r| == |w| && forall i :: 0 <= i < |r| ==> r[i] == w[if o.backwards(level + 1) then |w| - 1 - i else i]
  {
  }

  /** Each code point of the identical level takes two numbers of 16 bits, the higher first. */
  lemma {:induction false} HalvesExact(text: seq<nat>, i: nat)
    requires i < |text|
    ensures |Halves(text)| == 2 * |text|
    ensures Halves(text)[2 * i] * 0x1_0000 + Halves(text)[2 * i + 1] == text[i] && Halves(text)[2 * i + 1] < 0x1_0000
    decreases |text|
  {
    var rest := Halves(text[1..]);
    assert Halves(text) == [text[0] / 0x1_0000, text[0] % 0x1_0000] + rest;
    if i > 0 {
      HalvesExact(text[1..], i - 1);
    } else if |text| > 1 {
      HalvesExact(text[1..], 0);
    } else {
      assert text[1..] == [];
    }
  }

  /** Zeros part the four levels; the identical level comes behind a zero, which version 26 has with four levels. */
  lemma KeyShape(o: Options, es: seq<Element>, text: seq<nat>)
    ensures var front := Level(o, es, 0) + [0] + Level(o, es, 1) + [0] + Level(o, es, 2) + [0] + Level(o, es, 3);
            && front <= Key(o, es, text)
            && var tail := Key(o, es, text)[|front|..];
               if o.identical then tail == [0] + Halves(text)
               else if o.level == 4 && o.version >= 26 then tail == [0]
               else tail == []
  {
  }
}

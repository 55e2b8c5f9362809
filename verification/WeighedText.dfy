/**
 The elements of a text told without the loop (`elements`, `hangul_type`, crates/tex-biber/src/collation.rs):
 one slice for each step, of what the tables hold for the text where the step consumes it, and a terminator
 where a Hangul syllable ends.
 */
module WeighedText {
  import opened Bytes
  import opened SortKeys
  import opened Contractions
  import opened CollationSteps
  import opened CollationElements

  // ----- Hangul -----

  /** What a code point is in a Hangul syllable; a whole syllable is what it ends with. */
  datatype Kind = Leading | Vowel | Trailing | NotHangul

  predicate IsSyllable(cp: nat, l: nat, v: nat, f: nat) {
    l < 19 && v < 21 && f < 28 && cp == 0xac00 + (l * 21 + v) * 28 + f
  }

  /** The kind of a code point by the blocks of Hangul Jamo and their extensions. */
  ghost function KindOf(cp: nat): Kind {
    if 0x1100 <= cp < 0x1160 || 0xa960 <= cp < 0xa97d then Leading
    else if 0x1160 <= cp < 0x11a8 || 0xd7b0 <= cp < 0xd7c7 then Vowel
    else if 0x11a8 <= cp < 0x1200 || 0xd7cb <= cp < 0xd7fc then Trailing
    else if exists l: nat, v: nat :: IsSyllable(cp, l, v, 0) then Vowel
    else if exists l: nat, v: nat, f: nat :: IsSyllable(cp, l, v, f) then Trailing
    else NotHangul
  }

  predicate Continues(a: Kind, b: Kind) {
    match a
    case Leading => b == Leading || b == Vowel
    case Vowel => b == Vowel || b == Trailing
    case Trailing => b == Trailing
    case NotHangul => true
  }

  function TypeNumber(k: Kind): nat {
    match k
    case Leading => 1
    case Vowel => 2
    case Trailing => 3
    case NotHangul => 0
  }

  lemma SyllableNumbers(cp: nat) returns (l: nat, v: nat, f: nat)
    requires 0xac00 <= cp <= 0xd7a3
    ensures IsSyllable(cp, l, v, f)
  {
    var i := cp - 0xac00;
    l, v, f := i / 588, i % 588 / 28, i % 28;
    assert i == 588 * l + i % 588 && i % 588 == 28 * v + i % 588 % 28;
    assert i % 588 % 28 == f;
  }

  lemma SyllableParts(cp: nat, l: nat, v: nat, f: nat)
    requires IsSyllable(cp, l, v, f)
    ensures 0xac00 <= cp <= 0xd7a3 && (cp - 0xac00) % 28 == f
    ensures (cp - 0xac00) / 588 == l && (cp - 0xac00) % 588 / 28 == v
  {
    var i := cp - 0xac00;
    assert i == l * 588 + (v * 28 + f) && 0 <= v * 28 + f < 588;
    assert i / 588 == l && i % 588 == v * 28 + f;
  }

  lemma HangulTypeExact(cp: nat)
    ensures HangulType(cp) == TypeNumber(KindOf(cp))
  {
    if 0xac00 <= cp <= 0xd7a3 {
      var l, v, f := SyllableNumbers(cp);
      SyllableParts(cp, l, v, f);
      forall l: nat, v: nat | IsSyllable(cp, l, v, 0) ensures f == 0 {
        SyllableParts(cp, l, v, 0);
      }
      if f == 0 {
        assert IsSyllable(cp, l, v, 0);
      }
    } else {
      forall l: nat, v: nat, f: nat ensures !IsSyllable(cp, l, v, f) {
        if IsSyllable(cp, l, v, f) {
          SyllableParts(cp, l, v, f);
        }
      }
    }
  }

  /** A terminator goes between two code points where the second does not continue the syllable of the first. */
  lemma EndsExact(a: Kind, b: Kind)
    ensures Ends(TypeNumber(a), TypeNumber(b)) <==> !Continues(a, b)
  {
  }

  // ----- Slices -----

  /** The kind of the code point with which the last match before step `k` starts. */
  ghost function KindBefore(text: seq<nat>, steps: seq<Step>, k: nat): Kind
    requires k <= |steps|
  {
    if k == 0 then NotHangul
    else if steps[k - 1].Matched? && steps[k - 1].start < |text| then KindOf(text[steps[k - 1].start])
    else KindBefore(text, steps, k - 1)
  }

  /** The elements of a lone code point: its row's, or implicit ones. */
  function Lone(c: Collator, cp: nat): seq<Element> {
    if Find(c, [cp]).Some? then Find(c, [cp]).value else c.implicit(cp)
  }

  /** What a match is worth: its row's elements; else those of the jamo of a syllable; else implicit ones. */
  ghost predicate Worth(c: Collator, s: seq<nat>, cp: nat, weights: seq<Element>) {
    if Find(c, s).Some? then weights == Find(c, s).value
    else if !c.implicitHangul && exists l: nat, v: nat, f: nat :: IsSyllable(cp, l, v, f) then
      forall l: nat, v: nat, f: nat :: IsSyllable(cp, l, v, f) ==>
        weights == Lone(c, 0x1100 + l) + Lone(c, 0x1161 + v) + if f > 0 then Lone(c, 0x11a7 + f) else []
    else weights == c.implicit(cp)
  }

  ghost predicate Terminates(c: Collator, ends: bool, mark: seq<Element>) {
    mark == if ends && c.terminator > 0 then [Element(c.terminator, 0, 0, 0, 0)] else []
  }

  /**
   What step `k` adds: nothing for a noncharacter passed over; for a match a terminator if it does not
   continue the syllable before it, and what the text that it consumes is worth.
   */
  ghost predicate Slice(c: Collator, text: seq<nat>, steps: seq<Step>, k: nat, cut: seq<Element>)
    requires k < |steps|
  {
    match steps[k]
    case Passed(p) => p < |text| && Skipped(c, text[p]) && cut == []
    case Matched(start, _, _, contiguous, absorbed, _) =>
      && start < |text| && contiguous != [] && contiguous[0] == start && !Skipped(c, text[start])
      && exists mark, weights :: cut == mark + weights
           && Terminates(c, !Continues(KindBefore(text, steps, k), KindOf(text[start])), mark)
           && Worth(c, Taken(text, contiguous + absorbed), text[start], weights)
  }

  /** The last two code points of each plane and 32 more, up to version 20. */
  predicate Skipped(c: Collator, cp: nat) {
    c.version <= 20 && (cp % 0x1_0000 in {0xfffe, 0xffff} || (0xfdd0 <= cp < 0xfdf0))
  }

  // ----- The steps -----

  predicate StepStands(c: Collator, text: seq<nat>, s: Step) {
    match s
    case Passed(p) => p < |text| && Skipped(c, text[p])
    case Matched(start, _, cp, contiguous, _, _) =>
      start < |text| && cp == text[start] && contiguous != [] && contiguous[0] == start && !Skipped(c, text[start])
  }

  lemma {:induction false} PositionsFirst(chars: seq<nat>, from: nat, upto: nat)
    requires from < upto <= |chars| && chars[from] != BLANK
    ensures Positions(chars, from, upto) != [] && Positions(chars, from, upto)[0] == from
    decreases upto
  {
    if from + 1 < upto {
      PositionsFirst(chars, from, upto - 1);
    } else {
      assert Positions(chars, from, from) == [];
    }
  }

  lemma {:induction false} StepsStand(c: Collator, text: seq<nat>, chars: seq<nat>, i: nat)
    requires Partly(text, chars)
    ensures forall s :: s in Steps(c, chars, i) ==> StepStands(c, text, s)
    decreases |chars| - i
  {
    if i < |chars| {
      if chars[i] == BLANK || Passes(c, chars[i]) {
        StepsStand(c, text, chars, i + 1);
      } else {
        var m := MatchAt(c, chars, i);
        PositionsFirst(chars, i, m.end);
        StepsStand(c, text, Blank(chars, m.absorbed), m.end);
      }
    }
  }

  // ----- The theorem -----

  lemma WorthIs(c: Collator, best: seq<nat>, cp: nat)
    ensures Worth(c, best, cp, ElementsOf(c, best, cp))
  {
    if Find(c, best).None? {
      if l: nat, v: nat, f: nat :| IsSyllable(cp, l, v, f) {
        SyllableParts(cp, l, v, f);
        forall l': nat, v': nat, f': nat | IsSyllable(cp, l', v', f') ensures l' == l && v' == v && f' == f {
          SyllableParts(cp, l', v', f');
        }
        JamoWorth(c, cp, l, v, f);
      } else if 0xac00 <= cp <= 0xd7a3 {
        var l, v, f := SyllableNumbers(cp);
      }
    }
  }

  lemma JamoWorth(c: Collator, cp: nat, l: nat, v: nat, f: nat)
    requires IsSyllable(cp, l, v, f) && HANGUL_FIRST <= cp <= HANGUL_LAST
    ensures JamoElements(c, Jamo(cp))
            == Lone(c, 0x1100 + l) + Lone(c, 0x1161 + v) + if f > 0 then Lone(c, 0x11a7 + f) else []
  {
    SyllableParts(cp, l, v, f);
    var jamo := Jamo(cp);
    assert jamo == [0x1100 + l, 0x1161 + v] + if f > 0 then [0x11a7 + f] else [];
    assert JamoElements(c, jamo) == FoundOrImplicit(c, jamo[0]) + JamoElements(c, jamo[1..]);
    assert JamoElements(c, jamo[1..]) == FoundOrImplicit(c, jamo[1]) + JamoElements(c, jamo[2..]) by {
      assert jamo[1..][1..] == jamo[2..];
    }
    if f > 0 {
      assert jamo[2..][1..] == [];
      assert JamoElements(c, jamo[2..]) == FoundOrImplicit(c, jamo[2]) + JamoElements(c, jamo[2..][1..]);
    }
  }

  lemma OneSlice(c: Collator, text: seq<nat>, steps: seq<Step>, k: nat) returns (cut: seq<Element>)
    requires k < |steps| && StepStands(c, text, steps[k]) && FromText(text, steps[k])
    ensures Slice(c, text, steps, k, cut)
    ensures Weigh(c, steps[k..], TypeNumber(KindBefore(text, steps, k)))
            == cut + Weigh(c, steps[k + 1..], TypeNumber(KindBefore(text, steps, k + 1)))
  {
    var s, before := steps[k], KindBefore(text, steps, k);
    assert steps[k..] == [s] + steps[k + 1..];
    match s
    case Passed(p) =>
      cut := [];
      WeighPassed(c, p, steps[k + 1..], TypeNumber(before));
    case Matched(start, _, cp, contiguous, absorbed, best) =>
      var kind := KindOf(cp);
      HangulTypeExact(cp);
      EndsExact(before, kind);
      var mark := Terminator(c, !Continues(before, kind));
      WorthIs(c, best, cp);
      WeighMatched(c, s, steps[k + 1..], TypeNumber(before));
      cut := mark + ElementsOf(c, best, cp);
      assert Terminates(c, !Continues(before, kind), mark);
  }

  ghost predicate Sliced(c: Collator, text: seq<nat>, steps: seq<Step>, cuts: seq<seq<Element>>) {
    |cuts| <= |steps| && forall k :: 0 <= k < |cuts| ==> Slice(c, text, steps, k, cuts[k])
  }

  ghost predicate AllStand(c: Collator, text: seq<nat>, steps: seq<Step>) {
    forall k :: 0 <= k < |steps| ==> StepStands(c, text, steps[k]) && FromText(text, steps[k])
  }

  lemma MoreCuts(cuts: seq<seq<Element>>, cut: seq<Element>, rest: seq<Element>)
    ensures Flatten(cuts) + (cut + rest) == Flatten(cuts + [cut]) + rest
  {
    FlattenAppend(cuts, [cut]);
    FlattenOne(cut);
  }

  lemma {:induction false} Slices(c: Collator, text: seq<nat>, steps: seq<Step>, k: nat)
    returns (cuts: seq<seq<Element>>)
    requires k <= |steps| && AllStand(c, text, steps)
    ensures |cuts| == k && Sliced(c, text, steps, cuts)
    ensures Weigh(c, steps, 0) == Flatten(cuts) + Weigh(c, steps[k..], TypeNumber(KindBefore(text, steps, k)))
  {
    if k == 0 {
      cuts := [];
      assert steps[0..] == steps;
    } else {
      var before := Slices(c, text, steps, k - 1);
      var cut := OneSlice(c, text, steps, k - 1);
      MoreCuts(before, cut, Weigh(c, steps[k..], TypeNumber(KindBefore(text, steps, k))));
      cuts := before + [cut];
    }
  }

  lemma LastSlice(c: Collator, k: Kind) returns (last: seq<Element>)
    ensures Weigh(c, [], TypeNumber(k)) == last && Terminates(c, k != NotHangul, last)
  {
    last := Terminator(c, k != NotHangul);
  }

  lemma TextStands(c: Collator, text: seq<nat>)
    requires IsText(text)
    ensures AllStand(c, text, TextSteps(c, text))
  {
    StepsStand(c, text, Prepared(c, text), 0);
    StepsFromText(c, text, Prepared(c, text), 0);
  }

  /**
   The elements of a text are cut into one slice for each step, and a last terminator if the text ends within
   Hangul.
   */
  lemma ElementsCut(c: Collator, text: seq<nat>) returns (cuts: seq<seq<Element>>, last: seq<Element>)
    requires IsText(text)
    ensures var steps := TextSteps(c, text);
            && Weigh(c, steps, 0) == Flatten(cuts) + last && |cuts| == |steps| && Sliced(c, text, steps, cuts)
            && Terminates(c, KindBefore(text, steps, |steps|) != NotHangul, last)
  {
    var steps := TextSteps(c, text);
    TextStands(c, text);
    cuts := Slices(c, text, steps, |steps|);
    last := LastSlice(c, KindBefore(text, steps, |steps|));
  }

  /** A code point is consumed once, unless in versions 9 and 11 its row holds no elements. */
  lemma LeftOutExact(c: Collator, text: seq<nat>, q: nat)
    requires IsText(text) && q < |text|
    ensures Times(TextSteps(c, text), q)
         == if c.version in {9, 11} && Find(c, [text[q]]).Some? && Find(c, [text[q]]).value == [] then 0 else 1
  {
    EachConsumedOnce(c, text, q);
  }

  // ----- A text with a row of its own -----

  lemma NonePrepared(c: Collator, text: seq<nat>)
    requires c.version != 9 && c.version != 11
    ensures Prepared(c, text) == text
  {
  }

  lemma WholeAlive(text: seq<nat>)
    requires IsText(text)
    ensures Alive(text, 0, |text|) == text
  {
    AliveWithin(text, 0, |text|);
    assert text[0..|text|] == text;
  }

  lemma WholeMatched(c: Collator, text: seq<nat>)
    requires IsText(text) && text != [] && Alive(text, 0, |text|) == text && Find(c, text).Some?
    ensures MatchAt(c, text, 0).end == |text| && MatchAt(c, text, 0).absorbed == [] && MatchAt(c, text, 0).best == text
  {
    ContiguousEndLongest(c, text, 0, |text|);
    assert MatchEnds(c, text, 0, |text|);
  }

  /** A text for which there is a row has the elements of the row, however long it is. */
  lemma RowElements(c: Collator, text: seq<nat>)
    requires IsText(text) && text != [] && c.version > 20 && c.terminator == 0 && Find(c, text).Some?
    ensures Weigh(c, TextSteps(c, text), 0) == Find(c, text).value
  {
    NonePrepared(c, text);
    WholeAlive(text);
    WholeMatched(c, text);
    var m := MatchAt(c, text, 0);
    var s := StepOf(text, m);
    assert Blank(text, []) == text;
    assert Steps(c, text, |text|) == [];
    assert TextSteps(c, text) == [s] + [];
    WeighMatched(c, s, [], 0);
  }
}

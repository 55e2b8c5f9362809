/**
 The elements that the steps of the loop give, and the loop itself (`elements`,
 crates/tex-biber/src/collation.rs).
 */
module CollationElements {
  import opened Wrappers
  import opened CanonicalOrder
  import opened SortKeys
  import opened Contractions
  import opened CollationSteps

  // ----- Hangul and weights -----

  const HANGUL_FIRST := 0xac00

  const HANGUL_LAST := 0xd7a3

  /** 1 to 3 for leading, vowel and trailing jamo, by what a syllable ends with; 0 for the rest. */
  function HangulType(cp: nat): nat {
    if 0x1100 <= cp <= 0x115f || 0xa960 <= cp <= 0xa97c then 1
    else if 0x1160 <= cp <= 0x11a7 || 0xd7b0 <= cp <= 0xd7c6 then 2
    else if 0x11a8 <= cp <= 0x11ff || 0xd7cb <= cp <= 0xd7fb then 3
    else if HANGUL_FIRST <= cp <= HANGUL_LAST then if (cp - HANGUL_FIRST) % 28 == 0 then 2 else 3
    else 0
  }

  /** A syllable ends between two code points of these types. */
  predicate Ends(previous: nat, next: nat) {
    previous != 0
    && (next == 0 || (previous == 1 && next == 3) || (previous == 2 && next == 1) || (previous == 3 && 1 <= next <= 2))
  }

  function Terminator(c: Collator, ends: bool): seq<Element> {
    if c.terminator != 0 && ends then [Element(c.terminator, 0, 0, 0, 0)] else []
  }

  function Jamo(cp: nat): seq<nat>
    requires HANGUL_FIRST <= cp <= HANGUL_LAST
  {
    var index := cp - HANGUL_FIRST;
    [0x1100 + index / 588, 0x1161 + index % 588 / 28] + if index % 28 != 0 then [0x11a7 + index % 28] else []
  }

  function FoundOrImplicit(c: Collator, cp: nat): seq<Element> {
    match Find(c, [cp])
    case Some(elements) => elements
    case None => c.implicit(cp)
  }

  function JamoElements(c: Collator, jamo: seq<nat>): seq<Element> {
    if jamo == [] then [] else FoundOrImplicit(c, jamo[0]) + JamoElements(c, jamo[1..])
  }

  /** The elements of what a step matched; a lone code point always has some. */
  function ElementsOf(c: Collator, best: seq<nat>, cp: nat): seq<Element> {
    match Find(c, best)
    case Some(elements) => elements
    case None =>
      if !c.implicitHangul && HANGUL_FIRST <= cp <= HANGUL_LAST then JamoElements(c, Jamo(cp)) else c.implicit(cp)
  }

  /** The elements of steps, with terminators between Hangul syllables. */
  function Weigh(c: Collator, steps: seq<Step>, previous: nat): seq<Element> {
    if steps == [] then Terminator(c, previous != 0)
    else
      match steps[0]
      case Passed(_) => Weigh(c, steps[1..], previous)
      case Matched(_, _, cp, _, _, best) =>
        Terminator(c, Ends(previous, HangulType(cp))) + ElementsOf(c, best, cp)
        + Weigh(c, steps[1..], HangulType(cp))
  }

  method LeaveOut(c: Collator, text: seq<nat>) returns (chars: seq<nat>)
    requires c.Valid()
    ensures chars == Prepared(c, text)
  {
    chars := text;
    if c.version == 9 || c.version == 11 {
      for n := 0 to |text|
        invariant |chars| == |text|
        invariant forall q :: 0 <= q < |text| ==> chars[q] == if q < n && Ignorable(c, text[q]) then BLANK else text[q]
      {
        var found := FindElements(c, [chars[n]]);
        if found == Some([]) {
          chars := chars[n := BLANK];
        }
      }
    }
  }

  method BlankAll(chars: seq<nat>, ps: seq<nat>) returns (r: seq<nat>)
    requires forall k :: 0 <= k < |ps| ==> ps[k] < |chars|
    ensures r == Blank(chars, ps)
  {
    r := chars;
    for n := 0 to |ps|
      invariant |r| == |chars|
      invariant forall q :: 0 <= q < |chars| ==> r[q] == if q in ps[..n] then BLANK else chars[q]
    {
      r := r[ps[n] := BLANK];
      assert ps[..n + 1] == ps[..n] + [ps[n]];
    }
    assert ps[..|ps|] == ps;
  }

  method FindMatch(c: Collator, chars: seq<nat>, i: nat) returns (best: seq<nat>, end: nat, absorbed: seq<nat>)
    requires c.Valid() && i < |chars| && chars[i] != BLANK
    ensures Match(i, end, absorbed, best) == MatchAt(c, chars, i)
  {
    var max := FindCutoff(c, chars[i]);
    best, end := LongestMatch(c, chars, i, max);
    absorbed := [];
    if max > 1 && c.discontiguous {
      best, absorbed := AbsorbMarks(c, chars, end, best);
    }
  }

  method FindOrImplicit(c: Collator, cp: nat) returns (elements: seq<Element>)
    requires c.Valid()
    ensures elements == FoundOrImplicit(c, cp)
  {
    var found := FindElements(c, [cp]);
    match found
    case Some(w) => elements := w;
    case None => elements := c.implicit(cp);
  }

  lemma JamoStep(c: Collator, jamo: seq<nat>, n: nat, out: seq<Element>)
    requires n < |jamo|
    ensures out + JamoElements(c, jamo[n..]) == out + FoundOrImplicit(c, jamo[n]) + JamoElements(c, jamo[n + 1..])
  {
    assert jamo[n..][1..] == jamo[n + 1..];
  }

  method WeighMatch(c: Collator, best: seq<nat>, cp: nat) returns (elements: seq<Element>)
    requires c.Valid()
    ensures elements == ElementsOf(c, best, cp)
  {
    var found := FindElements(c, best);
    match found {
      case Some(w) => elements := w;
      case None =>
        if !c.implicitHangul && HANGUL_FIRST <= cp <= HANGUL_LAST {
          var jamo := Jamo(cp);
          elements := [];
          for n := 0 to |jamo|
            invariant elements + JamoElements(c, jamo[n..]) == JamoElements(c, jamo)
          {
            var more := FindOrImplicit(c, jamo[n]);
            JamoStep(c, jamo, n, elements);
            elements := elements + more;
          }
        } else {
          elements := c.implicit(cp);
        }
    }
  }

  lemma Prefixed<T>(out: seq<T>, a: seq<T>, b: seq<T>, rest: seq<T>)
    ensures out + (a + b + rest) == out + a + b + rest
  {
  }

  lemma WeighMatched(c: Collator, s: Step, rest: seq<Step>, previous: nat)
    requires s.Matched?
    ensures Weigh(c, [s] + rest, previous)
            == Terminator(c, Ends(previous, HangulType(s.cp))) + ElementsOf(c, s.best, s.cp)
               + Weigh(c, rest, HangulType(s.cp))
  {
    assert ([s] + rest)[1..] == rest;
  }

  lemma WeighPassed(c: Collator, p: nat, rest: seq<Step>, previous: nat)
    ensures Weigh(c, [Passed(p)] + rest, previous) == Weigh(c, rest, previous)
  {
    assert ([Passed(p)] + rest)[1..] == rest;
  }

  /** The steps taken so far and those to come are the steps of the text, and so are their elements. */
  ghost predicate Underway(
    c: Collator, text: seq<nat>, steps: seq<Step>, out: seq<Element>, chars: seq<nat>, i: nat, previous: nat)
  {
    && steps + Steps(c, chars, i) == TextSteps(c, text)
    && out + Weigh(c, Steps(c, chars, i), previous) == Weigh(c, TextSteps(c, text), 0)
  }

  lemma PassOver(
    c: Collator, text: seq<nat>, steps: seq<Step>, out: seq<Element>, chars: seq<nat>, i: nat, previous: nat)
    requires Underway(c, text, steps, out, chars, i, previous)
    requires i < |chars| && chars[i] != BLANK && Passes(c, chars[i])
    ensures Underway(c, text, steps + [Passed(i)], out, chars, i + 1, previous)
  {
    var rest := Steps(c, chars, i + 1);
    WeighPassed(c, i, rest, previous);
    assert steps + ([Passed(i)] + rest) == steps + [Passed(i)] + rest;
  }

  lemma TakeMatch(
    c: Collator, text: seq<nat>, steps: seq<Step>, out: seq<Element>, chars: seq<nat>, i: nat, previous: nat)
    requires Underway(c, text, steps, out, chars, i, previous)
    requires i < |chars| && chars[i] != BLANK && !Passes(c, chars[i])
    ensures var m, hangul := MatchAt(c, chars, i), HangulType(chars[i]);
            Underway(c, text, steps + [StepOf(chars, m)],
              out + Terminator(c, Ends(previous, hangul)) + ElementsOf(c, m.best, chars[i]),
              Blank(chars, m.absorbed), m.end, hangul)
  {
    var m, hangul := MatchAt(c, chars, i), HangulType(chars[i]);
    var s, rest := StepOf(chars, m), Steps(c, Blank(chars, m.absorbed), m.end);
    WeighMatched(c, s, rest, previous);
    Prefixed(out, Terminator(c, Ends(previous, hangul)), ElementsOf(c, m.best, chars[i]), Weigh(c, rest, hangul));
    assert steps + ([s] + rest) == steps + [s] + rest;
  }

  /**
   The elements of a text, and the steps that gave them. Each code point is consumed once by the steps,
   but for those left out, and each match looks up the text where it consumes it. If what is left behind
   the first match's start is in canonical order, no step absorbs a blocked mark.
   */
  method Elements(c: Collator, text: seq<nat>) returns (out: seq<Element>, ghost steps: seq<Step>)
    requires c.Valid() && IsText(text)
    ensures out == Weigh(c, TextSteps(c, text), 0)
    ensures steps == TextSteps(c, text)
    ensures forall q: nat :: Times(steps, q) == TextDue(c, text, q)
    ensures forall s :: s in steps ==> FromText(text, s)
    ensures Ordered(c.combining, BehindFirst(c, text)) ==> EachUnblocked(c, text, steps)
  {
    var chars := LeaveOut(c, text);
    out, steps := [], [];
    var i: nat, previous: nat := 0, 0;
    while i < |chars|
      invariant Underway(c, text, steps, out, chars, i, previous)
      decreases |chars| - i
    {
      if chars[i] == BLANK {
        i := i + 1;
      } else if Passes(c, chars[i]) {
        PassOver(c, text, steps, out, chars, i, previous);
        steps := steps + [Passed(i)];
        i := i + 1;
      } else {
        var hangul := HangulType(chars[i]);
        var ended := Terminator(c, Ends(previous, hangul));
        MatchInRange(c, chars, i);
        var best, end, absorbed := FindMatch(c, chars, i);
        var elements := WeighMatch(c, best, chars[i]);
        TakeMatch(c, text, steps, out, chars, i, previous);
        steps := steps + [Matched(i, end, chars[i], Positions(chars, i, end), absorbed, best)];
        out := out + ended + elements;
        chars := BlankAll(chars, absorbed);
        i, previous := end, hangul;
      }
    }
    out := out + Terminator(c, previous != 0);
    assert steps + [] == steps;
    forall q: nat ensures Times(steps, q) == TextDue(c, text, q) {
      EachConsumedOnce(c, text, q);
    }
    StepsFromText(c, text, Prepared(c, text), 0);
    if Ordered(c.combining, BehindFirst(c, text)) {
      EveryStepUnblocked(c, text);
      AllEachUnblocked(c, text, steps);
    }
  }

  lemma MatchInRange(c: Collator, chars: seq<nat>, i: nat)
    requires i < |chars|
    ensures var ps := MatchAt(c, chars, i).absorbed; forall k :: 0 <= k < |ps| ==> ps[k] < |chars|
  {
    var m := MatchAt(c, chars, i);
    MatchTakes(c, chars, i);
    forall k | 0 <= k < |m.absorbed| ensures m.absorbed[k] < |chars| {
      RisingOnce(chars, m.end, m.absorbed, m.absorbed[k]);
    }
  }
}

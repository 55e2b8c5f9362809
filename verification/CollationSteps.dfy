/**
 The steps of the loop of `elements` (crates/tex-biber/src/collation.rs): matches are taken from the
 front, marks are absorbed from behind them, and every code point is consumed once.

 One trace, `Steps`, is what the loop does; what is consumed and which elements come out are read off it.
 */
module CollationSteps {
  import opened Wrappers
  import opened CanonicalOrder
  import opened Contractions

  // ----- Positions -----

  /** The positions of `chars[from..upto]` not yet consumed. */
  function Positions(chars: seq<nat>, from: nat, upto: nat): seq<nat>
    requires upto <= |chars|
    decreases upto
  {
    if upto <= from then []
    else if chars[upto - 1] == BLANK then Positions(chars, from, upto - 1)
    else Positions(chars, from, upto - 1) + [upto - 1]
  }

  /** The code points at positions. */
  function Taken(chars: seq<nat>, ps: seq<nat>): seq<nat> {
    if ps == [] then [] else (if ps[0] < |chars| then [chars[ps[0]]] else []) + Taken(chars, ps[1..])
  }

  /** `chars` with the positions consumed. */
  function Blank(chars: seq<nat>, ps: seq<nat>): (r: seq<nat>)
    ensures |r| == |chars|
    ensures forall q :: 0 <= q < |chars| ==> r[q] == if q in ps then BLANK else chars[q]
  {
    seq(|chars|, q requires 0 <= q < |chars| => if q in ps then BLANK else chars[q])
  }

  /** Positions from `from` on, in order, none consumed. */
  predicate Rising(chars: seq<nat>, from: nat, ps: seq<nat>)
    decreases |ps|
  {
    ps == [] || (from <= ps[0] < |chars| && chars[ps[0]] != BLANK && Rising(chars, ps[0] + 1, ps[1..]))
  }

  /** How often a position of `chars[from..upto]` is to be consumed. */
  function Due(chars: seq<nat>, from: nat, upto: nat, q: nat): nat {
    if from <= q < upto && q < |chars| && chars[q] != BLANK then 1 else 0
  }

  lemma OneMore(ps: seq<nat>, p: nat, q: nat, due: nat)
    requires multiset(ps)[q] == due
    ensures multiset(ps + [p])[q] == due + if p == q then 1 else 0
  {
    assert multiset(ps + [p]) == multiset(ps) + multiset{p};
  }

  lemma DueNext(chars: seq<nat>, from: nat, upto: nat, q: nat)
    requires from < upto <= |chars|
    ensures Due(chars, from, upto, q)
            == Due(chars, from, upto - 1, q) + if chars[upto - 1] != BLANK && upto - 1 == q then 1 else 0
  {
  }

  lemma {:induction false} PositionsDue(chars: seq<nat>, from: nat, upto: nat, q: nat)
    requires upto <= |chars|
    ensures multiset(Positions(chars, from, upto))[q] == Due(chars, from, upto, q)
    decreases upto
  {
    if from < upto {
      PositionsDue(chars, from, upto - 1, q);
      DueNext(chars, from, upto, q);
      if chars[upto - 1] != BLANK {
        OneMore(Positions(chars, from, upto - 1), upto - 1, q, Due(chars, from, upto - 1, q));
      }
    } else {
      assert Positions(chars, from, upto) == [];
    }
  }

  lemma {:induction false} RisingOnce(chars: seq<nat>, from: nat, ps: seq<nat>, q: nat)
    requires Rising(chars, from, ps)
    ensures multiset(ps)[q] == if q in ps then 1 else 0
    ensures q in ps ==> from <= q < |chars| && chars[q] != BLANK
    decreases |ps|
  {
    if ps != [] {
      RisingOnce(chars, ps[0] + 1, ps[1..], q);
      assert ps == [ps[0]] + ps[1..];
    }
  }

  lemma {:induction false} RisingLater(chars: seq<nat>, from: nat, later: nat, ps: seq<nat>)
    requires Rising(chars, later, ps) && from <= later
    ensures Rising(chars, from, ps)
  {
  }

  lemma {:induction false} TakenAppend(chars: seq<nat>, a: seq<nat>, b: seq<nat>)
    ensures Taken(chars, a + b) == Taken(chars, a) + Taken(chars, b)
    decreases |a|
  {
    if a == [] {
      assert a + b == b;
    } else {
      assert (a + b)[1..] == a[1..] + b;
      TakenAppend(chars, a[1..], b);
    }
  }

  lemma TakenOne(chars: seq<nat>, p: nat)
    requires p < |chars|
    ensures Taken(chars, [p]) == [chars[p]]
  {
    assert [p][1..] == [];
    assert Taken(chars, []) == [];
  }

  lemma {:induction false} AliveTaken(chars: seq<nat>, from: nat, upto: nat)
    requires upto <= |chars|
    ensures Alive(chars, from, upto) == Taken(chars, Positions(chars, from, upto))
    decreases upto
  {
    if from < upto {
      AliveTaken(chars, from, upto - 1);
      var before := Positions(chars, from, upto - 1);
      if chars[upto - 1] == BLANK {
        assert Positions(chars, from, upto) == before;
      } else {
        assert Positions(chars, from, upto) == before + [upto - 1];
        TakenAppend(chars, before, [upto - 1]);
        TakenOne(chars, upto - 1);
      }
    }
  }

  // ----- Absorbed marks -----

  /** Absorbed marks come in order from behind, and join the match in that order. */
  lemma {:induction false} AbsorbTakes(c: Collator, chars: seq<nat>, long: bool, p: nat, best: seq<nat>, previous: nat)
    ensures var r := Absorb(c, chars, long, p, best, previous);
            Rising(chars, p, r.positions) && r.best == best + Taken(chars, r.positions)
    decreases |chars| - p
  {
    var r := Absorb(c, chars, long, p, best, previous);
    if p < |chars| {
      if chars[p] == BLANK {
        AbsorbTakes(c, chars, long, p + 1, best, previous);
        RisingLater(chars, p, p + 1, r.positions);
      } else if c.combining(chars[p]) != 0 {
        if c.combining(chars[p]) != previous && Accepts(c, long, best + [chars[p]]) {
          AbsorbTakes(c, chars, long, p + 1, best + [chars[p]], previous);
          assert r.positions[1..] == Absorb(c, chars, long, p + 1, best + [chars[p]], previous).positions;
        } else {
          AbsorbTakes(c, chars, long, p + 1, best, c.combining(chars[p]));
          RisingLater(chars, p, p + 1, r.positions);
        }
      }
    }
  }

  /** The marks from `p` to the next starter are in canonical order, none of a class below `least`. */
  predicate MarksOrdered(c: Collator, chars: seq<nat>, p: nat, least: nat)
    decreases |chars| - p
  {
    if p >= |chars| then true
    else if chars[p] == BLANK then MarksOrdered(c, chars, p + 1, least)
    else if c.combining(chars[p]) == 0 then true
    else least <= c.combining(chars[p]) && MarksOrdered(c, chars, p + 1, c.combining(chars[p]))
  }

  lemma {:induction false} MarksStayOrdered(c: Collator, chars: seq<nat>, p: nat, least: nat, less: nat)
    requires MarksOrdered(c, chars, p, least) && less <= least
    ensures MarksOrdered(c, chars, p, less)
    decreases |chars| - p
  {
    if p < |chars| && chars[p] == BLANK {
      MarksStayOrdered(c, chars, p + 1, least, less);
    }
  }

  /** `a` is absorbed over marks of smaller classes only: no mark passed over blocks it. */
  ghost predicate Unblocked(c: Collator, chars: seq<nat>, ps: seq<nat>, p: nat, a: nat) {
    a < |chars| && forall q :: p <= q < a && q !in ps && chars[q] != BLANK ==>
                         0 < c.combining(chars[q]) < c.combining(chars[a])
  }

  /** Every absorbed mark is unblocked, and of a class above `previous`. */
  ghost predicate NoneBlocked(c: Collator, chars: seq<nat>, ps: seq<nat>, p: nat, previous: nat) {
    forall a :: a in ps ==> Unblocked(c, chars, ps, p, a) && c.combining(chars[a]) > previous
  }

  lemma PassedBlocksNone(c: Collator, chars: seq<nat>, ps: seq<nat>, p: nat, previous: nat, least: nat)
    requires p < |chars| && NoneBlocked(c, chars, ps, p + 1, least) && previous <= least
    requires chars[p] != BLANK ==> 0 < c.combining(chars[p]) <= least
    ensures NoneBlocked(c, chars, ps, p, previous)
  {
    forall a | a in ps ensures Unblocked(c, chars, ps, p, a) && c.combining(chars[a]) > previous {
      assert Unblocked(c, chars, ps, p + 1, a);
    }
  }

  lemma TakenBlocksNone(c: Collator, chars: seq<nat>, rest: seq<nat>, p: nat, previous: nat)
    requires p < |chars| && NoneBlocked(c, chars, rest, p + 1, previous) && c.combining(chars[p]) > previous
    ensures NoneBlocked(c, chars, [p] + rest, p, previous)
  {
    forall a | a in [p] + rest ensures Unblocked(c, chars, [p] + rest, p, a) && c.combining(chars[a]) > previous {
      if a in rest {
        assert Unblocked(c, chars, rest, p + 1, a);
      }
    }
  }

  /**
   In text in canonical order only unblocked marks are absorbed (rule S2.1 of UTS 10).
   */
  lemma {:induction false} AbsorbedUnblocked(
    c: Collator, chars: seq<nat>, long: bool, p: nat, best: seq<nat>, previous: nat)
    requires MarksOrdered(c, chars, p, previous)
    ensures NoneBlocked(c, chars, Absorb(c, chars, long, p, best, previous).positions, p, previous)
    decreases |chars| - p
  {
    var ps := Absorb(c, chars, long, p, best, previous).positions;
    if p < |chars| {
      if chars[p] == BLANK {
        AbsorbedUnblocked(c, chars, long, p + 1, best, previous);
        PassedBlocksNone(c, chars, ps, p, previous, previous);
      } else if c.combining(chars[p]) != 0 {
        var mark := c.combining(chars[p]);
        if mark != previous && Accepts(c, long, best + [chars[p]]) {
          MarksStayOrdered(c, chars, p + 1, mark, previous);
          AbsorbedUnblocked(c, chars, long, p + 1, best + [chars[p]], previous);
          TakenBlocksNone(c, chars, ps[1..], p, previous);
        } else {
          AbsorbedUnblocked(c, chars, long, p + 1, best, mark);
          PassedBlocksNone(c, chars, ps, p, previous, mark);
        }
      }
    }
  }

  // ----- The trace -----

  /** One turn of the loop: a match, or a noncharacter passed over. */
  datatype Step =
    | Matched(start: nat, end: nat, cp: nat, contiguous: seq<nat>, absorbed: seq<nat>, best: seq<nat>)
    | Passed(position: nat)

  predicate Noncharacter(cp: nat) {
    cp % 0x1_0000 >= 0xfffe || 0xfdd0 <= cp <= 0xfdef
  }

  predicate Passes(c: Collator, cp: nat) {
    c.version <= 20 && Noncharacter(cp)
  }

  function StepOf(chars: seq<nat>, m: Match): Step
    requires m.start < m.end <= |chars|
  {
    Matched(m.start, m.end, chars[m.start], Positions(chars, m.start, m.end), m.absorbed, m.best)
  }

  /** The steps from position `i` on. */
  function Steps(c: Collator, chars: seq<nat>, i: nat): seq<Step>
    decreases |chars| - i
  {
    if i >= |chars| then []
    else if chars[i] == BLANK then Steps(c, chars, i + 1)
    else if Passes(c, chars[i]) then [Passed(i)] + Steps(c, chars, i + 1)
    else
      var m := MatchAt(c, chars, i);
      [StepOf(chars, m)] + Steps(c, Blank(chars, m.absorbed), m.end)
  }

  function StepPositions(s: Step): seq<nat> {
    match s
    case Matched(_, _, _, contiguous, absorbed, _) => contiguous + absorbed
    case Passed(position) => [position]
  }

  /** The positions that steps consume, in the order in which they do. */
  function Consumed(steps: seq<Step>): seq<nat> {
    if steps == [] then [] else StepPositions(steps[0]) + Consumed(steps[1..])
  }

  lemma ConsumedFirst(s: Step, rest: seq<Step>)
    ensures Consumed([s] + rest) == StepPositions(s) + Consumed(rest)
  {
    assert ([s] + rest)[1..] == rest;
  }

  lemma MatchTakes(c: Collator, chars: seq<nat>, i: nat)
    requires i < |chars|
    ensures var m := MatchAt(c, chars, i);
            Rising(chars, m.end, m.absorbed) && m.best == Alive(chars, i, m.end) + Taken(chars, m.absorbed)
  {
    var m := MatchAt(c, chars, i);
    var best := Alive(chars, i, m.end);
    AbsorbTakes(c, chars, true, m.end, best, 0);
    AbsorbTakes(c, chars, false, m.end, best, 0);
  }

  // ----- Every code point once -----

  lemma CountJoined(a: seq<nat>, b: seq<nat>, rest: seq<nat>, q: nat)
    ensures multiset(a + b + rest)[q] == multiset(a)[q] + multiset(b)[q] + multiset(rest)[q]
  {
    assert multiset(a + b + rest) == multiset(a) + multiset(b) + multiset(rest);
  }

  lemma MatchConsumes(chars: seq<nat>, from: nat, end: nat, absorbed: seq<nat>, later: seq<nat>, q: nat)
    requires from <= end <= |chars| && Rising(chars, end, absorbed)
    requires multiset(later)[q] == Due(Blank(chars, absorbed), end, |chars|, q)
    ensures multiset(Positions(chars, from, end) + absorbed + later)[q] == Due(chars, from, |chars|, q)
  {
    CountJoined(Positions(chars, from, end), absorbed, later, q);
    PositionsDue(chars, from, end, q);
    RisingOnce(chars, end, absorbed, q);
  }

  lemma PassConsumes(chars: seq<nat>, p: nat, later: seq<nat>, q: nat)
    requires p < |chars| && chars[p] != BLANK
    requires multiset(later)[q] == Due(chars, p + 1, |chars|, q)
    ensures multiset([p] + later)[q] == Due(chars, p, |chars|, q)
  {
    assert multiset([p] + later) == multiset{p} + multiset(later);
  }

  /** How often steps consume position `q`. */
  function Times(steps: seq<Step>, q: nat): nat {
    multiset(Consumed(steps))[q]
  }

  ghost predicate ConsumesDue(c: Collator, chars: seq<nat>, i: nat, q: nat) {
    Times(Steps(c, chars, i), q) == Due(chars, i, |chars|, q)
  }

  lemma AfterMatch(c: Collator, chars: seq<nat>, i: nat, m: Match, q: nat)
    requires i < |chars| && chars[i] != BLANK && !Passes(c, chars[i]) && m == MatchAt(c, chars, i)
    requires ConsumesDue(c, Blank(chars, m.absorbed), m.end, q)
    ensures ConsumesDue(c, chars, i, q)
  {
    MatchTakes(c, chars, i);
    var later := Steps(c, Blank(chars, m.absorbed), m.end);
    ConsumedFirst(StepOf(chars, m), later);
    MatchConsumes(chars, i, m.end, m.absorbed, Consumed(later), q);
  }

  lemma AfterPass(c: Collator, chars: seq<nat>, i: nat, q: nat)
    requires i < |chars| && (chars[i] == BLANK || Passes(c, chars[i]))
    requires ConsumesDue(c, chars, i + 1, q)
    ensures ConsumesDue(c, chars, i, q)
  {
    if chars[i] != BLANK {
      var later := Steps(c, chars, i + 1);
      ConsumedFirst(Passed(i), later);
      PassConsumes(chars, i, Consumed(later), q);
    }
  }

  /** Every code point not yet consumed is consumed exactly once, and nothing else is. */
  lemma {:induction false} ConsumedOnce(c: Collator, chars: seq<nat>, i: nat, q: nat)
    ensures ConsumesDue(c, chars, i, q)
    decreases |chars| - i
  {
    if i < |chars| {
      if chars[i] == BLANK || Passes(c, chars[i]) {
        ConsumedOnce(c, chars, i + 1, q);
        AfterPass(c, chars, i, q);
      } else {
        var m := MatchAt(c, chars, i);
        ConsumedOnce(c, Blank(chars, m.absorbed), m.end, q);
        AfterMatch(c, chars, i, m, q);
      }
    }
  }

  /** The code points that version 9 and 11 leave out from the start. */
  predicate Ignorable(c: Collator, cp: nat) {
    (c.version == 9 || c.version == 11) && Find(c, [cp]) == Some([])
  }

  function Prepared(c: Collator, text: seq<nat>): (chars: seq<nat>)
    ensures |chars| == |text|
    ensures forall q :: 0 <= q < |text| ==> chars[q] == if Ignorable(c, text[q]) then BLANK else text[q]
  {
    seq(|text|, q requires 0 <= q < |text| => if Ignorable(c, text[q]) then BLANK else text[q])
  }

  /** Code points, as Rust's `char` holds them. */
  predicate IsText(text: seq<nat>) {
    forall q :: 0 <= q < |text| ==> text[q] < 0x11_0000
  }

  /** The steps of a whole text. */
  function TextSteps(c: Collator, text: seq<nat>): seq<Step> {
    Steps(c, Prepared(c, text), 0)
  }

  /** How often a position of a text is consumed. */
  function TextDue(c: Collator, text: seq<nat>, q: nat): nat {
    if q < |text| && !Ignorable(c, text[q]) then 1 else 0
  }

  /**
   Over the whole loop each code point of the text is consumed exactly once, in a contiguous match, as
   an absorbed mark or as a noncharacter passed over, except for those left out from the start.
   */
  lemma EachConsumedOnce(c: Collator, text: seq<nat>, q: nat)
    requires IsText(text)
    ensures Times(TextSteps(c, text), q) == TextDue(c, text, q)
  {
    ConsumedOnce(c, Prepared(c, text), 0, q);
  }

  /** `chars` is `text` with some code points consumed. */
  predicate Partly(text: seq<nat>, chars: seq<nat>) {
    |chars| == |text| && forall q :: 0 <= q < |text| ==> chars[q] == BLANK || chars[q] == text[q]
  }

  lemma {:induction false} TakenFromText(text: seq<nat>, chars: seq<nat>, ps: seq<nat>)
    requires Partly(text, chars) && forall k :: 0 <= k < |ps| ==> ps[k] < |chars| && chars[ps[k]] != BLANK
    ensures Taken(chars, ps) == Taken(text, ps)
    decreases |ps|
  {
    if ps != [] {
      TakenFromText(text, chars, ps[1..]);
    }
  }

  /** A match looks up the text at the positions it consumes. */
  predicate FromText(text: seq<nat>, s: Step) {
    s.Matched? ==> s.best == Taken(text, s.contiguous + s.absorbed)
  }

  lemma MatchFromText(c: Collator, text: seq<nat>, chars: seq<nat>, i: nat)
    requires Partly(text, chars) && i < |chars|
    ensures FromText(text, StepOf(chars, MatchAt(c, chars, i)))
  {
    var m := MatchAt(c, chars, i);
    var ps := Positions(chars, i, m.end);
    MatchTakes(c, chars, i);
    AliveTaken(chars, i, m.end);
    TakenAppend(text, ps, m.absorbed);
    forall k | 0 <= k < |ps| ensures ps[k] < |chars| && chars[ps[k]] != BLANK {
      assert ps[k] in multiset(ps);
      PositionsDue(chars, i, m.end, ps[k]);
    }
    TakenFromText(text, chars, ps);
    forall k | 0 <= k < |m.absorbed| ensures m.absorbed[k] < |chars| && chars[m.absorbed[k]] != BLANK {
      RisingOnce(chars, m.end, m.absorbed, m.absorbed[k]);
    }
    TakenFromText(text, chars, m.absorbed);
  }

  /** What a step looks up is the text at the positions it consumes, in that order. */
  lemma {:induction false} StepsFromText(c: Collator, text: seq<nat>, chars: seq<nat>, i: nat)
    requires Partly(text, chars)
    ensures forall s :: s in Steps(c, chars, i) ==> FromText(text, s)
    decreases |chars| - i
  {
    if i < |chars| {
      if chars[i] == BLANK || Passes(c, chars[i]) {
        StepsFromText(c, text, chars, i + 1);
      } else {
        var m := MatchAt(c, chars, i);
        MatchFromText(c, text, chars, i);
        StepsFromText(c, text, Blank(chars, m.absorbed), m.end);
      }
    }
  }

  // ----- Rule S2.1 of UTS 10 for every step -----

  /** The marks are in canonical order from wherever one looks behind position `i`. */
  ghost predicate OrderedBehind(c: Collator, chars: seq<nat>, i: nat) {
    forall p: nat :: i < p <= |chars| ==> MarksOrdered(c, chars, p, 0)
  }

  /** The first position from `i` on at which a match starts: neither consumed nor passed over. */
  function FirstMatched(c: Collator, chars: seq<nat>, i: nat): (first: nat)
    ensures i <= first
    ensures i < |chars| ==> first <= |chars|
    ensures first < |chars| ==> chars[first] != BLANK && !Passes(c, chars[first])
    decreases |chars| - i
  {
    if i < |chars| && (chars[i] == BLANK || Passes(c, chars[i])) then FirstMatched(c, chars, i + 1) else i
  }

  /** Consuming marks leaves the others in order. */
  lemma {:induction false} BlankKeepsOrder(c: Collator, chars: seq<nat>, ps: seq<nat>, p: nat, least: nat)
    requires MarksOrdered(c, chars, p, least)
    requires forall a :: a in ps && a < |chars| ==> c.combining(chars[a]) != 0
    ensures MarksOrdered(c, Blank(chars, ps), p, least)
    decreases |chars| - p
  {
    if p < |chars| {
      if chars[p] == BLANK {
        BlankKeepsOrder(c, chars, ps, p + 1, least);
      } else if c.combining(chars[p]) != 0 {
        BlankKeepsOrder(c, chars, ps, p + 1, c.combining(chars[p]));
        if p in ps {
          MarksStayOrdered(c, Blank(chars, ps), p + 1, c.combining(chars[p]), least);
        }
      }
    }
  }

  /** The positions left out from the start. */
  ghost function LeftOut(c: Collator, text: seq<nat>): set<nat> {
    set q: nat | q < |text| && Ignorable(c, text[q])
  }

  ghost function With(gone: set<nat>, s: Step): set<nat> {
    gone + set q | q in StepPositions(s)
  }

  ghost function ConsumedSet(steps: seq<Step>): set<nat> {
    set q | q in Consumed(steps)
  }

  /**
   Each absorbed mark is unblocked: whatever is left of the text between the match and the mark, and is
   not absorbed with it, is a mark of a smaller class.
   */
  ghost predicate StepUnblocked(c: Collator, text: seq<nat>, gone: set<nat>, s: Step) {
    s.Matched? ==> forall a :: a in s.absorbed ==> MarkUnblocked(c, text, gone, s, a)
  }

  ghost predicate MarkUnblocked(c: Collator, text: seq<nat>, gone: set<nat>, s: Step, a: nat)
    requires s.Matched?
  {
    && a < |text| && c.combining(text[a]) > 0
    && forall q :: s.end <= q < a && q !in s.absorbed && q !in gone ==>
         0 < c.combining(text[q]) < c.combining(text[a])
  }

  lemma MatchUnblocked(c: Collator, text: seq<nat>, chars: seq<nat>, i: nat, gone: set<nat>)
    requires Partly(text, chars) && OrderedBehind(c, chars, i) && i < |chars|
    requires forall q :: 0 <= q < |chars| && chars[q] == BLANK ==> q in gone
    ensures StepUnblocked(c, text, gone, StepOf(chars, MatchAt(c, chars, i)))
    ensures OrderedBehind(c, Blank(chars, MatchAt(c, chars, i).absorbed), i)
  {
    var m := MatchAt(c, chars, i);
    var s, best := StepOf(chars, m), Alive(chars, i, m.end);
    assert MarksOrdered(c, chars, m.end, 0);
    AbsorbedUnblocked(c, chars, true, m.end, best, 0);
    AbsorbedUnblocked(c, chars, false, m.end, best, 0);
    MatchTakes(c, chars, i);
    forall a | a in m.absorbed ensures MarkUnblocked(c, text, gone, s, a) {
      RisingOnce(chars, m.end, m.absorbed, a);
      assert Unblocked(c, chars, m.absorbed, m.end, a);
    }
    forall p: nat | i < p <= |chars| ensures MarksOrdered(c, Blank(chars, m.absorbed), p, 0) {
      BlankKeepsOrder(c, chars, m.absorbed, p, 0);
    }
  }

  /** Every mark that a step absorbs is unblocked by what is left when the step is taken. */
  ghost predicate AllUnblocked(c: Collator, text: seq<nat>, gone: set<nat>, steps: seq<Step>)
    decreases |steps|
  {
    steps == []
    || (StepUnblocked(c, text, gone, steps[0]) && AllUnblocked(c, text, With(gone, steps[0]), steps[1..]))
  }

  lemma AllUnblockedFirst(c: Collator, text: seq<nat>, gone: set<nat>, first: Step, rest: seq<Step>)
    requires StepUnblocked(c, text, gone, first) && AllUnblocked(c, text, With(gone, first), rest)
    ensures AllUnblocked(c, text, gone, [first] + rest)
  {
    assert ([first] + rest)[1..] == rest;
  }

  /** Step `k` is unblocked by what the steps before it leave. */
  lemma {:induction false} UnblockedAt(c: Collator, text: seq<nat>, gone: set<nat>, steps: seq<Step>, k: nat)
    requires AllUnblocked(c, text, gone, steps) && k < |steps|
    ensures StepUnblocked(c, text, gone + ConsumedSet(steps[..k]), steps[k])
    decreases k
  {
    if k == 0 {
      assert gone + ConsumedSet(steps[..k]) == gone;
    } else {
      var later := steps[1..];
      UnblockedAt(c, text, With(gone, steps[0]), later, k - 1);
      assert steps[..k] == [steps[0]] + later[..k - 1];
      WithConsumed(gone, steps[0], later[..k - 1]);
    }
  }

  lemma WithConsumed(gone: set<nat>, s: Step, rest: seq<Step>)
    ensures gone + ConsumedSet([s] + rest) == With(gone, s) + ConsumedSet(rest)
  {
    ConsumedFirst(s, rest);
  }

  lemma {:induction false} StepsUnblocked(c: Collator, text: seq<nat>, chars: seq<nat>, i: nat, gone: set<nat>)
    requires Partly(text, chars) && OrderedBehind(c, chars, FirstMatched(c, chars, i))
    requires forall q :: 0 <= q < |chars| && chars[q] == BLANK ==> q in gone
    ensures AllUnblocked(c, text, gone, Steps(c, chars, i))
    decreases |chars| - i
  {
    if i < |chars| {
      if chars[i] == BLANK {
        StepsUnblocked(c, text, chars, i + 1, gone);
      } else if Passes(c, chars[i]) {
        StepsUnblocked(c, text, chars, i + 1, With(gone, Passed(i)));
        AllUnblockedFirst(c, text, gone, Passed(i), Steps(c, chars, i + 1));
      } else {
        var m := MatchAt(c, chars, i);
        var first, next := StepOf(chars, m), Blank(chars, m.absorbed);
        MatchUnblocked(c, text, chars, i, gone);
        assert forall q :: q in m.absorbed ==> q in StepPositions(first);
        StepsUnblocked(c, text, next, m.end, With(gone, first));
        AllUnblockedFirst(c, text, gone, first, Steps(c, next, m.end));
      }
    }
  }

  function Keep(cp: nat): seq<nat> {
    if cp == BLANK then [] else [cp]
  }

  lemma KeepBetween(a: seq<nat>, b: seq<nat>, d: seq<nat>)
    ensures a + (b + d) == a + b + d
  {
  }

  lemma {:induction false} AliveCons(chars: seq<nat>, from: nat, upto: nat)
    requires from < upto <= |chars|
    ensures Alive(chars, from, upto) == Keep(chars[from]) + Alive(chars, from + 1, upto)
    decreases upto
  {
    if from + 1 < upto {
      AliveCons(chars, from, upto - 1);
      KeepBetween(Keep(chars[from]), Alive(chars, from + 1, upto - 1), Keep(chars[upto - 1]));
    } else {
      assert Alive(chars, from, from) == [] && Alive(chars, from + 1, upto) == [];
    }
  }

  /** In order, and none of the first marks of a class below `least`. */
  ghost predicate OrderedFrom(cls: nat -> nat, s: seq<nat>, least: nat) {
    Ordered(cls, s) && (s != [] ==> cls(s[0]) == 0 || least <= cls(s[0]))
  }

  lemma OrderedTail(cls: nat -> nat, x: nat, rest: seq<nat>, least: nat)
    requires x != BLANK && OrderedFrom(cls, [x] + rest, least)
    ensures OrderedFrom(cls, rest, cls(x)) && (cls(x) == 0 || least <= cls(x))
  {
    var t := [x] + rest;
    assert t[0] == x;
    assert forall i :: 0 <= i < |rest| ==> rest[i] == t[i + 1];
    if rest != [] {
      assert t[1] == rest[0];
    }
    forall i | 0 < i < |rest| ensures cls(rest[i]) == 0 || cls(rest[i - 1]) <= cls(rest[i]) {
      assert rest[i] == t[i + 1] && rest[i - 1] == t[i];
    }
  }

  lemma {:induction false} AliveSplit(chars: seq<nat>, from: nat, p: nat, upto: nat)
    requires from <= p <= upto <= |chars|
    ensures Alive(chars, from, upto) == Alive(chars, from, p) + Alive(chars, p, upto)
    decreases upto
  {
    if p < upto {
      AliveSplit(chars, from, p, upto - 1);
      KeepBetween(Alive(chars, from, p), Alive(chars, p, upto - 1), Keep(chars[upto - 1]));
    } else {
      assert Alive(chars, p, upto) == [];
    }
  }

  lemma OrderedSuffix(cls: nat -> nat, a: seq<nat>, b: seq<nat>)
    requires Ordered(cls, a + b)
    ensures OrderedFrom(cls, b, 0)
  {
    var s := a + b;
    forall i | 0 < i < |b| ensures cls(b[i]) == 0 || cls(b[i - 1]) <= cls(b[i]) {
      assert s[|a| + i] == b[i] && s[|a| + i - 1] == b[i - 1];
    }
  }

  lemma AliveOrdered(c: Collator, chars: seq<nat>, from: nat, p: nat)
    requires from <= p <= |chars| && Ordered(c.combining, Alive(chars, from, |chars|))
    ensures OrderedFrom(c.combining, Alive(chars, p, |chars|), 0)
  {
    AliveSplit(chars, from, p, |chars|);
    OrderedSuffix(c.combining, Alive(chars, from, p), Alive(chars, p, |chars|));
  }

  /** The class from which marks come after `cp`. */
  function ClassAfter(c: Collator, cp: nat, least: nat): nat {
    if cp == BLANK then least else c.combining(cp)
  }

  lemma OrderedNext(c: Collator, cp: nat, rest: seq<nat>, least: nat)
    requires OrderedFrom(c.combining, Keep(cp) + rest, least)
    ensures OrderedFrom(c.combining, rest, ClassAfter(c, cp, least))
    ensures cp != BLANK ==> c.combining(cp) == 0 || least <= c.combining(cp)
  {
    if cp == BLANK {
      assert Keep(cp) + rest == rest;
    } else {
      OrderedTail(c.combining, cp, rest, least);
    }
  }

  lemma AliveOrderedNext(c: Collator, chars: seq<nat>, p: nat, least: nat)
    requires p < |chars| && OrderedFrom(c.combining, Alive(chars, p, |chars|), least)
    ensures OrderedFrom(c.combining, Alive(chars, p + 1, |chars|), ClassAfter(c, chars[p], least))
    ensures chars[p] != BLANK ==> c.combining(chars[p]) == 0 || least <= c.combining(chars[p])
  {
    AliveCons(chars, p, |chars|);
    OrderedNext(c, chars[p], Alive(chars, p + 1, |chars|), least);
  }

  lemma {:induction false} OrderedMarks(c: Collator, chars: seq<nat>, p: nat, least: nat)
    requires p <= |chars| && OrderedFrom(c.combining, Alive(chars, p, |chars|), least)
    ensures MarksOrdered(c, chars, p, least)
    decreases |chars| - p
  {
    if p < |chars| {
      AliveOrderedNext(c, chars, p, least);
      OrderedMarks(c, chars, p + 1, ClassAfter(c, chars[p], least));
    }
  }

  /** Each step is unblocked by what leaving out and the steps before it leave of the text. */
  ghost predicate EachUnblocked(c: Collator, text: seq<nat>, steps: seq<Step>) {
    forall k :: 0 <= k < |steps| ==>
      StepUnblocked(c, text, LeftOut(c, text) + ConsumedSet(steps[..k]), steps[k])
  }

  lemma AllEachUnblocked(c: Collator, text: seq<nat>, steps: seq<Step>)
    requires AllUnblocked(c, text, LeftOut(c, text), steps)
    ensures EachUnblocked(c, text, steps)
  {
    forall k | 0 <= k < |steps|
      ensures StepUnblocked(c, text, LeftOut(c, text) + ConsumedSet(steps[..k]), steps[k])
    {
      UnblockedAt(c, text, LeftOut(c, text), steps, k);
    }
  }

  /** What is left of a text behind the code point with which the first match starts. */
  function BehindFirst(c: Collator, text: seq<nat>): seq<nat> {
    var chars := Prepared(c, text);
    Alive(chars, FirstMatched(c, chars, 0) + 1, |text|)
  }

  /**
   Where what is left behind the first match's start is in canonical order, every mark that any step
   absorbs is unblocked by what is left before it (rule S2.1 of UTS 10).
   */
  lemma EveryStepUnblocked(c: Collator, text: seq<nat>)
    requires IsText(text) && Ordered(c.combining, BehindFirst(c, text))
    ensures AllUnblocked(c, text, LeftOut(c, text), TextSteps(c, text))
  {
    var chars := Prepared(c, text);
    var first := FirstMatched(c, chars, 0);
    forall p: nat | first < p <= |chars| ensures MarksOrdered(c, chars, p, 0) {
      AliveOrdered(c, chars, first + 1, p);
      OrderedMarks(c, chars, p, 0);
    }
    StepsUnblocked(c, text, chars, 0, LeftOut(c, text));
  }

  lemma {:induction false} AliveWithin(chars: seq<nat>, from: nat, upto: nat)
    requires from <= upto <= |chars| && forall q :: 0 <= q < |chars| ==> chars[q] != BLANK
    ensures Alive(chars, from, upto) == chars[from..upto]
    decreases upto
  {
    if from < upto {
      AliveWithin(chars, from, upto - 1);
    }
  }

  /** In versions that leave nothing out, a text in canonical order has order behind the first match's start. */
  lemma NothingLeftOut(c: Collator, text: seq<nat>)
    requires IsText(text) && c.version != 9 && c.version != 11 && Ordered(c.combining, text)
    ensures LeftOut(c, text) == {} && Ordered(c.combining, BehindFirst(c, text))
  {
    assert Prepared(c, text) == text;
    var from := FirstMatched(c, text, 0) + 1;
    if from <= |text| {
      AliveWithin(text, from, |text|);
      assert forall i :: 0 <= i < |text| - from ==> text[from..|text|][i] == text[from + i];
    }
  }
}

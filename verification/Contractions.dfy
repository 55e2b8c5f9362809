/**
 Matching text against the collation tables (`elements`, crates/tex-biber/src/collation.rs): the
 longest contiguous match, marks absorbed from behind it, and the elements of what matched.

 Implicit weights, the ideograph ranges and the combining classes are parameters.
 */
module Contractions {
  import opened Wrappers
  import opened SortKeys
  import opened CollationTables

  /** Stands where a code point has been consumed; it is no code point. */
  const BLANK := 0xffff_ffff

  datatype Collator = Collator(
    table: Table, ducet: Table, cjk: Table, suppress: set<nat>, ideograph: nat -> bool, implicit: nat -> seq<Element>,
    combining: nat -> nat, discontiguous: bool, long: bool, version: nat, terminator: nat, implicitHangul: bool)
  {
    ghost predicate Valid() {
      Sorted(table) && Sorted(ducet) && Sorted(cjk)
    }
  }

  // ----- Lookups over several tables -----

  predicate Suppressed(c: Collator, s: seq<nat>) {
    |s| > 1 && s[0] in c.suppress
  }

  /** The elements of `s`: the tailoring first, then the default table, then the ideographs. */
  function Find(c: Collator, s: seq<nat>): Option<seq<Element>> {
    if Lookup(c.table, s).Some? then Lookup(c.table, s)
    else if !Suppressed(c, s) && Lookup(c.ducet, s).Some? then Lookup(c.ducet, s)
    else if |s| == 1 && c.ideograph(s[0]) then Lookup(c.cjk, s)
    else None
  }

  method FindElements(c: Collator, s: seq<nat>) returns (r: Option<seq<Element>>)
    requires c.Valid()
    ensures r == Find(c, s)
  {
    r := Search(c.table, s);
    if r == None && !Suppressed(c, s) {
      r := Search(c.ducet, s);
    }
    if r == None && |s| == 1 && c.ideograph(s[0]) {
      r := Search(c.cjk, s);
    }
  }

  function Cutoff(c: Collator, cp: nat): (n: nat)
    ensures n >= 1
  {
    var a, b := MaxLen(c.table, cp), MaxLen(c.ducet, cp);
    if a > b then a else b
  }

  method FindCutoff(c: Collator, cp: nat) returns (n: nat)
    requires c.Valid()
    ensures n == Cutoff(c, cp)
  {
    n := LongestRow(c.table, cp);
    var other := LongestRow(c.ducet, cp);
    if other > n {
      n := other;
    }
  }

  /** Nothing longer than the cutoff is found. */
  lemma BeyondCutoff(c: Collator, s: seq<nat>)
    requires |s| > 1 && |s| > Cutoff(c, s[0])
    ensures Find(c, s) == None
  {
    BeyondMaxLen(c.table, s);
    BeyondMaxLen(c.ducet, s);
  }

  lemma BeyondMaxLen(t: Table, s: seq<nat>)
    requires s != [] && |s| > MaxLen(t, s[0])
    ensures Lookup(t, s) == None
  {
    MaxLenExact(t, s[0]);
    LookupNone(t, s);
  }

  // ----- What is left of a stretch -----

  /** The code points of `chars[from..upto]` not yet consumed. */
  function Alive(chars: seq<nat>, from: nat, upto: nat): seq<nat>
    requires upto <= |chars|
    decreases upto
  {
    if upto <= from then [] else Alive(chars, from, upto - 1) + if chars[upto - 1] == BLANK then [] else [chars[upto - 1]]
  }

  lemma {:induction false} AliveFirst(chars: seq<nat>, from: nat, upto: nat)
    requires from < upto <= |chars| && chars[from] != BLANK
    ensures |Alive(chars, from, upto)| >= 1 && Alive(chars, from, upto)[0] == chars[from]
    decreases upto
  {
    if from < upto - 1 {
      AliveFirst(chars, from, upto - 1);
    } else {
      assert Alive(chars, from, from) == [];
    }
  }

  // ----- The longest contiguous match -----

  /** What is left of `chars[i..end]` is a row of the tables, and it ends with a code point not yet consumed. */
  predicate MatchEnds(c: Collator, chars: seq<nat>, i: nat, end: nat)
    requires end <= |chars|
  {
    i < end && chars[end - 1] != BLANK && Find(c, Alive(chars, i, end)).Some?
  }

  /** The end of the longest match from `i` that ends at `to` or before, over everything up to there. */
  function ContiguousEnd(c: Collator, chars: seq<nat>, i: nat, upto: nat): (end: nat)
    requires i < upto <= |chars|
    ensures i < end <= upto
    decreases upto
  {
    if upto == i + 1 then upto
    else if MatchEnds(c, chars, i, upto) then upto
    else ContiguousEnd(c, chars, i, upto - 1)
  }

  /** No stretch from `i` that ends after `from`, at `upto` at the latest, matches. */
  ghost predicate NoneMatches(c: Collator, chars: seq<nat>, i: nat, from: nat, upto: nat)
    requires upto <= |chars|
  {
    forall q :: from < q <= upto ==> !MatchEnds(c, chars, i, q)
  }

  /** It is the longest: it matches, or is a single code point, and no longer stretch matches. */
  lemma {:induction false} ContiguousEndLongest(c: Collator, chars: seq<nat>, i: nat, upto: nat)
    requires i < upto <= |chars|
    ensures var end := ContiguousEnd(c, chars, i, upto);
            && (end == i + 1 || MatchEnds(c, chars, i, end))
            && NoneMatches(c, chars, i, end, upto)
    decreases upto
  {
    if upto != i + 1 && !MatchEnds(c, chars, i, upto) {
      ContiguousEndLongest(c, chars, i, upto - 1);
    }
  }

  /** Once as many code points as the cutoff have been taken, no longer match is to come. */
  lemma {:induction false} NothingLonger(c: Collator, chars: seq<nat>, i: nat, p: nat, upto: nat)
    requires i < p <= upto <= |chars| && chars[i] != BLANK && |Alive(chars, i, p)| >= Cutoff(c, chars[i])
    ensures ContiguousEnd(c, chars, i, upto) == ContiguousEnd(c, chars, i, p)
    ensures |Alive(chars, i, upto)| >= |Alive(chars, i, p)|
    decreases upto
  {
    if p < upto {
      NothingLonger(c, chars, i, p, upto - 1);
      if chars[upto - 1] != BLANK {
        AliveFirst(chars, i, upto);
        BeyondCutoff(c, Alive(chars, i, upto));
      }
    }
  }

  /** The longest match, looking no further than the cutoff. */
  method LongestMatch(c: Collator, chars: seq<nat>, i: nat, max: nat) returns (best: seq<nat>, end: nat)
    requires c.Valid() && i < |chars| && chars[i] != BLANK && max == Cutoff(c, chars[i])
    ensures end == ContiguousEnd(c, chars, i, |chars|) && best == Alive(chars, i, end)
  {
    var s := [chars[i]];
    best, end := s, i + 1;
    assert Alive(chars, i, i) == [];
    var p := i + 1;
    while p < |chars|
      invariant i < p <= |chars|
      invariant s == Alive(chars, i, p) && end == ContiguousEnd(c, chars, i, p) && best == Alive(chars, i, end)
    {
      if chars[p] != BLANK {
        if |s| >= max {
          NothingLonger(c, chars, i, p, |chars|);
          break;
        }
        s := s + [chars[p]];
        var found := FindElements(c, s);
        if found.Some? {
          best, end := s, p + 1;
        }
      }
      p := p + 1;
    }
  }

  // ----- Absorbed marks -----

  /** The code points matched so far, and where the marks among them come from. */
  datatype Absorbed = Absorbed(best: seq<nat>, positions: seq<nat>)

  predicate Accepts(c: Collator, long: bool, s: seq<nat>) {
    Find(c, s).Some? || (long && (Prefixes(c.table, s) || Prefixes(c.ducet, s)))
  }

  /**
   With `long`, a sequence is accepted if it is found or is extended in a table. Rows of the default table
   that are suppressed, and so not found, still hide the rows of that table that extend them.
   */
  lemma AcceptsLong(c: Collator, s: seq<nat>)
    ensures Accepts(c, true, s)
            <==> Find(c, s).Some? || Extended(c.table, s)
                 || (Extended(c.ducet, s) && !(Suppressed(c, s) && Lookup(c.ducet, s).Some?))
  {
  }

  /** No match is lost by that: what is on the way to a match is accepted. */
  lemma NoMatchHidden(c: Collator, s: seq<nat>, longer: seq<nat>)
    requires s != [] && Extends(longer, s) && Find(c, longer).Some?
    ensures Accepts(c, true, s)
  {
    if Lookup(c.table, longer).Some? {
      LookupExtended(c.table, s, longer);
    } else {
      LookupExtended(c.ducet, s, longer);
      assert longer[0] == longer[..|s|][0];
    }
  }

  lemma LookupExtended(t: Table, s: seq<nat>, longer: seq<nat>)
    requires Extends(longer, s) && Lookup(t, longer).Some?
    ensures Extended(t, s)
  {
    LookupNone(t, longer);
  }

  /** A suppressed row that hides the row that extends it. */
  lemma SuppressedHides(c: Collator, e: seq<Element>)
    requires c.table == [] && c.suppress == {1} && c.ducet == [Row([1, 2], e), Row([1, 2, 3], e)]
    ensures Extended(c.ducet, [1, 2]) && !Accepts(c, true, [1, 2])
  {
    assert Extends(c.ducet[1].sequence, [1, 2]);
    LookupRow(c.ducet, 0);
    AcceptsLong(c, [1, 2]);
  }

  /** Marks from `p` on join `best` while the tables match, up to the next starter. */
  function Absorb(c: Collator, chars: seq<nat>, long: bool, p: nat, best: seq<nat>, previous: nat): Absorbed
    decreases |chars| - p
  {
    if p >= |chars| then Absorbed(best, [])
    else if chars[p] == BLANK then Absorb(c, chars, long, p + 1, best, previous)
    else if c.combining(chars[p]) == 0 then Absorbed(best, [])
    else if c.combining(chars[p]) != previous && Accepts(c, long, best + [chars[p]]) then
      var rest := Absorb(c, chars, long, p + 1, best + [chars[p]], previous);
      Absorbed(rest.best, [p] + rest.positions)
    else Absorb(c, chars, long, p + 1, best, c.combining(chars[p]))
  }

  /** What one step of the loop matches: a stretch of text and marks from behind it. */
  datatype Match = Match(start: nat, end: nat, absorbed: seq<nat>, best: seq<nat>)

  function AbsorbAt(c: Collator, chars: seq<nat>, end: nat, best: seq<nat>): Absorbed {
    var long := Absorb(c, chars, true, end, best, 0);
    if c.long && long.positions != [] && Find(c, long.best).Some? then long
    else Absorb(c, chars, false, end, best, 0)
  }

  function MatchAt(c: Collator, chars: seq<nat>, i: nat): (m: Match)
    requires i < |chars|
    ensures m.start == i < m.end <= |chars|
  {
    var end := ContiguousEnd(c, chars, i, |chars|);
    var best := Alive(chars, i, end);
    if Cutoff(c, chars[i]) > 1 && c.discontiguous then
      var r := AbsorbAt(c, chars, end, best);
      Match(i, end, r.positions, r.best)
    else
      Match(i, end, [], best)
  }

  /** Both ways of absorbing marks, in one pass over them. */
  method AbsorbMarks(c: Collator, chars: seq<nat>, end: nat, start: seq<nat>)
    returns (best: seq<nat>, removed: seq<nat>)
    requires c.Valid() && end <= |chars|
    ensures Absorbed(best, removed) == AbsorbAt(c, chars, end, start)
  {
    best, removed := start, [];
    var long, removedLong, previous, previousLong := start, [], 0, 0;
    var p := end;
    ghost var short0, long0 := Absorb(c, chars, false, end, start, 0), Absorb(c, chars, true, end, start, 0);
    while p < |chars|
      invariant end <= p <= |chars|
      invariant Continues(Absorb(c, chars, false, p, best, previous), removed, short0)
      invariant c.long ==> Continues(Absorb(c, chars, true, p, long, previousLong), removedLong, long0)
    {
      if chars[p] != BLANK {
        var mark := c.combining(chars[p]);
        if mark == 0 {
          break;
        }
        best, removed, previous := AbsorbMark(c, chars, false, p, best, removed, previous);
        if c.long {
          long, removedLong, previousLong := AbsorbMark(c, chars, true, p, long, removedLong, previousLong);
        }
      }
      p := p + 1;
    }
    assert removed == short0.positions && best == short0.best;
    if c.long && removedLong != [] {
      var found := FindElements(c, long);
      if found.Some? {
        best, removed := long, removedLong;
      }
    }
  }

  /** `rest` completes what has been removed to `whole`. */
  ghost predicate Continues(rest: Absorbed, removed: seq<nat>, whole: Absorbed) {
    rest.best == whole.best && removed + rest.positions == whole.positions
  }

  method AbsorbMark(
    c: Collator, chars: seq<nat>, long: bool, p: nat, best: seq<nat>, removed: seq<nat>, previous: nat)
    returns (best': seq<nat>, removed': seq<nat>, previous': nat)
    requires c.Valid() && p < |chars| && chars[p] != BLANK && c.combining(chars[p]) != 0
    ensures var before, after := Absorb(c, chars, long, p, best, previous), Absorb(c, chars, long, p + 1, best', previous');
            before.best == after.best && removed + before.positions == removed' + after.positions
  {
    best', removed', previous' := best, removed, previous;
    var mark := c.combining(chars[p]);
    var accepted := false;
    if mark != previous {
      accepted := FindAccepted(c, long, best + [chars[p]]);
    }
    if accepted {
      best', removed' := best + [chars[p]], removed + [p];
    } else {
      previous' := mark;
    }
  }

  method FindAccepted(c: Collator, long: bool, s: seq<nat>) returns (r: bool)
    requires c.Valid()
    ensures r <==> Accepts(c, long, s)
  {
    var found := FindElements(c, s);
    r := found.Some?;
    if !r && long {
      r := HasPrefix(c.table, s);
      if !r {
        r := HasPrefix(c.ducet, s);
      }
    }
  }
}

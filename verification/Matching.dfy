/**
 What a match is (`find` and `elements`, crates/tex-biber/src/collation.rs): which table decides, which marks
 are absorbed and which are not, and that the tables hold what was matched.
 */
module Matching {
  import opened Wrappers
  import opened Lexicographic
  import opened SortKeys
  import opened CollationTables
  import opened Contractions
  import opened CollationSteps

  // ----- Which table decides -----

  ghost predicate Holds(t: Table, s: seq<nat>, w: seq<Element>) {
    exists i :: 0 <= i < |t| && t[i] == Row(s, w)
  }

  ghost predicate HoldsNone(t: Table, s: seq<nat>) {
    forall i :: 0 <= i < |t| ==> t[i].sequence != s
  }

  lemma LookupHolds(t: Table, s: seq<nat>, w: seq<Element>)
    requires Sorted(t) && Holds(t, s, w)
    ensures Lookup(t, s) == Some(w)
  {
    var i :| 0 <= i < |t| && t[i] == Row(s, w);
    forall j | 0 <= j < i ensures t[j].sequence != s {
      CompareEqual(t[j].sequence, s);
    }
    LookupRow(t, i);
  }

  /** The tailoring decides before the default table. */
  lemma TailoringDecides(c: Collator, s: seq<nat>, w: seq<Element>)
    requires c.Valid() && Holds(c.table, s, w)
    ensures Find(c, s) == Some(w)
  {
    LookupHolds(c.table, s, w);
  }

  /** Without a row there, the default table decides, but not of longer sequences with a suppressed start. */
  lemma DefaultDecides(c: Collator, s: seq<nat>, w: seq<Element>)
    requires c.Valid() && HoldsNone(c.table, s) && Holds(c.ducet, s, w)
    ensures |s| == 1 || (s != [] && s[0] !in c.suppress) ==> Find(c, s) == Some(w)
    ensures |s| > 1 && s[0] in c.suppress ==> Find(c, s) == None
  {
    LookupNone(c.table, s);
    LookupHolds(c.ducet, s, w);
  }

  /** Without a row in either, the table of ideographs has the elements of single ideographs. */
  lemma IdeographsDecide(c: Collator, s: seq<nat>)
    requires c.Valid() && HoldsNone(c.table, s) && HoldsNone(c.ducet, s)
    ensures |s| == 1 && c.ideograph(s[0]) ==>
              (forall w :: Holds(c.cjk, s, w) ==> Find(c, s) == Some(w)) && (HoldsNone(c.cjk, s) ==> Find(c, s) == None)
    ensures |s| != 1 || !c.ideograph(s[0]) ==> Find(c, s) == None
  {
    LookupNone(c.table, s);
    LookupNone(c.ducet, s);
    LookupNone(c.cjk, s);
    forall w | Holds(c.cjk, s, w) ensures Lookup(c.cjk, s) == Some(w) {
      LookupHolds(c.cjk, s, w);
    }
  }

  // ----- Marks that are not absorbed -----

  /** The end of the run of marks from `p` on. */
  function RunEnd(c: Collator, chars: seq<nat>, p: nat): (end: nat)
    requires p <= |chars|
    ensures p <= end <= |chars|
    decreases |chars| - p
  {
    if p < |chars| && (chars[p] == BLANK || c.combining(chars[p]) != 0) then RunEnd(c, chars, p + 1) else p
  }

  /** Some mark that is left between `from` and `z` has the class of the mark at `z`. */
  ghost predicate ClassTaken(c: Collator, chars: seq<nat>, ps: seq<nat>, from: nat, z: nat)
    requires z < |chars|
  {
    exists y :: from <= y < z && y !in ps && chars[y] != BLANK && c.combining(chars[y]) == c.combining(chars[z])
  }

  /** What has been absorbed before position `z`. */
  function Before(ps: seq<nat>, z: nat): seq<nat> {
    if ps == [] || ps[0] >= z then [] else [ps[0]] + Before(ps[1..], z)
  }

  /**
   A mark of the run that is not absorbed has the class of a mark left before it, or of the last mark refused
   at the start, or does not extend what was matched before it.
   */
  ghost predicate Refused(
    c: Collator, chars: seq<nat>, long: bool, ps: seq<nat>, from: nat, best: seq<nat>, previous: nat, z: nat)
    requires z < |chars|
  {
    || c.combining(chars[z]) == previous
    || ClassTaken(c, chars, ps, from, z)
    || !Accepts(c, long, best + Taken(chars, Before(ps, z)) + [chars[z]])
  }

  ghost predicate AllRefused(
    c: Collator, chars: seq<nat>, long: bool, ps: seq<nat>, from: nat, best: seq<nat>, previous: nat)
    requires from <= |chars|
  {
    forall z :: from <= z < RunEnd(c, chars, from) && chars[z] != BLANK && z !in ps ==>
      Refused(c, chars, long, ps, from, best, previous, z)
  }

  lemma BeforeRising(chars: seq<nat>, ps: seq<nat>, from: nat)
    requires Rising(chars, from, ps)
    ensures Before(ps, from) == []
  {
  }

  lemma SkipRefuses(c: Collator, chars: seq<nat>, long: bool, ps: seq<nat>, p: nat, best: seq<nat>, previous: nat)
    requires p < |chars| && chars[p] == BLANK && AllRefused(c, chars, long, ps, p + 1, best, previous)
    ensures AllRefused(c, chars, long, ps, p, best, previous)
  {
    forall z | p <= z < RunEnd(c, chars, p) && chars[z] != BLANK && z !in ps
      ensures Refused(c, chars, long, ps, p, best, previous, z)
    {
      assert Refused(c, chars, long, ps, p + 1, best, previous, z);
    }
  }

  lemma PassRefuses(c: Collator, chars: seq<nat>, long: bool, ps: seq<nat>, p: nat, best: seq<nat>, previous: nat)
    requires p < |chars| && chars[p] != BLANK && c.combining(chars[p]) != 0 && Rising(chars, p + 1, ps)
    requires c.combining(chars[p]) == previous || !Accepts(c, long, best + [chars[p]])
    requires AllRefused(c, chars, long, ps, p + 1, best, c.combining(chars[p]))
    ensures AllRefused(c, chars, long, ps, p, best, previous)
  {
    if p in ps {
      RisingOnce(chars, p + 1, ps, p);
    }
    forall z | p <= z < RunEnd(c, chars, p) && chars[z] != BLANK && z !in ps
      ensures Refused(c, chars, long, ps, p, best, previous, z)
    {
      if z == p {
        RisingLater(chars, p, p + 1, ps);
        BeforeRising(chars, ps, p);
        assert best + Taken(chars, []) == best;
      } else {
        assert Refused(c, chars, long, ps, p + 1, best, c.combining(chars[p]), z);
        if c.combining(chars[z]) == c.combining(chars[p]) {
          assert ClassTaken(c, chars, ps, p, z);
        } else if ClassTaken(c, chars, ps, p + 1, z) {
          assert ClassTaken(c, chars, ps, p, z);
        }
      }
    }
  }

  lemma TakeRefuses(c: Collator, chars: seq<nat>, long: bool, rest: seq<nat>, p: nat, best: seq<nat>, previous: nat)
    requires p < |chars| && chars[p] != BLANK && c.combining(chars[p]) != 0
    requires AllRefused(c, chars, long, rest, p + 1, best + [chars[p]], previous)
    ensures AllRefused(c, chars, long, [p] + rest, p, best, previous)
  {
    var ps := [p] + rest;
    forall z | p <= z < RunEnd(c, chars, p) && chars[z] != BLANK && z !in ps
      ensures Refused(c, chars, long, ps, p, best, previous, z)
    {
      assert z != p by {
        assert p in ps;
      }
      assert Refused(c, chars, long, rest, p + 1, best + [chars[p]], previous, z);
      TakenFirst(chars, best, p, rest, z);
      if ClassTaken(c, chars, rest, p + 1, z) {
        var y :| p + 1 <= y < z && y !in rest && chars[y] != BLANK && c.combining(chars[y]) == c.combining(chars[z]);
        assert y !in ps;
      }
    }
  }

  lemma TakenFirst(chars: seq<nat>, best: seq<nat>, p: nat, rest: seq<nat>, z: nat)
    requires p < z && p < |chars|
    ensures best + Taken(chars, Before([p] + rest, z)) == best + [chars[p]] + Taken(chars, Before(rest, z))
  {
    assert ([p] + rest)[1..] == rest;
    var b := Before([p] + rest, z);
    assert b == [p] + Before(rest, z) && b[1..] == Before(rest, z);
  }

  /** Marks are absorbed whenever nothing forbids it. */
  lemma {:induction false} AbsorbsAll(c: Collator, chars: seq<nat>, long: bool, p: nat, best: seq<nat>, previous: nat)
    requires p <= |chars|
    ensures AllRefused(c, chars, long, Absorb(c, chars, long, p, best, previous).positions, p, best, previous)
    decreases |chars| - p
  {
    var ps := Absorb(c, chars, long, p, best, previous).positions;
    AbsorbTakes(c, chars, long, p, best, previous);
    if p < |chars| {
      if chars[p] == BLANK {
        AbsorbsAll(c, chars, long, p + 1, best, previous);
        SkipRefuses(c, chars, long, ps, p, best, previous);
      } else if c.combining(chars[p]) != 0 {
        if c.combining(chars[p]) != previous && Accepts(c, long, best + [chars[p]]) {
          AbsorbsAll(c, chars, long, p + 1, best + [chars[p]], previous);
          TakeRefuses(c, chars, long, ps[1..], p, best, previous);
          assert ps == [p] + ps[1..];
        } else {
          AbsorbsAll(c, chars, long, p + 1, best, c.combining(chars[p]));
          AbsorbTakes(c, chars, long, p + 1, best, c.combining(chars[p]));
          PassRefuses(c, chars, long, ps, p, best, previous);
        }
      }
    }
  }

  // ----- What a match is -----

  lemma {:induction false} ShortFound(c: Collator, chars: seq<nat>, p: nat, best: seq<nat>, previous: nat)
    ensures var r := Absorb(c, chars, false, p, best, previous); r.positions != [] ==> Find(c, r.best).Some?
    decreases |chars| - p
  {
    if p < |chars| {
      if chars[p] == BLANK {
        ShortFound(c, chars, p + 1, best, previous);
      } else if c.combining(chars[p]) != 0 {
        if c.combining(chars[p]) != previous && Accepts(c, false, best + [chars[p]]) {
          ShortFound(c, chars, p + 1, best + [chars[p]], previous);
          NoneAbsorbed(c, chars, false, p + 1, best + [chars[p]], previous);
        } else {
          ShortFound(c, chars, p + 1, best, c.combining(chars[p]));
        }
      }
    }
  }

  lemma NoneAbsorbed(c: Collator, chars: seq<nat>, long: bool, p: nat, best: seq<nat>, previous: nat)
    ensures var r := Absorb(c, chars, long, p, best, previous); r.positions == [] ==> r.best == best
  {
    AbsorbTakes(c, chars, long, p, best, previous);
    assert best + Taken(chars, []) == best;
  }

  /**
   What a match looks up has a row, unless it is a single code point with what its text has left. Marks are
   absorbed only where that is switched on, over rows that lead further where `long` is and a row is reached
   that way, and over rows alone otherwise.
   */
  lemma MatchExact(c: Collator, chars: seq<nat>, i: nat)
    requires i < |chars| && chars[i] != BLANK
    ensures var m := MatchAt(c, chars, i);
            var short := Absorb(c, chars, false, m.end, Alive(chars, i, m.end), 0);
            var long := Absorb(c, chars, true, m.end, Alive(chars, i, m.end), 0);
            && (m.absorbed != [] ==> Find(c, m.best).Some?)
            && (!c.discontiguous ==> m.absorbed == [])
            && (c.discontiguous && Cutoff(c, chars[i]) > 1 ==>
                 m.absorbed == if c.long && long.positions != [] && Find(c, long.best).Some? then long.positions
                               else short.positions)
  {
    var end := ContiguousEnd(c, chars, i, |chars|);
    ShortFound(c, chars, end, Alive(chars, i, end), 0);
  }

  lemma {:induction false} NothingToExtend(c: Collator, chars: seq<nat>, p: nat, best: seq<nat>, previous: nat)
    requires forall x :: Find(c, best + [x]) == None
    ensures Absorb(c, chars, false, p, best, previous) == Absorbed(best, [])
    decreases |chars| - p
  {
    if p < |chars| {
      if chars[p] == BLANK {
        NothingToExtend(c, chars, p + 1, best, previous);
      } else if c.combining(chars[p]) != 0 {
        NothingToExtend(c, chars, p + 1, best, c.combining(chars[p]));
      }
    }
  }

  /** Where no row is longer than one code point, absorbing over rows would take no mark: leaving it out loses nothing. */
  lemma CutoffLosesNothing(c: Collator, chars: seq<nat>, i: nat)
    requires i < |chars| && chars[i] != BLANK && Cutoff(c, chars[i]) == 1
    ensures var m := MatchAt(c, chars, i);
            Absorb(c, chars, false, m.end, Alive(chars, i, m.end), 0).positions == [] == m.absorbed
  {
    var m := MatchAt(c, chars, i);
    var best := Alive(chars, i, m.end);
    AliveFirst(chars, i, m.end);
    forall x ensures Find(c, best + [x]) == None {
      BeyondCutoff(c, best + [x]);
    }
    NothingToExtend(c, chars, m.end, best, 0);
  }
}

/**
 When rule S2.1 of UTS 10 holds (`elements`, crates/tex-biber/src/collation.rs): a text whose marks no
 table makes the loop absorb over marks that block them, and the table that does for any other text.
 */
module BlockedMarks {
  import opened Wrappers
  import opened CanonicalOrder
  import opened Lexicographic
  import opened SortKeys
  import opened CollationTables
  import opened Contractions
  import opened CollationSteps

  // ----- A mark that should not pass -----

  /** Position `z` holds a mark of a smaller class than the one left directly before it, at `b`. */
  predicate Descent(cls: nat -> nat, chars: seq<nat>, b: nat, z: nat) {
    && b < z < |chars| && chars[b] != BLANK && chars[z] != BLANK && AllBlank(chars, b + 1, z)
    && 0 < cls(chars[z]) < cls(chars[b])
  }

  predicate AllBlank(chars: seq<nat>, from: nat, upto: nat) {
    forall q :: from <= q < upto && q < |chars| ==> chars[q] == BLANK
  }

  lemma {:induction false} AliveBlank(chars: seq<nat>, from: nat, upto: nat)
    requires upto <= |chars| && AllBlank(chars, from, upto)
    ensures Alive(chars, from, upto) == []
    decreases upto
  {
    if from < upto {
      AliveBlank(chars, from, upto - 1);
    }
  }

  lemma {:induction false} LastAlive(chars: seq<nat>, from: nat, upto: nat) returns (b: nat)
    requires upto <= |chars| && Alive(chars, from, upto) != []
    ensures from <= b < upto && chars[b] != BLANK && AllBlank(chars, b + 1, upto)
    ensures Alive(chars, from, upto)[|Alive(chars, from, upto)| - 1] == chars[b]
    decreases upto
  {
    if chars[upto - 1] == BLANK {
      assert Alive(chars, from, upto) == Alive(chars, from, upto - 1);
      b := LastAlive(chars, from, upto - 1);
    } else {
      b := upto - 1;
    }
  }

  lemma OrderedBreaks(cls: nat -> nat, s: seq<nat>, x: nat)
    requires Ordered(cls, s) && !Ordered(cls, s + [x])
    ensures s != [] && 0 < cls(x) < cls(s[|s| - 1])
  {
    var t := s + [x];
    var i :| 0 < i < |t| && !(cls(t[i]) == 0 || cls(t[i - 1]) <= cls(t[i]));
    assert i < |s| ==> t[i] == s[i] && t[i - 1] == s[i - 1];
  }

  lemma {:induction false} FindDescent(cls: nat -> nat, chars: seq<nat>, from: nat, upto: nat) returns (b: nat, z: nat)
    requires upto <= |chars| && !Ordered(cls, Alive(chars, from, upto))
    ensures from <= b && Descent(cls, chars, b, z)
    decreases upto
  {
    var before := Alive(chars, from, upto - 1);
    if chars[upto - 1] == BLANK {
      assert Alive(chars, from, upto) == before;
      b, z := FindDescent(cls, chars, from, upto - 1);
    } else if !Ordered(cls, before) {
      b, z := FindDescent(cls, chars, from, upto - 1);
    } else {
      OrderedBreaks(cls, before, chars[upto - 1]);
      b := LastAlive(chars, from, upto - 1);
      z := upto - 1;
    }
  }

  // ----- The table that lets it pass -----

  predicate LeavesOut(c: Collator, text: seq<nat>, cp: nat) {
    cp in text && Ignorable(c, cp)
  }

  /** Rows without elements for the code points left out of a text, from `k` to below `n`. */
  function LeftOutRows(c: Collator, text: seq<nat>, k: nat, n: nat): (t: Table)
    ensures forall i :: 0 <= i < |t| ==> |t[i].sequence| == 1 && k <= t[i].sequence[0] < n
    decreases n - k
  {
    if k >= n then []
    else (if LeavesOut(c, text, k) then [Row([k], [])] else []) + LeftOutRows(c, text, k + 1, n)
  }

  lemma SinglesBelow(a: seq<nat>, b: seq<nat>)
    requires |a| == |b| == 1 && a[0] < b[0]
    ensures Compare(a, b) == Less
  {
  }

  lemma {:induction false} LeftOutRowsSorted(c: Collator, text: seq<nat>, k: nat, n: nat)
    ensures Sorted(LeftOutRows(c, text, k, n))
    decreases n - k
  {
    if k < n {
      var t, rest := LeftOutRows(c, text, k, n), LeftOutRows(c, text, k + 1, n);
      LeftOutRowsSorted(c, text, k + 1, n);
      if LeavesOut(c, text, k) {
        forall j | 0 < j < |t| ensures Compare(t[0].sequence, t[j].sequence) == Less {
          assert t[j] == rest[j - 1];
          SinglesBelow(t[0].sequence, t[j].sequence);
        }
        assert forall j :: 0 < j < |t| ==> t[j] == rest[j - 1];
      } else {
        assert t == rest;
      }
    }
  }

  /** What the rows from `k` to below `n` hold for `s`. */
  function LeftOutRow(c: Collator, text: seq<nat>, k: nat, n: nat, s: seq<nat>): Option<seq<Element>> {
    if |s| == 1 && k <= s[0] < n && LeavesOut(c, text, s[0]) then Some([]) else None
  }

  lemma NextLeftOut(c: Collator, text: seq<nat>, k: nat, n: nat, s: seq<nat>)
    requires k < n
    ensures LeftOutRow(c, text, k, n, s)
            == if s == [k] && LeavesOut(c, text, k) then Some([]) else LeftOutRow(c, text, k + 1, n, s)
  {
  }

  lemma {:induction false} LeftOutRowsExact(c: Collator, text: seq<nat>, k: nat, n: nat, s: seq<nat>)
    ensures Lookup(LeftOutRows(c, text, k, n), s) == LeftOutRow(c, text, k, n, s)
    decreases n - k
  {
    if k < n {
      LeftOutRowsExact(c, text, k + 1, n, s);
      NextLeftOut(c, text, k, n, s);
      if LeavesOut(c, text, k) {
        LookupBehind(Row([k], []), LeftOutRows(c, text, k + 1, n), s);
      } else {
        NoRow(LeftOutRows(c, text, k + 1, n));
      }
    }
  }

  lemma NoRow(t: Table)
    ensures [] + t == t
  {
  }

  lemma LookupBehind(row: Row, rest: Table, s: seq<nat>)
    ensures Lookup([row] + rest, s) == if row.sequence == s then Some(row.elements) else Lookup(rest, s)
  {
    assert ([row] + rest)[1..] == rest;
  }

  const ONE := [Element(1, 1, 1, 1, 0)]

  /** A number above all code points of the text. */
  function Above(text: seq<nat>): (n: nat)
    ensures forall cp :: cp in text ==> cp < n
  {
    if text == [] then 0
    else
      assert forall cp :: cp in text ==> cp == text[0] || cp in text[1..];
      var n := Above(text[1..]);
      if text[0] < n then n else text[0] + 1
  }

  /** `c` with a contraction of `p` and mark `x`, and the code points left out of the text. */
  function Contracting(c: Collator, text: seq<nat>, p: seq<nat>, x: nat): Collator {
    c.(table := [Row(p, ONE), Row(p + [x], ONE)], ducet := LeftOutRows(c, text, 0, Above(text)), cjk := [],
       suppress := {}, discontiguous := true, long := false)
  }

  lemma ContractingFinds(c: Collator, text: seq<nat>, p: seq<nat>, x: nat, s: seq<nat>)
    ensures Find(Contracting(c, text, p, x), s)
            == if s == p || s == p + [x] then Some(ONE)
               else if |s| == 1 && LeavesOut(c, text, s[0]) then Some([])
               else None
  {
    var d := Contracting(c, text, p, x);
    LeftOutRowsExact(c, text, 0, Above(text), s);
    assert Lookup(d.table, s) == if s == p then Some(ONE) else Lookup(d.table[1..], s);
    assert Lookup(d.table[1..], s) == if s == p + [x] then Some(ONE) else Lookup(d.table[1..][1..], s);
    assert Lookup(d.table[1..][1..], s) == None;
    assert Lookup(d.cjk, s) == None;
  }

  lemma ContractingValid(c: Collator, text: seq<nat>, p: seq<nat>, x: nat)
    requires p != []
    ensures Contracting(c, text, p, x).Valid()
  {
    LeftOutRowsSorted(c, text, 0, Above(text));
    assert Extends(p + [x], p);
    ExtensionAbove(p + [x], p);
    CompareReverse(p, p + [x]);
  }

  lemma ContractingPrepares(c: Collator, text: seq<nat>, p: seq<nat>, x: nat)
    requires IsText(text) && p != [] && !Ignorable(c, p[0])
    ensures Prepared(Contracting(c, text, p, x), text) == Prepared(c, text)
  {
    var d := Contracting(c, text, p, x);
    forall q | 0 <= q < |text| ensures Ignorable(d, text[q]) <==> Ignorable(c, text[q]) {
      ContractingFinds(c, text, p, x, [text[q]]);
      assert [text[q]] == p ==> p[0] == text[q];
    }
  }

  // ----- The first match lets it pass -----

  /** Beyond single code points, `d` has the contraction of `p` and `x` alone. */
  ghost predicate Contracts(d: Collator, p: seq<nat>, x: nat) {
    && p != [] && Find(d, p).Some? && Find(d, p + [x]).Some?
    && forall s :: |s| > 1 && s != p && s != p + [x] ==> Find(d, s) == None
  }

  lemma ContractingContracts(c: Collator, text: seq<nat>, p: seq<nat>, x: nat)
    requires p != []
    ensures Contracts(Contracting(c, text, p, x), p, x)
  {
    var d := Contracting(c, text, p, x);
    ContractingFinds(c, text, p, x, p);
    ContractingFinds(c, text, p, x, p + [x]);
    forall s | |s| > 1 && s != p && s != p + [x] ensures Find(d, s) == None {
      ContractingFinds(c, text, p, x, s);
    }
  }

  lemma FoundPast(d: Collator, p: seq<nat>, x: nat, more: seq<nat>)
    requires Contracts(d, p, x) && more != [] && more[0] != x
    ensures Find(d, p + more) == None
  {
    var s := p + more;
    assert s[|p|] == more[0] && (p + [x])[|p|] == x;
    assert |s| > |p|;
  }

  lemma NoMatchPast(d: Collator, chars: seq<nat>, i: nat, b: nat, p: seq<nat>, x: nat, end: nat)
    requires i < b < end <= |chars| && p == Alive(chars, i, b) && Contracts(d, p, x)
    requires chars[b] != BLANK && chars[b] != x
    ensures !MatchEnds(d, chars, i, end)
  {
    AliveSplit(chars, i, b, end);
    AliveFirst(chars, b, end);
    FoundPast(d, p, x, Alive(chars, b, end));
  }

  /** The end of what is left before `b`. */
  lemma EndOfAlive(chars: seq<nat>, i: nat, b: nat) returns (end: nat)
    requires i < b <= |chars| && chars[i] != BLANK
    ensures i < end <= b && chars[end - 1] != BLANK && AllBlank(chars, end, b)
    ensures Alive(chars, i, end) == Alive(chars, i, b)
  {
    AliveFirst(chars, i, b);
    var last := LastAlive(chars, i, b);
    end := last + 1;
    AliveSplit(chars, i, end, b);
    AliveBlank(chars, end, b);
    assert Alive(chars, i, end) + [] == Alive(chars, i, end);
  }

  /** A match that ends at `end` is the longest if none ends later. */
  lemma LongestAt(d: Collator, chars: seq<nat>, i: nat, end: nat)
    requires i < end <= |chars| && MatchEnds(d, chars, i, end) && NoneMatches(d, chars, i, end, |chars|)
    ensures ContiguousEnd(d, chars, i, |chars|) == end
  {
    ContiguousEndLongest(d, chars, i, |chars|);
  }

  /** The contiguous match is `p`, and ends before `b`. */
  lemma EndsBefore(d: Collator, chars: seq<nat>, i: nat, b: nat, p: seq<nat>, x: nat)
    requires i < b < |chars| && p == Alive(chars, i, b) && Contracts(d, p, x)
    requires chars[i] != BLANK && chars[b] != BLANK && chars[b] != x
    ensures var end := ContiguousEnd(d, chars, i, |chars|);
            i < end <= b && Alive(chars, i, end) == p && AllBlank(chars, end, b)
  {
    var end := EndOfAlive(chars, i, b);
    forall q | end < q <= |chars| ensures !MatchEnds(d, chars, i, q) {
      if q <= b {
        assert chars[q - 1] == BLANK;
      } else {
        NoMatchPast(d, chars, i, b, p, x, q);
      }
    }
    LongestAt(d, chars, i, end);
  }

  lemma {:induction false} AbsorbSkips(
    d: Collator, chars: seq<nat>, p: nat, q: nat, best: seq<nat>, previous: nat)
    requires p <= q <= |chars| && AllBlank(chars, p, q)
    ensures Absorb(d, chars, false, p, best, previous) == Absorb(d, chars, false, q, best, previous)
    decreases q - p
  {
    if p < q {
      AbsorbSkips(d, chars, p + 1, q, best, previous);
    }
  }

  /** The mark at `b` is passed, and the one at `z` absorbed over it. */
  lemma AbsorbsOver(d: Collator, chars: seq<nat>, end: nat, b: nat, z: nat, p: seq<nat>)
    requires Descent(d.combining, chars, b, z) && end <= b && AllBlank(chars, end, b)
    requires Contracts(d, p, chars[z])
    ensures var ps := Absorb(d, chars, false, end, p, 0).positions; ps != [] && ps[0] == z
  {
    var x := chars[z];
    AbsorbSkips(d, chars, end, b, p, 0);
    FoundPast(d, p, x, [chars[b]]);
    AbsorbSkips(d, chars, b + 1, z, p, d.combining(chars[b]));
    assert Absorb(d, chars, false, b, p, 0) == Absorb(d, chars, false, b + 1, p, d.combining(chars[b]));
    assert Accepts(d, false, p + [x]);
  }

  /** What the first match takes in a text with a descent behind its start. */
  ghost predicate TakesOver(s: Step, b: nat, z: nat) {
    s.Matched? && s.end <= b && z in s.absorbed && b !in s.absorbed
  }

  lemma MatchTakesOver(d: Collator, chars: seq<nat>, i: nat, b: nat, z: nat, p: seq<nat>)
    requires i < b && Descent(d.combining, chars, b, z) && chars[i] != BLANK
    requires p == Alive(chars, i, b) && Contracts(d, p, chars[z])
    requires d.discontiguous && !d.long && Cutoff(d, chars[i]) > 1
    ensures TakesOver(StepOf(chars, MatchAt(d, chars, i)), b, z)
  {
    var m := MatchAt(d, chars, i);
    EndsBefore(d, chars, i, b, p, chars[z]);
    AbsorbsOver(d, chars, m.end, b, z, p);
    MatchTakes(d, chars, i);
    assert m.absorbed[0] == z;
    if b in m.absorbed {
      RisingOnce(chars, z + 1, m.absorbed[1..], b);
    }
  }

  lemma TakenOverBlocked(d: Collator, text: seq<nat>, gone: set<nat>, s: Step, b: nat, z: nat)
    requires TakesOver(s, b, z) && b < z < |text| && b !in gone && d.combining(text[z]) < d.combining(text[b])
    ensures !StepUnblocked(d, text, gone, s)
  {
    assert !MarkUnblocked(d, text, gone, s, z);
  }

  lemma ContractingCutoff(c: Collator, text: seq<nat>, p: seq<nat>, x: nat)
    requires p != []
    ensures Cutoff(Contracting(c, text, p, x), p[0]) > 1
  {
    var d := Contracting(c, text, p, x);
    assert d.table[1].sequence == p + [x] && (p + [x])[0] == p[0];
    MaxLenExact(d.table, p[0]);
  }

  /** Steps that pass over what is before the first match leave what is behind it. */
  lemma {:induction false} PassedUnblocked(d: Collator, text: seq<nat>, chars: seq<nat>, i: nat, gone: set<nat>)
    returns (later: set<nat>)
    requires FirstMatched(d, chars, i) < |chars|
    ensures AllUnblocked(d, text, gone, Steps(d, chars, i)) ==>
              AllUnblocked(d, text, later, Steps(d, chars, FirstMatched(d, chars, i)))
    ensures forall b :: b >= FirstMatched(d, chars, i) && b !in gone ==> b !in later
    decreases |chars| - i
  {
    if i < |chars| && chars[i] == BLANK {
      later := PassedUnblocked(d, text, chars, i + 1, gone);
    } else if i < |chars| && Passes(d, chars[i]) {
      later := PassedUnblocked(d, text, chars, i + 1, With(gone, Passed(i)));
      assert ([Passed(i)] + Steps(d, chars, i + 1))[1..] == Steps(d, chars, i + 1);
    } else {
      later := gone;
    }
  }

  // ----- The condition -----

  /** Collators that see the same text: they differ in their tables alone. */
  ghost predicate Alike(c: Collator, d: Collator, text: seq<nat>) {
    d.combining == c.combining && d.version == c.version && Prepared(d, text) == Prepared(c, text)
  }

  ghost predicate RuleHolds(d: Collator, text: seq<nat>) {
    AllUnblocked(d, text, LeftOut(d, text), TextSteps(d, text))
  }

  lemma DescentBreaksRule(c: Collator, text: seq<nat>, b: nat, z: nat) returns (d: Collator)
    requires IsText(text)
    requires var chars := Prepared(c, text);
             FirstMatched(c, chars, 0) < b && Descent(c.combining, chars, b, z)
    ensures d.Valid() && Alike(c, d, text) && !RuleHolds(d, text)
  {
    var chars := Prepared(c, text);
    var first := FirstMatched(c, chars, 0);
    var p := Alive(chars, first, b);
    AliveFirst(chars, first, b);
    d := Contracting(c, text, p, chars[z]);
    ContractingValid(c, text, p, chars[z]);
    ContractingPrepares(c, text, p, chars[z]);
    ContractingContracts(c, text, p, chars[z]);
    ContractingCutoff(c, text, p, chars[z]);
    SameFirst(c, d, chars, 0);
    MatchTakesOver(d, chars, first, b, z, p);
    FirstBreaksRule(d, text, b, z);
  }

  lemma {:induction false} SameFirst(c: Collator, d: Collator, chars: seq<nat>, i: nat)
    requires d.version == c.version
    ensures FirstMatched(d, chars, i) == FirstMatched(c, chars, i)
    decreases |chars| - i
  {
    if i < |chars| {
      SameFirst(c, d, chars, i + 1);
    }
  }

  /** The rule fails if the first match takes a mark over a larger one. */
  lemma FirstBreaksRule(d: Collator, text: seq<nat>, b: nat, z: nat)
    requires IsText(text)
    requires var chars := Prepared(d, text);
             var first := FirstMatched(d, chars, 0);
             && first < b && Descent(d.combining, chars, b, z)
             && TakesOver(StepOf(chars, MatchAt(d, chars, first)), b, z)
    ensures !RuleHolds(d, text)
  {
    var chars := Prepared(d, text);
    var first := FirstMatched(d, chars, 0);
    var m := MatchAt(d, chars, first);
    var gone := PassedUnblocked(d, text, chars, 0, LeftOut(d, text));
    assert b !in LeftOut(d, text);
    TakenOverBlocked(d, text, gone, StepOf(chars, m), b, z);
    FirstOf(StepOf(chars, m), Steps(d, Blank(chars, m.absorbed), m.end));
  }

  lemma FirstOf(s: Step, rest: seq<Step>)
    ensures ([s] + rest)[0] == s
  {
  }

  /**
   Exactly when rule S2.1 holds whatever the rows of the tables are: what is left of the text behind the
   code point with which the first match starts is in canonical order.
   */
  lemma RuleHoldsExact(c: Collator, text: seq<nat>)
    requires IsText(text)
    ensures (forall d: Collator :: d.Valid() && Alike(c, d, text) ==> RuleHolds(d, text))
            <==> Ordered(c.combining, BehindFirst(c, text))
  {
    var chars := Prepared(c, text);
    if Ordered(c.combining, BehindFirst(c, text)) {
      forall d: Collator | d.Valid() && Alike(c, d, text) ensures RuleHolds(d, text) {
        SameFirst(c, d, chars, 0);
        EveryStepUnblocked(d, text);
      }
    } else {
      var b, z := FindDescent(c.combining, chars, FirstMatched(c, chars, 0) + 1, |text|);
      var d := DescentBreaksRule(c, text, b, z);
    }
  }

  // ----- A starter left out -----

  /** A collator of version 9 whose table has rows for 1, for 1 with mark 4, and an ignorable starter 2. */
  ghost predicate LeavesOutTwo(c: Collator, e: seq<Element>) {
    && c.version == 9 && c.discontiguous && !c.long && e != []
    && c.table == [Row([1], e), Row([1, 4], e), Row([2], [])] && c.ducet == [] && c.cjk == []
    && c.combining(1) == 0 && c.combining(2) == 0 && c.combining(3) == 230 && c.combining(4) == 220
  }

  lemma FindInThree(c: Collator, e: seq<Element>, s: seq<nat>)
    requires LeavesOutTwo(c, e)
    ensures Find(c, s) == if s == [1] || s == [1, 4] then Some(e) else if s == [2] then Some([]) else None
  {
    var t := c.table;
    assert Lookup(t, s) == if s == [1] then Some(e) else Lookup(t[1..], s);
    assert Lookup(t[1..], s) == if s == [1, 4] then Some(e) else Lookup(t[1..][1..], s);
    assert Lookup(t[1..][1..], s) == if s == [2] then Some([]) else Lookup(t[1..][1..][1..], s);
  }

  lemma TwoContracts(c: Collator, e: seq<Element>)
    requires LeavesOutTwo(c, e)
    ensures Contracts(c, [1], 4) && Cutoff(c, 1) > 1
  {
    assert [1] + [4] == [1, 4];
    FindInThree(c, e, [1]);
    FindInThree(c, e, [1, 4]);
    forall s: seq<nat> | |s| > 1 && s != [1] && s != [1] + [4] ensures Find(c, s) == None {
      FindInThree(c, e, s);
    }
    assert c.table[1].sequence == [1, 4];
    MaxLenExact(c.table, 1);
  }

  lemma TwoPrepared(c: Collator, e: seq<Element>, text: seq<nat>)
    requires LeavesOutTwo(c, e) && text == [1, 3, 2, 4]
    ensures Prepared(c, text) == [1, 3, BLANK, 4]
  {
    FindInThree(c, e, [1]);
    FindInThree(c, e, [2]);
    FindInThree(c, e, [3]);
    FindInThree(c, e, [4]);
    assert !Ignorable(c, text[0]) && !Ignorable(c, text[1]) && Ignorable(c, text[2]) && !Ignorable(c, text[3]);
  }

  lemma TwoTakesOver(c: Collator, e: seq<Element>, chars: seq<nat>)
    requires LeavesOutTwo(c, e) && chars == [1, 3, BLANK, 4]
    ensures Descent(c.combining, chars, 1, 3) && TakesOver(StepOf(chars, MatchAt(c, chars, 0)), 1, 3)
  {
    TwoContracts(c, e);
    assert Alive(chars, 0, 0) == [] && Alive(chars, 0, 1) == [1];
    MatchTakesOver(c, chars, 0, 1, 3, [1]);
  }

  lemma MatchesFirst(c: Collator, chars: seq<nat>)
    requires chars != [] && chars[0] != BLANK && !Passes(c, chars[0])
    ensures FirstMatched(c, chars, 0) == 0
  {
  }

  /** With starter 2 left out, mark 4 is absorbed over mark 3, of a larger class, in text in canonical order. */
  lemma LeftOutUnblocks(c: Collator, e: seq<Element>, text: seq<nat>)
    requires LeavesOutTwo(c, e) && text == [1, 3, 2, 4]
    ensures Ordered(c.combining, text) && !RuleHolds(c, text)
  {
    TwoPrepared(c, e, text);
    TwoTakesOver(c, e, Prepared(c, text));
    MatchesFirst(c, Prepared(c, text));
    FirstBreaksRule(c, text, 1, 3);
  }
}

/**
 The depth-first traversal of the references between entries as a function of its state (`inherit` and `visit`,
 crates/tex-biber/src/bib.rs), on every graph, and what it reports.
 */
module Traversal {
  import opened Wrappers
  import opened Graphs
  import opened Inheritance

  /** What is reported: a reference of entry `i` to nothing, or one that leads back to an entry under way. */
  datatype Note = Missing(i: nat, field: string, key: string) | Cyclic(i: nat)

  /** The entries as they are, those under way, those finished, in order, and what has been reported. */
  datatype Progress = Progress(entries: seq<Entry>, active: set<nat>, finished: seq<nat>, notes: seq<Note>)

  ghost predicate Sane(index: Index, p: Progress) {
    IndexInto(index, |p.entries|) && p.active <= Upto(|p.entries|)
  }

  ghost function VisitOne(c: Control, index: Index, p: Progress, i: nat): (r: Progress)
    requires Sane(index, p) && i < |p.entries|
    ensures |r.entries| == |p.entries| && r.active == p.active
    decreases Upto(|p.entries|) - p.active, 0, 0
  {
    if i in p.finished then p
    else if i in p.active then p.(notes := p.notes + [Cyclic(i)])
    else
      var q := FollowAll(c, index, p.(active := p.active + {i}), i, References(p.entries[i]));
      q.(entries := q.entries[i := Done(q.entries[i])], active := p.active, finished := q.finished + [i])
  }

  ghost function Refer(c: Control, index: Index, p: Progress, i: nat, r: Reference): (q: Progress)
    requires Sane(index, p) && i < |p.entries|
    ensures |q.entries| == |p.entries| && q.active == p.active
    decreases Upto(|p.entries|) - p.active, 1, 0
  {
    if r.1 !in index then
      if r.0 == "xdata" then p.(entries := p.entries[i := Step(c, p.entries[i], r, None)])
      else p.(notes := p.notes + [Missing(i, r.0, r.1)])
    else if index[r.1] in p.active then p.(notes := p.notes + [Cyclic(i)])
    else
      var q := VisitOne(c, index, p, index[r.1]);
      q.(entries := q.entries[i := Step(c, q.entries[i], r, Some(q.entries[index[r.1]]))])
  }

  ghost function FollowAll(c: Control, index: Index, p: Progress, i: nat, refs: seq<Reference>): (q: Progress)
    requires Sane(index, p) && i < |p.entries|
    ensures |q.entries| == |p.entries| && q.active == p.active
    decreases Upto(|p.entries|) - p.active, 2, |refs|
  {
    if refs == [] then p else FollowAll(c, index, Refer(c, index, p, i, refs[0]), i, refs[1..])
  }

  /** The entries before `n`, one after another. */
  ghost function VisitUpTo(c: Control, index: Index, p: Progress, n: nat): (r: Progress)
    requires Sane(index, p) && n <= |p.entries|
    ensures |r.entries| == |p.entries| && r.active == p.active
  {
    if n == 0 then p else VisitOne(c, index, VisitUpTo(c, index, p, n - 1), n - 1)
  }

  // ----- What stays -----

  /** From `p` to `q` only entries that finish in between change, and what was finished and reported stays. */
  ghost predicate Later(p: Progress, q: Progress) {
    && |q.entries| == |p.entries| && p.finished <= q.finished && p.notes <= q.notes
    && forall k :: 0 <= k < |p.entries| && (k in p.finished || k !in q.finished) ==> q.entries[k] == p.entries[k]
  }

  /** As `Later`, while entry `i` is under way. */
  ghost predicate LaterAround(i: nat, p: Progress, q: Progress) {
    && |q.entries| == |p.entries| && p.finished <= q.finished && p.notes <= q.notes
    && forall k :: 0 <= k < |p.entries| && k != i && (k in p.finished || k !in q.finished) ==>
         q.entries[k] == p.entries[k]
  }

  ghost predicate ActiveUnfinished(p: Progress) {
    forall k :: k in p.active ==> k !in p.finished
  }

  lemma {:induction false} VisitLater(c: Control, index: Index, p: Progress, i: nat)
    requires Sane(index, p) && i < |p.entries| && ActiveUnfinished(p)
    ensures var q := VisitOne(c, index, p, i); Later(p, q) && ActiveUnfinished(q) && (i in q.finished || i in p.active)
    decreases Upto(|p.entries|) - p.active, 0, 0
  {
    if i !in p.finished && i !in p.active {
      FollowLater(c, index, p.(active := p.active + {i}), i, References(p.entries[i]));
    }
  }

  lemma {:induction false} ReferLater(c: Control, index: Index, p: Progress, i: nat, r: Reference)
    requires Sane(index, p) && i < |p.entries| && ActiveUnfinished(p) && i in p.active
    ensures var q := Refer(c, index, p, i, r); LaterAround(i, p, q) && ActiveUnfinished(q)
    decreases Upto(|p.entries|) - p.active, 1, 0
  {
    if r.1 in index && index[r.1] !in p.active {
      VisitLater(c, index, p, index[r.1]);
    }
  }

  lemma {:induction false} FollowLater(c: Control, index: Index, p: Progress, i: nat, refs: seq<Reference>)
    requires Sane(index, p) && i < |p.entries| && ActiveUnfinished(p) && i in p.active
    ensures var q := FollowAll(c, index, p, i, refs); LaterAround(i, p, q) && ActiveUnfinished(q)
    decreases Upto(|p.entries|) - p.active, 2, |refs|
  {
    if refs != [] {
      var next := Refer(c, index, p, i, refs[0]);
      ReferLater(c, index, p, i, refs[0]);
      FollowLater(c, index, next, i, refs[1..]);
    }
  }

  // ----- References to nothing -----

  /** What is reported missing of entry `k`, in order. */
  function MissingBy(notes: seq<Note>, k: nat): seq<Reference> {
    if notes == [] then []
    else
      var last := notes[|notes| - 1];
      MissingBy(notes[..|notes| - 1], k) + if last.Missing? && last.i == k then [(last.field, last.key)] else []
  }

  /** The references to no entry, other than those of XDATA. */
  function Unknown(index: Index, refs: seq<Reference>): seq<Reference> {
    if refs == [] then []
    else (if refs[0].0 != "xdata" && refs[0].1 !in index then [refs[0]] else []) + Unknown(index, refs[1..])
  }

  lemma MissingMore(notes: seq<Note>, note: Note, k: nat)
    ensures MissingBy(notes + [note], k)
            == MissingBy(notes, k) + if note.Missing? && note.i == k then [(note.field, note.key)] else []
  {
    assert (notes + [note])[..|notes|] == notes;
  }

  /** Entries not yet entered are as they were. */
  ghost predicate FromStart(originals: seq<Entry>, p: Progress) {
    && |p.entries| == |originals| && ActiveUnfinished(p)
    && forall k :: 0 <= k < |originals| && k !in p.finished && k !in p.active ==> p.entries[k] == originals[k]
  }

  /** Finished entries have had all their missing references reported, and entries not entered none. */
  ghost predicate Reported(index: Index, originals: seq<Entry>, p: Progress) {
    forall k: nat :: k < |originals| ==> ReportedOf(index, originals, p, k)
  }

  ghost predicate ReportedOf(index: Index, originals: seq<Entry>, p: Progress, k: nat)
    requires k < |originals|
  {
    && (k in p.finished ==> MissingBy(p.notes, k) == Unknown(index, References(originals[k])))
    && (k !in p.finished && k !in p.active ==> MissingBy(p.notes, k) == [])
  }

  /** Nothing more is reported of the entries under way but `i`. */
  ghost predicate ActiveSilent(p: Progress, q: Progress, i: nat) {
    forall a :: a in p.active && a != i ==> MissingBy(q.notes, a) == MissingBy(p.notes, a)
  }

  lemma {:induction false} VisitReports(c: Control, index: Index, originals: seq<Entry>, p: Progress, i: nat)
    requires Sane(index, p) && i < |p.entries| && FromStart(originals, p) && Reported(index, originals, p)
    ensures var q := VisitOne(c, index, p, i);
            FromStart(originals, q) && Reported(index, originals, q) && ActiveSilent(p, q, |originals|)
    decreases Upto(|p.entries|) - p.active, 0, 0
  {
    VisitLater(c, index, p, i);
    if i in p.active {
      forall k: nat | k < |originals|
        ensures MissingBy(p.notes + [Cyclic(i)], k) == MissingBy(p.notes, k)
      {
        MissingMore(p.notes, Cyclic(i), k);
      }
      CyclicReported(index, originals, p, i);
    } else if i !in p.finished {
      var entered := p.(active := p.active + {i});
      assert ReportedOf(index, originals, p, i);
      EnteredReported(index, originals, p, i);
      FollowReports(c, index, originals, entered, i, References(p.entries[i]));
      var q := FollowAll(c, index, entered, i, References(p.entries[i]));
      FollowLater(c, index, entered, i, References(p.entries[i]));
      FinishedReported(c, index, originals, q, p.active, i);
    }
  }

  lemma CyclicReported(index: Index, originals: seq<Entry>, p: Progress, i: nat)
    requires FromStart(originals, p) && Reported(index, originals, p)
    ensures var q := p.(notes := p.notes + [Cyclic(i)]);
            Reported(index, originals, q) && ActiveSilent(p, q, |originals|) && FromStart(originals, q)
  {
    var q := p.(notes := p.notes + [Cyclic(i)]);
    forall k: nat | k < |originals| ensures ReportedOf(index, originals, q, k) {
      MissingMore(p.notes, Cyclic(i), k);
      assert ReportedOf(index, originals, p, k);
    }
    forall a | a in p.active && a != |originals| ensures MissingBy(q.notes, a) == MissingBy(p.notes, a) {
      MissingMore(p.notes, Cyclic(i), a);
    }
  }

  lemma EnteredReported(index: Index, originals: seq<Entry>, p: Progress, i: nat)
    requires FromStart(originals, p) && Reported(index, originals, p) && i < |originals|
    requires i !in p.finished && i !in p.active
    ensures var q := p.(active := p.active + {i});
            FromStart(originals, q) && Reported(index, originals, q) && MissingBy(q.notes, i) == []
  {
    var q := p.(active := p.active + {i});
    assert ReportedOf(index, originals, p, i);
    forall k: nat | k < |originals| ensures ReportedOf(index, originals, q, k) {
      assert ReportedOf(index, originals, p, k);
    }
  }

  lemma FinishedReported(
    c: Control, index: Index, originals: seq<Entry>, q: Progress, active: set<nat>, i: nat)
    requires FromStart(originals, q) && Reported(index, originals, q) && i < |originals|
    requires q.active == active + {i} && i !in active
    requires MissingBy(q.notes, i) == Unknown(index, References(originals[i]))
    ensures var r := Progress(q.entries[i := Done(q.entries[i])], active, q.finished + [i], q.notes);
            FromStart(originals, r) && Reported(index, originals, r)
  {
    var r := Progress(q.entries[i := Done(q.entries[i])], active, q.finished + [i], q.notes);
    forall k: nat | k < |originals| ensures ReportedOf(index, originals, r, k) {
      assert ReportedOf(index, originals, q, k);
    }
  }

  lemma MissingReported(index: Index, originals: seq<Entry>, p: Progress, i: nat, r: Reference)
    requires FromStart(originals, p) && Reported(index, originals, p) && i in p.active && i < |originals|
    ensures var q := p.(notes := p.notes + [Missing(i, r.0, r.1)]);
            && FromStart(originals, q) && Reported(index, originals, q) && ActiveSilent(p, q, i)
            && MissingBy(q.notes, i) == MissingBy(p.notes, i) + [r]
  {
    var q := p.(notes := p.notes + [Missing(i, r.0, r.1)]);
    forall k: nat ensures MissingBy(q.notes, k) == MissingBy(p.notes, k) + if k == i then [r] else [] {
      MissingMore(p.notes, Missing(i, r.0, r.1), k);
    }
    forall k: nat | k < |originals| ensures ReportedOf(index, originals, q, k) {
      assert ReportedOf(index, originals, p, k);
    }
  }

  lemma {:induction false} ReferReports(
    c: Control, index: Index, originals: seq<Entry>, p: Progress, i: nat, r: Reference)
    requires Sane(index, p) && i < |p.entries| && FromStart(originals, p) && Reported(index, originals, p)
    requires i in p.active
    ensures var q := Refer(c, index, p, i, r);
            && FromStart(originals, q) && Reported(index, originals, q) && ActiveSilent(p, q, i)
            && MissingBy(q.notes, i) == MissingBy(p.notes, i) + Unknown(index, [r])
    decreases Upto(|p.entries|) - p.active, 1, 0
  {
    assert [r][1..] == [] && Unknown(index, []) == [];
    if r.1 !in index {
      if r.0 == "xdata" {
        SetReported(index, originals, p, i, Step(c, p.entries[i], r, None));
      } else {
        MissingReported(index, originals, p, i, r);
      }
    } else if index[r.1] in p.active {
      CyclicReported(index, originals, p, i);
      MissingMore(p.notes, Cyclic(i), i);
    } else {
      var q := VisitOne(c, index, p, index[r.1]);
      VisitReports(c, index, originals, p, index[r.1]);
      SetReported(index, originals, q, i, Step(c, q.entries[i], r, Some(q.entries[index[r.1]])));
    }
  }

  lemma SetReported(index: Index, originals: seq<Entry>, p: Progress, i: nat, e: Entry)
    requires FromStart(originals, p) && Reported(index, originals, p) && i in p.active && i < |originals|
    ensures var q := p.(entries := p.entries[i := e]); FromStart(originals, q) && Reported(index, originals, q)
  {
    var q := p.(entries := p.entries[i := e]);
    forall k: nat | k < |originals| ensures ReportedOf(index, originals, q, k) {
      assert ReportedOf(index, originals, p, k);
    }
  }

  lemma {:induction false} FollowReports(
    c: Control, index: Index, originals: seq<Entry>, p: Progress, i: nat, refs: seq<Reference>)
    requires Sane(index, p) && i < |p.entries| && FromStart(originals, p) && Reported(index, originals, p)
    requires i in p.active
    ensures var q := FollowAll(c, index, p, i, refs);
            && FromStart(originals, q) && Reported(index, originals, q) && ActiveSilent(p, q, i)
            && MissingBy(q.notes, i) == MissingBy(p.notes, i) + Unknown(index, refs)
    decreases Upto(|p.entries|) - p.active, 2, |refs|
  {
    if refs == [] {
      assert MissingBy(p.notes, i) + [] == MissingBy(p.notes, i);
    } else {
      var next := Refer(c, index, p, i, refs[0]);
      ReferReports(c, index, originals, p, i, refs[0]);
      FollowReports(c, index, originals, next, i, refs[1..]);
      UnknownFirst(index, refs);
      var m, a, b := MissingBy(p.notes, i), Unknown(index, [refs[0]]), Unknown(index, refs[1..]);
      assert m + a + b == m + (a + b);
    }
  }

  lemma UnknownFirst(index: Index, refs: seq<Reference>)
    requires refs != []
    ensures Unknown(index, refs) == Unknown(index, [refs[0]]) + Unknown(index, refs[1..])
  {
    assert [refs[0]][1..] == [];
  }

  // ----- Cycles -----

  predicate NoCyclic(notes: seq<Note>) {
    forall n :: 0 <= n < |notes| ==> !notes[n].Cyclic?
  }

  /** Every reference of `refs` to an entry is to one of `finished`. */
  ghost predicate AllBefore(index: Index, refs: seq<Reference>, finished: seq<nat>) {
    forall r :: r in refs && r.1 in index ==> index[r.1] in finished
  }

  /** If no cycle has been reported, each entry finished after those it refers to. */
  ghost predicate InTurn(index: Index, originals: seq<Entry>, p: Progress) {
    && (forall n :: 0 <= n < |p.finished| ==> p.finished[n] < |originals|)
    && (NoCyclic(p.notes) ==>
         forall n :: 0 <= n < |p.finished| ==> AllBefore(index, References(originals[p.finished[n]]), p.finished[..n]))
  }

  lemma FewerNotes(p: Progress, q: Progress)
    requires p.notes <= q.notes && NoCyclic(q.notes)
    ensures NoCyclic(p.notes)
  {
    forall n | 0 <= n < |p.notes| ensures !p.notes[n].Cyclic? {
      assert p.notes[n] == q.notes[n];
    }
  }

  lemma FinishInTurn(index: Index, originals: seq<Entry>, q: Progress, i: nat)
    requires InTurn(index, originals, q) && i < |originals|
    requires NoCyclic(q.notes) ==> AllBefore(index, References(originals[i]), q.finished)
    ensures InTurn(index, originals, q.(finished := q.finished + [i]))
  {
    var f := q.finished + [i];
    if NoCyclic(q.notes) {
      forall n | 0 <= n < |f| ensures AllBefore(index, References(originals[f[n]]), f[..n]) {
        assert f[..n] == q.finished[..n];
        assert f[..|q.finished|] == q.finished && q.finished[..|q.finished|] == q.finished;
      }
    }
  }

  lemma {:induction false} VisitInTurn(c: Control, index: Index, originals: seq<Entry>, p: Progress, i: nat)
    requires Sane(index, p) && i < |p.entries| && FromStart(originals, p) && InTurn(index, originals, p)
    ensures InTurn(index, originals, VisitOne(c, index, p, i)) && FromStart(originals, VisitOne(c, index, p, i))
    decreases Upto(|p.entries|) - p.active, 0, 0
  {
    VisitLater(c, index, p, i);
    if i !in p.finished && i !in p.active {
      var entered := p.(active := p.active + {i});
      FollowInTurn(c, index, originals, entered, i, References(p.entries[i]));
      FollowLater(c, index, entered, i, References(p.entries[i]));
      FinishInTurn(index, originals, FollowAll(c, index, entered, i, References(p.entries[i])), i);
    } else if i in p.active {
      var q := p.(notes := p.notes + [Cyclic(i)]);
      assert q.notes[|p.notes|].Cyclic?;
    }
  }

  lemma {:induction false} ReferInTurn(
    c: Control, index: Index, originals: seq<Entry>, p: Progress, i: nat, r: Reference)
    requires Sane(index, p) && i < |p.entries| && FromStart(originals, p) && InTurn(index, originals, p)
    requires i in p.active
    ensures var q := Refer(c, index, p, i, r);
            && FromStart(originals, q) && InTurn(index, originals, q)
            && (NoCyclic(q.notes) && r.1 in index ==> index[r.1] in q.finished)
    decreases Upto(|p.entries|) - p.active, 1, 0
  {
    var q := Refer(c, index, p, i, r);
    if r.1 in index && index[r.1] !in p.active {
      VisitInTurn(c, index, originals, p, index[r.1]);
      VisitLater(c, index, p, index[r.1]);
    } else if r.1 in index {
      assert q.notes[|p.notes|].Cyclic?;
    } else {
      assert p.notes <= q.notes;
      if NoCyclic(q.notes) {
        FewerNotes(p, q);
      }
    }
  }

  lemma {:induction false} FollowInTurn(
    c: Control, index: Index, originals: seq<Entry>, p: Progress, i: nat, refs: seq<Reference>)
    requires Sane(index, p) && i < |p.entries| && FromStart(originals, p) && InTurn(index, originals, p)
    requires i in p.active
    ensures var q := FollowAll(c, index, p, i, refs);
            && FromStart(originals, q) && InTurn(index, originals, q)
            && (NoCyclic(q.notes) ==> AllBefore(index, refs, q.finished))
    decreases Upto(|p.entries|) - p.active, 2, |refs|
  {
    if refs != [] {
      var next := Refer(c, index, p, i, refs[0]);
      var q := FollowAll(c, index, p, i, refs);
      ReferInTurn(c, index, originals, p, i, refs[0]);
      FollowInTurn(c, index, originals, next, i, refs[1..]);
      ReferLater(c, index, p, i, refs[0]);
      FollowLater(c, index, next, i, refs[1..]);
      if NoCyclic(q.notes) {
        FewerNotes(next, q);
        forall r | r in refs && r.1 in index ensures index[r.1] in q.finished {
          if r in refs[1..] {
          } else {
            assert r == refs[0];
          }
        }
      }
    }
  }

  /** Entry `i` ranks below every entry under way, which it then is not. */
  ghost predicate RanksBelow(rank: seq<nat>, p: Progress, i: nat) {
    i < |rank| && forall a :: a in p.active ==> a < |rank| && rank[i] < rank[a]
  }

  ghost predicate RanksLowest(rank: seq<nat>, p: Progress, i: nat) {
    i < |rank| && i in p.active && forall a :: a in p.active && a != i ==> a < |rank| && rank[i] < rank[a]
  }

  /** `refs` are references of entry `i`. */
  ghost predicate RefersDown(index: Index, rank: seq<nat>, i: nat, refs: seq<Reference>)
    requires i < |rank|
  {
    forall r :: r in refs && r.1 in index ==> index[r.1] < |rank| && rank[index[r.1]] < rank[i]
  }

  lemma {:induction false} VisitAcyclic(
    c: Control, index: Index, originals: seq<Entry>, rank: seq<nat>, p: Progress, i: nat)
    requires Sane(index, p) && i < |p.entries| && FromStart(originals, p) && IsRank(index, originals, rank)
    requires RanksBelow(rank, p, i) && NoCyclic(p.notes)
    ensures NoCyclic(VisitOne(c, index, p, i).notes) && FromStart(originals, VisitOne(c, index, p, i))
    decreases Upto(|p.entries|) - p.active, 0, 0
  {
    VisitLater(c, index, p, i);
    if i !in p.finished {
      var entered := p.(active := p.active + {i});
      FollowAcyclic(c, index, originals, rank, entered, i, References(p.entries[i]));
      FollowLater(c, index, entered, i, References(p.entries[i]));
    }
  }

  lemma {:induction false} ReferAcyclic(
    c: Control, index: Index, originals: seq<Entry>, rank: seq<nat>, p: Progress, i: nat, r: Reference)
    requires Sane(index, p) && i < |p.entries| && FromStart(originals, p) && IsRank(index, originals, rank)
    requires RanksLowest(rank, p, i) && NoCyclic(p.notes) && RefersDown(index, rank, i, [r])
    ensures NoCyclic(Refer(c, index, p, i, r).notes) && FromStart(originals, Refer(c, index, p, i, r))
    decreases Upto(|p.entries|) - p.active, 1, 0
  {
    ReferLater(c, index, p, i, r);
    if r.1 in index {
      assert r in [r];
      VisitAcyclic(c, index, originals, rank, p, index[r.1]);
    }
  }

  lemma {:induction false} FollowAcyclic(
    c: Control, index: Index, originals: seq<Entry>, rank: seq<nat>, p: Progress, i: nat, refs: seq<Reference>)
    requires Sane(index, p) && i < |p.entries| && FromStart(originals, p) && IsRank(index, originals, rank)
    requires RanksLowest(rank, p, i) && NoCyclic(p.notes) && RefersDown(index, rank, i, refs)
    ensures NoCyclic(FollowAll(c, index, p, i, refs).notes) && FromStart(originals, FollowAll(c, index, p, i, refs))
    decreases Upto(|p.entries|) - p.active, 2, |refs|
  {
    if refs != [] {
      ReferAcyclic(c, index, originals, rank, p, i, refs[0]);
      FollowAcyclic(c, index, originals, rank, Refer(c, index, p, i, refs[0]), i, refs[1..]);
    }
  }

  // ----- The whole traversal -----

  function Start(entries: seq<Entry>): Progress {
    Progress(entries, {}, [], [])
  }

  ghost function Traversed(c: Control, index: Index, entries: seq<Entry>): Progress
    requires IndexInto(index, |entries|)
  {
    VisitUpTo(c, index, Start(entries), |entries|)
  }

  ghost predicate Sound(index: Index, originals: seq<Entry>, p: Progress) {
    FromStart(originals, p) && Reported(index, originals, p) && InTurn(index, originals, p) && p.active == {}
  }

  lemma VisitSound(c: Control, index: Index, originals: seq<Entry>, p: Progress, i: nat)
    requires IndexInto(index, |originals|) && i < |originals| && Sound(index, originals, p)
    ensures var q := VisitOne(c, index, p, i); Sound(index, originals, q) && i in q.finished && p.finished <= q.finished
  {
    VisitLater(c, index, p, i);
    VisitReports(c, index, originals, p, i);
    VisitInTurn(c, index, originals, p, i);
  }

  lemma StartSound(index: Index, entries: seq<Entry>)
    ensures Sound(index, entries, Start(entries))
  {
    forall k: nat | k < |entries| ensures ReportedOf(index, entries, Start(entries), k) {
    }
  }

  /** What each visit keeps, the traversal keeps. */
  lemma {:induction false} KeptUpTo(
    c: Control, index: Index, entries: seq<Entry>, kept: (nat, Progress) -> bool, n: nat)
    requires IndexInto(index, |entries|) && n <= |entries| && kept(0, Start(entries))
    requires forall k: nat, p :: kept(k, p) ==> Sane(index, p) && |p.entries| == |entries|
    requires forall k: nat, p :: k < |entries| && kept(k, p) ==> kept(k + 1, VisitOne(c, index, p, k))
    ensures kept(n, VisitUpTo(c, index, Start(entries), n))
  {
    if n > 0 {
      KeptUpTo(c, index, entries, kept, n - 1);
    }
  }

  ghost predicate SoundAt(index: Index, entries: seq<Entry>, k: nat, p: Progress) {
    Sound(index, entries, p) && forall i :: 0 <= i < k ==> i in p.finished
  }

  lemma VisitSoundAt(c: Control, index: Index, entries: seq<Entry>, k: nat, p: Progress)
    requires IndexInto(index, |entries|) && k < |entries| && SoundAt(index, entries, k, p)
    ensures SoundAt(index, entries, k + 1, VisitOne(c, index, p, k))
  {
    VisitSound(c, index, entries, p, k);
  }

  lemma VisitedUpTo(c: Control, index: Index, entries: seq<Entry>)
    requires IndexInto(index, |entries|)
    ensures SoundAt(index, entries, |entries|, Traversed(c, index, entries))
  {
    var kept := (k: nat, p: Progress) => SoundAt(index, entries, k, p);
    StartSound(index, entries);
    forall k: nat, p | k < |entries| && kept(k, p) ensures kept(k + 1, VisitOne(c, index, p, k)) {
      VisitSoundAt(c, index, entries, k, p);
    }
    KeptUpTo(c, index, entries, kept, |entries|);
  }

  ghost predicate Quiet(entries: seq<Entry>, p: Progress) {
    FromStart(entries, p) && NoCyclic(p.notes) && p.active == {}
  }

  lemma VisitQuiet(c: Control, index: Index, entries: seq<Entry>, rank: seq<nat>, p: Progress, i: nat)
    requires IsRank(index, entries, rank) && i < |entries| && Quiet(entries, p)
    ensures Quiet(entries, VisitOne(c, index, p, i))
  {
    VisitAcyclic(c, index, entries, rank, p, i);
  }

  lemma AcyclicUpTo(c: Control, index: Index, entries: seq<Entry>, rank: seq<nat>)
    requires IsRank(index, entries, rank)
    ensures Quiet(entries, Traversed(c, index, entries))
  {
    var kept := (k: nat, p: Progress) => Quiet(entries, p);
    forall k: nat, p | k < |entries| && kept(k, p) ensures kept(k + 1, VisitOne(c, index, p, k)) {
      VisitQuiet(c, index, entries, rank, p, k);
    }
    KeptUpTo(c, index, entries, kept, |entries|);
  }

  function FirstAt(s: seq<nat>, x: nat): (n: nat)
    ensures n <= |s| && (n < |s| ==> s[n] == x) && (x in s ==> n < |s|)
    ensures forall k :: 0 <= k < n ==> s[k] != x
  {
    if s == [] || s[0] == x then 0 else 1 + FirstAt(s[1..], x)
  }

  /** The order in which the entries finish ranks them. */
  lemma OrderRanks(index: Index, entries: seq<Entry>, q: Progress)
    requires IndexInto(index, |entries|) && InTurn(index, entries, q) && NoCyclic(q.notes)
    requires forall i :: 0 <= i < |entries| ==> i in q.finished
    ensures exists rank :: IsRank(index, entries, rank)
  {
    var rank := seq(|entries|, i requires 0 <= i < |entries| => FirstAt(q.finished, i));
    forall i, r | 0 <= i < |entries| && r in References(entries[i]) && r.1 in index
      ensures rank[index[r.1]] < rank[i]
    {
      FinishedBefore(index, entries, q, i, r);
    }
    assert IsRank(index, entries, rank);
  }

  lemma FinishedBefore(index: Index, entries: seq<Entry>, q: Progress, i: nat, r: Reference)
    requires InTurn(index, entries, q) && NoCyclic(q.notes) && i < |entries| && i in q.finished
    requires r in References(entries[i]) && r.1 in index
    ensures FirstAt(q.finished, index[r.1]) < FirstAt(q.finished, i)
  {
    var n := FirstAt(q.finished, i);
    assert AllBefore(index, References(entries[q.finished[n]]), q.finished[..n]);
    var m :| 0 <= m < n && q.finished[..n][m] == index[r.1];
    assert q.finished[m] == index[r.1];
  }

  /** A cycle is reported exactly if the references have one. */
  lemma CyclesReported(c: Control, index: Index, entries: seq<Entry>)
    requires IndexInto(index, |entries|)
    ensures NoCyclic(Traversed(c, index, entries).notes) <==> Acyclic(Parents(index, entries))
  {
    RankedIffAcyclic(index, entries);
    VisitedUpTo(c, index, entries);
    if NoCyclic(Traversed(c, index, entries).notes) {
      OrderRanks(index, entries, Traversed(c, index, entries));
    }
    if rank :| IsRank(index, entries, rank) {
      AcyclicUpTo(c, index, entries, rank);
    }
  }

  /** Of each entry the references to nothing are reported, other than those of XDATA, once each and in order. */
  lemma MissingExact(c: Control, index: Index, entries: seq<Entry>, k: nat)
    requires IndexInto(index, |entries|) && k < |entries|
    ensures MissingBy(Traversed(c, index, entries).notes, k) == Unknown(index, References(entries[k]))
  {
    VisitedUpTo(c, index, entries);
    assert ReportedOf(index, entries, Traversed(c, index, entries), k);
  }

  // ----- The texts -----

  function NoteText(entries: seq<Entry>, note: Note): string
    requires note.i < |entries|
  {
    match note
    case Missing(i, field, key) => "Missing " + field + " entry " + key + " referenced by " + entries[i].key
    case Cyclic(i) => "Cyclic inheritance at " + entries[i].key
  }

  predicate NotesInto(notes: seq<Note>, n: nat) {
    forall k :: 0 <= k < |notes| ==> notes[k].i < n
  }

  function NoteTexts(entries: seq<Entry>, notes: seq<Note>): (texts: seq<string>)
    requires NotesInto(notes, |entries|)
    ensures |texts| == |notes| && forall k :: 0 <= k < |notes| ==> texts[k] == NoteText(entries, notes[k])
  {
    seq(|notes|, k requires 0 <= k < |notes| => NoteText(entries, notes[k]))
  }

  lemma NoteTextsMore(entries: seq<Entry>, notes: seq<Note>, note: Note)
    requires NotesInto(notes, |entries|) && note.i < |entries|
    ensures NotesInto(notes + [note], |entries|)
    ensures NoteTexts(entries, notes + [note]) == NoteTexts(entries, notes) + [NoteText(entries, note)]
  {
  }
}

/**
 The depth-first resolver of references between entries (`inherit` and `visit`,
 crates/tex-biber/src/bib.rs) as an object over the entries it rewrites.
 */
module Resolver {
  import opened Wrappers
  import opened Splitting
  import opened Graphs
  import opened Inheritance
  import opened Traversal

  /** A run between two steps: the entries as they are, and the entries whose bodies have been entered, in order. */
  datatype Run = Run(entries: seq<Entry>, active: set<nat>, done: set<nat>, ran: seq<nat>)

  /** Holds on every graph: a body runs for an active or a finished entry, and for no entry twice. */
  ghost predicate Consistent(originals: seq<Entry>, run: Run) {
    && |run.entries| == |originals|
    && run.active + run.done <= Upto(|originals|) && run.active !! run.done
    && (forall i, j :: 0 <= i < j < |run.ran| ==> run.ran[i] != run.ran[j])
    && (forall i :: i in run.ran <==> i in run.active + run.done)
    && (forall k :: 0 <= k < |originals| ==> SameEntry(originals, run, k))
    && (forall k :: k in run.done ==> "xdata" !in run.entries[k].fields)
  }

  /** An entry keeps its key and kind, and all of itself until its body is entered. */
  ghost predicate SameEntry(originals: seq<Entry>, run: Run, k: nat)
    requires k < |originals| == |run.entries|
  {
    && run.entries[k].key == originals[k].key && run.entries[k].kind == originals[k].kind
    && (k !in run.active + run.done ==> run.entries[k] == originals[k])
  }

  /** Between two states of a run, only entries that finished in between have changed. */
  ghost predicate Extends(before: Run, after: Run) {
    && |after.entries| == |before.entries| && after.active == before.active && before.done <= after.done
    && forall k :: 0 <= k < |after.entries| && (k in before.done || k !in after.done) ==>
         after.entries[k] == before.entries[k]
  }

  /** On a graph with a rank, the finished entries are the resolved ones. */
  ghost predicate Settled(c: Control, index: Index, originals: seq<Entry>, rank: Option<seq<nat>>, run: Run) {
    rank.Some? ==>
      && IsRank(index, originals, rank.value)
      && forall k :: k in run.done && k < |originals| && k < |run.entries| ==>
           run.entries[k] == Resolve(c, index, originals, rank.value, k)
  }

  /** Entry `i` ranks below every active entry. */
  ghost predicate Below(rank: Option<seq<nat>>, run: Run, i: nat) {
    rank.Some? ==> forall a :: a in run.active && a < |rank.value| && i < |rank.value| ==> rank.value[i] < rank.value[a]
  }

  lemma Enter(originals: seq<Entry>, run: Run, i: nat)
    requires Consistent(originals, run) && i < |originals| && i !in run.active + run.done
    ensures Consistent(originals, run.(active := run.active + {i}, ran := run.ran + [i]))
  {
    var run' := run.(active := run.active + {i}, ran := run.ran + [i]);
    forall k | 0 <= k < |originals| ensures SameEntry(originals, run', k) {
      assert SameEntry(originals, run, k);
    }
    assert i !in run.ran;
  }

  lemma Rewrite(originals: seq<Entry>, run: Run, i: nat, e: Entry)
    requires Consistent(originals, run) && i in run.active
    requires e.key == run.entries[i].key && e.kind == run.entries[i].kind
    ensures Consistent(originals, run.(entries := run.entries[i := e]))
  {
    var run' := run.(entries := run.entries[i := e]);
    forall k | 0 <= k < |originals| ensures SameEntry(originals, run', k) {
      assert SameEntry(originals, run, k);
    }
  }

  lemma Leave(originals: seq<Entry>, run: Run, i: nat)
    requires Consistent(originals, run) && i in run.active && "xdata" !in run.entries[i].fields
    ensures Consistent(originals, run.(active := run.active - {i}, done := run.done + {i}))
  {
    var run' := run.(active := run.active - {i}, done := run.done + {i});
    assert run'.active + run'.done == run.active + run.done;
    forall k | 0 <= k < |originals| ensures SameEntry(originals, run', k) {
      assert SameEntry(originals, run, k);
    }
  }

  /** As `Extends`, while the body of entry `i` runs. */
  ghost predicate Around(i: nat, before: Run, after: Run) {
    && |after.entries| == |before.entries| && after.active == before.active && before.done <= after.done
    && forall k :: 0 <= k < |after.entries| && k != i && (k in before.done || k !in after.done) ==>
         after.entries[k] == before.entries[k]
  }

  /** The run after the body of entry `i`. */
  ghost function Left(run: Run, i: nat): Run
    requires i < |run.entries|
  {
    Run(run.entries[i := Done(run.entries[i])], run.active - {i}, run.done + {i}, run.ran)
  }

  lemma BodyExtends(before: Run, followed: Run, i: nat)
    requires i !in before.active + before.done && i < |before.entries|
    requires Around(i, before.(active := before.active + {i}, ran := before.ran + [i]), followed)
    ensures Extends(before, Left(followed, i))
  {
    assert before.active + {i} - {i} == before.active;
  }

  /** A parent ranks below its child, so in a ranked graph it is not active and may be visited. */
  lemma BelowParent(index: Index, originals: seq<Entry>, rank: Option<seq<nat>>, run: Run, i: nat, r: Reference)
    requires IndexInto(index, |originals|) && i < |originals| && r.1 in index
    requires rank.Some? ==> |rank.value| == |originals| && rank.value[index[r.1]] < rank.value[i]
    requires run.active <= Upto(|originals|)
    requires Below(rank, run.(active := run.active - {i}), i)
    ensures Below(rank, run, index[r.1])
    ensures rank.Some? ==> index[r.1] !in run.active
  {
    if rank.Some? {
      var j := index[r.1];
      assert rank.value[j] < rank.value[i];
      forall a | a in run.active && a < |rank.value| && j < |rank.value| ensures rank.value[j] < rank.value[a] {
        if a != i {
          assert a in run.active - {i};
        }
      }
    }
  }

  /** The finished parent is what the resolution of the child asks for. */
  lemma FinishedParent(
    c: Control, index: Index, originals: seq<Entry>, rank: Option<seq<nat>>, run: Run, i: nat, r: Reference)
    requires rank.Some? && Settled(c, index, originals, rank, run) && |run.entries| == |originals|
    requires i < |originals| && r.1 in index && index[r.1] in run.done && rank.value[index[r.1]] < rank.value[i]
    ensures Parent(c, index, originals, rank.value, i, r) == Some(run.entries[index[r.1]])
  {
  }

  class Resolving {
    const control: Control
    const index: Index
    ghost const originals: seq<Entry>
    ghost const rank: Option<seq<nat>>
    var entries: seq<Entry>
    var active: set<nat>
    var done: set<nat>
    var warnings: seq<string>
    ghost var ran: seq<nat>
    /** The entries finished, in order, and what has been reported. */
    ghost var finished: seq<nat>
    ghost var notes: seq<Note>

    ghost function Now(): Progress
      reads this
    {
      Progress(entries, active, finished, notes)
    }

    /** The traversal is as far as it is told. */
    ghost predicate Told()
      reads this
    {
      && Sane(index, Now())
      && (forall k :: k in done <==> k in finished)
      && NotesInto(notes, |originals|) && warnings == NoteTexts(originals, notes)
    }

    ghost function State(): Run
      reads this
    {
      Run(entries, active, done, ran)
    }

    ghost predicate Valid()
      reads this
    {
      && IndexInto(index, |originals|)
      && Consistent(originals, State())
      && Settled(control, index, originals, rank, State())
      && Told()
    }

    constructor (control: Control, index: Index, entries: seq<Entry>, ghost rank: Option<seq<nat>>)
      requires IndexInto(index, |entries|)
      requires rank.Some? ==> IsRank(index, entries, rank.value)
      ensures Valid()
      ensures this.control == control && this.index == index && this.rank == rank
      ensures this.entries == originals == entries
      ensures active == {} && done == {} && ran == [] && warnings == [] && Now() == Start(entries)
    {
      finished, notes := [], [];
      this.control, this.index, this.entries := control, index, entries;
      this.originals, this.rank := entries, rank;
      active, done, warnings, ran := {}, {}, [], [];
    }

    /**
     Resolve entry `i` unless that is done or under way. Whatever the graph, the call returns, leaves
     the active entries as they were, and touches only entries it finishes.
     */
    method Visit(i: nat)
      requires Valid() && i < |originals|
      requires i !in active && i !in done ==> Below(rank, State(), i)
      modifies this
      ensures Valid()
      ensures Extends(old(State()), State())
      ensures i in done || i in active
      ensures Now() == VisitOne(control, index, old(Now()), i)
      decreases Upto(|originals|) - active, 0, 0
    {
      if i in done {
        return;
      }
      if i in active {
        ReportCycle(i);
        return;
      }
      ghost var before := State();
      Enter(originals, before, i);
      assert SameEntry(originals, before, i);
      active := active + {i};
      ran := ran + [i];
      FollowReferences(i);
      LeaveBody(i, before);
    }

    /** Report what `note` tells of an entry. */
    method Report(ghost note: Note, text: string)
      requires Valid() && note.i < |originals| && text == NoteText(originals, note)
      modifies `warnings, `notes
      ensures Valid() && notes == old(notes) + [note]
    {
      NoteTextsMore(originals, notes, note);
      warnings := warnings + [text];
      notes := notes + [note];
    }

    lemma SameKey(i: nat)
      requires Valid() && i < |originals|
      ensures entries[i].key == originals[i].key
    {
      assert SameEntry(originals, State(), i);
    }

    method ReportCycle(i: nat)
      requires Valid() && i < |originals|
      modifies `warnings, `notes
      ensures Valid() && notes == old(notes) + [Cyclic(i)]
    {
      SameKey(i);
      Report(Cyclic(i), "Cyclic inheritance at " + entries[i].key);
    }

    method LeaveBody(i: nat, ghost before: Run)
      requires Valid() && i in active && i < |originals| && i !in before.active + before.done
      requires Around(i, before.(active := before.active + {i}, ran := before.ran + [i]), State())
      requires rank.Some? ==> Done(entries[i]) == Resolve(control, index, originals, rank.value, i)
      modifies this
      ensures Valid()
      ensures Extends(before, State()) && i in done
      ensures Now() == Progress(old(entries)[i := Done(old(entries)[i])], old(active) - {i}, old(finished) + [i], old(notes))
    {
      ghost var followed := State();
      BodyExtends(before, followed, i);
      Rewrite(originals, followed, i, Done(entries[i]));
      entries := entries[i := Done(entries[i])];
      Leave(originals, State(), i);
      active := active - {i};
      done := done + {i};
      finished := finished + [i];
      assert State() == Left(followed, i);
    }

    /** Follow the references of the active entry `i`, each to its resolved parent. */
    method FollowReferences(i: nat)
      requires Valid() && i in active && i < |originals| && entries[i] == originals[i]
      requires Below(rank, State().(active := active - {i}), i)
      modifies this
      ensures Valid()
      ensures Around(i, old(State()), State())
      ensures rank.Some? ==> Done(entries[i]) == Resolve(control, index, originals, rank.value, i)
      ensures Now() == FollowAll(control, index, old(Now()), i, References(old(entries)[i]))
      decreases Upto(|originals|) - active, 2
    {
      var refs := References(entries[i]);
      for n := 0 to |refs|
        invariant Valid()
        invariant Around(i, old(State()), State())
        invariant FollowAll(control, index, Now(), i, refs[n..]) == FollowAll(control, index, old(Now()), i, refs)
        invariant rank.Some? ==>
                    Follow(control, index, originals, rank.value, i, entries[i], refs[n..])
                    == Follow(control, index, originals, rank.value, i, originals[i], refs)
      {
        FollowReference(i, refs[n]);
      }
    }

    method FollowReference(i: nat, r: Reference)
      requires Valid() && i in active && i < |originals| && r in References(originals[i])
      requires Below(rank, State().(active := active - {i}), i)
      modifies this
      ensures Valid()
      ensures Around(i, old(State()), State())
      ensures rank.Some? ==>
                entries[i] == Step(control, old(entries[i]), r, Parent(control, index, originals, rank.value, i, r))
      ensures Now() == Refer(control, index, old(Now()), i, r)
      decreases Upto(|originals|) - active, 1
    {
      if r.1 !in index {
        FollowNothing(i, r);
      } else {
        BelowParent(index, originals, rank, State(), i, r);
        if index[r.1] in active {
          FollowCycle(i, r);
        } else {
          FollowParent(i, r);
        }
      }
    }

    method FollowNothing(i: nat, r: Reference)
      requires Valid() && i in active && i < |originals| && r.1 !in index
      modifies `entries, `warnings, `notes
      ensures Valid() && Around(i, old(State()), State()) && Now() == Refer(control, index, old(Now()), i, r)
      ensures entries[i] == Step(control, old(entries[i]), r, None)
    {
      MissingParent(i, r);
      assert r.0 != "xdata" ==> entries == old(entries);
    }

    method FollowCycle(i: nat, r: Reference)
      requires Valid() && i in active && i < |originals| && r.1 in index && index[r.1] in active
      modifies `warnings, `notes
      ensures Valid() && Around(i, old(State()), State()) && Now() == Refer(control, index, old(Now()), i, r)
    {
      ReportCycle(i);
    }

    /** Resolve the parent, and inherit from it as it is then. */
    method FollowParent(i: nat, r: Reference)
      requires Valid() && i in active && i < |originals| && r.1 in index && index[r.1] !in active
      requires Below(rank, State(), index[r.1])
      requires rank.Some? ==> rank.value[index[r.1]] < rank.value[i]
      modifies this
      ensures Valid()
      ensures Around(i, old(State()), State())
      ensures rank.Some? ==>
                entries[i] == Step(control, old(entries[i]), r, Parent(control, index, originals, rank.value, i, r))
      ensures Now() == Refer(control, index, old(Now()), i, r)
      decreases Upto(|originals|) - active, 0, 1
    {
      var j := index[r.1];
      Visit(j);
      if rank.Some? {
        FinishedParent(control, index, originals, rank, State(), i, r);
      }
      assert entries[i] == old(entries[i]);
      InheritFromParent(i, r, entries[j]);
    }

    method MissingParent(i: nat, r: Reference)
      requires Valid() && i in active && i < |originals|
      modifies `entries, `warnings, `notes
      ensures Valid()
      ensures entries == old(entries)[i := Step(control, old(entries)[i], r, None)]
      ensures notes == if r.0 == "xdata" then old(notes) else old(notes) + [Missing(i, r.0, r.1)]
    {
      if r.0 == "xdata" {
        SetEntry(i, XdataWarning(entries[i], r.1, "which does not exist"));
      } else {
        SameKey(i);
        Report(Missing(i, r.0, r.1), "Missing " + r.0 + " entry " + r.1 + " referenced by " + entries[i].key);
      }
    }

    method InheritFromParent(i: nat, r: Reference, source: Entry)
      requires Valid() && i in active && i < |originals|
      modifies `entries
      ensures Valid()
      ensures entries == old(entries)[i := Step(control, old(entries)[i], r, Some(source))]
    {
      if r.0 == "xref" {
        return;
      }
      if r.0 == "xdata" && source.kind != "xdata" {
        SetEntry(i, XdataWarning(entries[i], r.1, "which is not an XDATA entry"));
        return;
      }
      SetEntry(i, InheritFrom(control, source, entries[i], r.0 == "xdata"));
    }

    method SetEntry(i: nat, e: Entry)
      requires Valid() && i in active && i < |originals|
      requires e.key == entries[i].key && e.kind == entries[i].kind
      modifies `entries
      ensures Valid()
      ensures entries == old(entries)[i := e]
    {
      Rewrite(originals, State(), i, e);
      entries := entries[i := e];
    }

    /** Visit every entry: each body runs exactly once, and every entry is finished. */
    method ResolveAll()
      requires Valid() && active == {} && done == {} && Now() == Start(originals)
      modifies this
      ensures Valid() && active == {} && done == Upto(|originals|)
      ensures Now() == Traversed(control, index, originals)
      ensures forall k: nat :: k in ran <==> k < |originals|
      ensures forall i, j :: 0 <= i < j < |ran| ==> ran[i] != ran[j]
    {
      for i := 0 to |entries|
        invariant Valid() && active == {} && |entries| == |originals|
        invariant Upto(i) <= done
        invariant Now() == VisitUpTo(control, index, Start(originals), i)
      {
        Visit(i);
      }
      assert active + done == done;
    }
  }

  // ----- Names -----

  function Ids(e: Entry): seq<string> {
    if "ids" in e.fields then SplitList(e.fields["ids"], ",") else []
  }

  /** Keys first; of two entries with one key, the later. */
  function KeyIndex(entries: seq<Entry>): (index: Index)
    ensures IndexInto(index, |entries|)
  {
    if entries == [] then map[]
    else KeyIndex(entries[..|entries| - 1])[entries[|entries| - 1].key := |entries| - 1]
  }

  function AddAliases(index: Index, names: seq<string>, i: nat): Index
    decreases |names|
  {
    if names == [] then index
    else AddAliases(if names[0] in index then index else index[names[0] := i], names[1..], i)
  }

  function AllIds(entries: seq<Entry>): (ids: seq<seq<string>>)
    ensures |ids| == |entries| && forall k :: 0 <= k < |entries| ==> ids[k] == Ids(entries[k])
  {
    seq(|entries|, i requires 0 <= i < |entries| => Ids(entries[i]))
  }

  /** Then aliases, each to the first entry that lists it. */
  function AliasIndex(index: Index, ids: seq<seq<string>>): Index {
    if ids == [] then index
    else AddAliases(AliasIndex(index, ids[..|ids| - 1]), ids[|ids| - 1], |ids| - 1)
  }

  function IndexOf(entries: seq<Entry>): Index {
    AliasIndex(KeyIndex(entries), AllIds(entries))
  }

  /** `name` is the key of entry `i`, or no entry's key and an alias of entry `i`. */
  ghost predicate Denotes(entries: seq<Entry>, i: nat, name: string) {
    && i < |entries|
    && (|| entries[i].key == name
        || ((forall k :: 0 <= k < |entries| ==> entries[k].key != name) && name in Ids(entries[i])))
  }

  lemma {:induction false} KeyIndexExact(entries: seq<Entry>, name: string)
    ensures name in KeyIndex(entries) <==> exists k :: 0 <= k < |entries| && entries[k].key == name
    ensures name in KeyIndex(entries) ==> entries[KeyIndex(entries)[name]].key == name
  {
    if entries != [] {
      var front, last := entries[..|entries| - 1], entries[|entries| - 1];
      KeyIndexExact(front, name);
      if last.key == name {
        assert entries[|entries| - 1].key == name;
      } else if name in KeyIndex(front) {
        assert entries[KeyIndex(front)[name]].key == name;
      }
      if k :| 0 <= k < |entries| && entries[k].key == name {
        if k < |front| {
          assert front[k].key == name;
        }
      }
    }
  }

  lemma {:induction false} AddAliasesExact(index: Index, names: seq<string>, i: nat, name: string)
    ensures var index' := AddAliases(index, names, i);
            && (name in index' <==> name in index || name in names)
            && (name in index ==> index'[name] == index[name])
            && (name in index' && name !in index ==> index'[name] == i)
    decreases |names|
  {
    if names != [] {
      AddAliasesExact(if names[0] in index then index else index[names[0] := i], names[1..], i, name);
    }
  }

  lemma {:induction false} AliasIndexExact(index: Index, ids: seq<seq<string>>, name: string)
    ensures var index' := AliasIndex(index, ids);
            && (name in index ==> name in index' && index'[name] == index[name])
            && (name !in index ==> (name in index' <==> exists k :: 0 <= k < |ids| && name in ids[k]))
            && (name in index' && name !in index ==> index'[name] < |ids| && name in ids[index'[name]])
  {
    if ids != [] {
      var front, last := ids[..|ids| - 1], ids[|ids| - 1];
      AliasIndexExact(index, front, name);
      AddAliasesExact(AliasIndex(index, front), last, |front|, name);
      assert ids == front + [last];
    }
  }

  /** The index holds exactly the names that denote an entry, and sends each to one it denotes. */
  lemma IndexExact(entries: seq<Entry>, name: string)
    ensures name in IndexOf(entries) <==> exists i: nat :: Denotes(entries, i, name)
    ensures name in IndexOf(entries) ==> Denotes(entries, IndexOf(entries)[name], name)
  {
    KeyIndexExact(entries, name);
    AliasIndexExact(KeyIndex(entries), AllIds(entries), name);
    if name in IndexOf(entries) {
      assert Denotes(entries, IndexOf(entries)[name], name);
    }
    if i: nat :| Denotes(entries, i, name) {
      if entries[i].key != name {
        assert name in Ids(entries[i]);
      }
    }
  }

  lemma IndexOfInto(entries: seq<Entry>)
    ensures IndexInto(IndexOf(entries), |entries|)
  {
    forall name | name in IndexOf(entries) ensures IndexOf(entries)[name] < |entries| {
      IndexExact(entries, name);
    }
  }

  method BuildIndex(entries: seq<Entry>) returns (index: Index)
    ensures index == IndexOf(entries)
  {
    var keys := IndexKeys(entries);
    index := IndexAliases(keys, entries);
  }

  method IndexKeys(entries: seq<Entry>) returns (index: Index)
    ensures index == KeyIndex(entries)
  {
    index := map[];
    for i := 0 to |entries|
      invariant index == KeyIndex(entries[..i])
    {
      assert entries[..i + 1][..i] == entries[..i];
      index := index[entries[i].key := i];
    }
    assert entries[..|entries|] == entries;
  }

  method IndexAliases(keys: Index, entries: seq<Entry>) returns (index: Index)
    ensures index == AliasIndex(keys, AllIds(entries))
  {
    index := keys;
    ghost var ids := AllIds(entries);
    for i := 0 to |entries|
      invariant index == AliasIndex(keys, ids[..i])
    {
      AliasStep(keys, ids, i);
      var names := Ids(entries[i]);
      index := InsertAliases(index, names, i);
    }
    assert ids[..|entries|] == ids;
  }

  lemma AliasStep(keys: Index, ids: seq<seq<string>>, i: nat)
    requires i < |ids|
    ensures AliasIndex(keys, ids[..i + 1]) == AddAliases(AliasIndex(keys, ids[..i]), ids[i], i)
  {
    assert ids[..i + 1][..i] == ids[..i];
  }

  /** A name that is taken stays with the entry that has it. */
  method InsertAliases(index: Index, names: seq<string>, i: nat) returns (index': Index)
    ensures index' == AddAliases(index, names, i)
  {
    index' := index;
    for n := 0 to |names|
      invariant AddAliases(index, names, i) == AddAliases(index', names[n..], i)
    {
      assert names[n..][1..] == names[n + 1..];
      if names[n] !in index' {
        index' := index'[names[n] := i];
      }
    }
    assert names[|names|..] == [];
  }

  /**
   Resolve all references between the entries. Any graph is handled; where the references have no
   cycle, every entry becomes what the parents-first recursion makes of it.
   */
  method Inherit(control: Control, entries: seq<Entry>) returns (resolved: seq<Entry>, warnings: seq<string>)
    ensures |resolved| == |entries|
    ensures forall k :: 0 <= k < |entries| ==>
              && resolved[k].key == entries[k].key && resolved[k].kind == entries[k].kind
              && "xdata" !in resolved[k].fields
    ensures forall rank, k :: IsRank(IndexOf(entries), entries, rank) && 0 <= k < |entries| ==>
              resolved[k] == Resolve(control, IndexOf(entries), entries, rank, k)
    ensures IndexInto(IndexOf(entries), |entries|)
    ensures var q := Traversed(control, IndexOf(entries), entries);
            resolved == q.entries && NotesInto(q.notes, |entries|) && warnings == NoteTexts(entries, q.notes)
  {
    var index := BuildIndex(entries);
    IndexOfInto(entries);
    ghost var rank := SomeRank(index, entries);
    var r := new Resolving(control, index, entries, rank);
    r.ResolveAll();
    resolved, warnings := r.entries, r.warnings;
    forall k | 0 <= k < |entries|
      ensures resolved[k].key == entries[k].key && resolved[k].kind == entries[k].kind
      ensures "xdata" !in resolved[k].fields
    {
      assert SameEntry(r.originals, r.State(), k);
      assert k in r.done;
    }
    forall other, k | IsRank(index, entries, other) && 0 <= k < |entries|
      ensures resolved[k] == Resolve(control, index, entries, other, k)
    {
      assert k in r.done;
      RankIrrelevant(control, index, entries, rank.value, other, k);
    }
  }

  ghost function SomeRank(index: Index, entries: seq<Entry>): (rank: Option<seq<nat>>)
    ensures rank.Some? ==> IsRank(index, entries, rank.value)
    ensures rank.None? ==> forall r :: !IsRank(index, entries, r)
  {
    if r: seq<nat> :| IsRank(index, entries, r) then Some(r) else None
  }

  // ----- The order of the entries -----

  /** No name denotes two entries. */
  ghost predicate Unambiguous(entries: seq<Entry>) {
    forall name, i: nat, j: nat :: Denotes(entries, i, name) && Denotes(entries, j, name) ==> i == j
  }

  /** `to` lists the entries of `from`, entry `i` at position `place[i]`. */
  ghost predicate Rearranged(from: seq<Entry>, to: seq<Entry>, place: seq<nat>) {
    && |from| == |to| == |place|
    && (forall i :: 0 <= i < |place| ==> place[i] < |to| && to[place[i]] == from[i])
    && (forall j :: 0 <= j < |to| ==> j in place)
  }

  lemma RearrangedDenotes(from: seq<Entry>, to: seq<Entry>, place: seq<nat>, i: nat, name: string)
    requires Rearranged(from, to, place) && i < |from|
    ensures Denotes(from, i, name) <==> Denotes(to, place[i], name)
  {
    if k :| 0 <= k < |to| && to[k].key == name {
      assert k in place;
      var p :| 0 <= p < |place| && place[p] == k;
      assert from[p].key == name;
    }
    if k :| 0 <= k < |from| && from[k].key == name {
      assert to[place[k]].key == name;
    }
  }

  lemma RearrangedIndex(from: seq<Entry>, to: seq<Entry>, place: seq<nat>, name: string)
    requires Rearranged(from, to, place) && Unambiguous(to)
    ensures name in IndexOf(from) <==> name in IndexOf(to)
    ensures name in IndexOf(from) ==>
              IndexOf(from)[name] < |from| && IndexOf(to)[name] == place[IndexOf(from)[name]]
  {
    IndexExact(from, name);
    IndexExact(to, name);
    if name in IndexOf(from) {
      var i := IndexOf(from)[name];
      RearrangedDenotes(from, to, place, i, name);
      assert Denotes(to, place[i], name);
    }
    if name in IndexOf(to) {
      var j := IndexOf(to)[name];
      assert j in place;
      var i :| 0 <= i < |place| && place[i] == j;
      RearrangedDenotes(from, to, place, i, name);
      assert Denotes(from, i, name);
    }
  }

  /** The entries of `to` rank as they do in `from`. */
  lemma RearrangedRank(from: seq<Entry>, to: seq<Entry>, place: seq<nat>, rank: seq<nat>) returns (rank': seq<nat>)
    requires Rearranged(from, to, place) && Unambiguous(to)
    requires IsRank(IndexOf(from), from, rank)
    ensures IsRank(IndexOf(to), to, rank')
    ensures forall i :: 0 <= i < |from| ==> rank'[place[i]] == rank[i]
  {
    rank' := seq(|to|, j requires 0 <= j < |to| => rank[Origin(place, j)]);
    forall i | 0 <= i < |from| ensures rank'[place[i]] == rank[i] {
      OriginPlace(place, i);
    }
    IndexOfInto(to);
    forall j, r | 0 <= j < |to| && r in References(to[j]) && r.1 in IndexOf(to)
      ensures rank'[IndexOf(to)[r.1]] < rank'[j]
    {
      var i := Origin(place, j);
      assert from[i] == to[j];
      RearrangedIndex(from, to, place, r.1);
      assert rank[IndexOf(from)[r.1]] < rank[i];
    }
  }

  /** The index at which `place` holds `j`, if it does. */
  ghost function Origin(place: seq<nat>, j: nat): (i: nat)
    ensures j in place ==> i < |place| && place[i] == j
  {
    if j in place then var i :| 0 <= i < |place| && place[i] == j; i else 0
  }

  lemma OriginPlace(place: seq<nat>, i: nat)
    requires i < |place| && forall k: nat :: k < |place| ==> k in place
    ensures Origin(place, place[i]) == i
  {
    var o := Origin(place, place[i]);
    if o < i {
      OntoOnce(place, o, i);
    } else if i < o {
      OntoOnce(place, i, o);
    }
  }

  /**
   Two resolutions of the same entries in different orders. Where no name is ambiguous and the references
   have no cycle, each entry becomes the same in both.
   */
  method InheritRearranged(control: Control, from: seq<Entry>, to: seq<Entry>, ghost place: seq<nat>)
    returns (resolved: seq<Entry>, rearranged: seq<Entry>)
    requires Rearranged(from, to, place) && Unambiguous(to)
    requires Acyclic(Parents(IndexOf(from), from))
    ensures |resolved| == |from| && |rearranged| == |to|
    ensures Rearranged(resolved, rearranged, place)
  {
    var warnings;
    resolved, warnings := Inherit(control, from);
    rearranged, warnings := Inherit(control, to);
    IndexOfInto(from);
    RankedIffAcyclic(IndexOf(from), from);
    ghost var rank :| IsRank(IndexOf(from), from, rank);
    ghost var rank' := RearrangedRank(from, to, place, rank);
    forall i | 0 <= i < |from| ensures rearranged[place[i]] == resolved[i] {
      OrderIrrelevant(control, from, to, place, rank, rank', i);
    }
  }

  /** Where every name is unambiguous, the order of the entries does not matter to what each becomes. */
  lemma {:induction false} OrderIrrelevant(
    c: Control, from: seq<Entry>, to: seq<Entry>, place: seq<nat>, rank: seq<nat>, rank': seq<nat>, i: nat)
    requires Rearranged(from, to, place) && Unambiguous(to) && i < |from|
    requires IsRank(IndexOf(from), from, rank) && IsRank(IndexOf(to), to, rank')
    ensures Resolve(c, IndexOf(to), to, rank', place[i]) == Resolve(c, IndexOf(from), from, rank, i)
    decreases rank[i], 1, 0
  {
    FollowOrderIrrelevant(c, from, to, place, rank, rank', i, from[i], References(from[i]));
  }

  lemma {:induction false} FollowOrderIrrelevant(
    c: Control, from: seq<Entry>, to: seq<Entry>, place: seq<nat>, rank: seq<nat>, rank': seq<nat>,
    i: nat, e: Entry, refs: seq<Reference>)
    requires Rearranged(from, to, place) && Unambiguous(to) && i < |from|
    requires IsRank(IndexOf(from), from, rank) && IsRank(IndexOf(to), to, rank')
    requires forall r :: r in refs ==> r in References(from[i])
    ensures Follow(c, IndexOf(to), to, rank', place[i], e, refs) == Follow(c, IndexOf(from), from, rank, i, e, refs)
    decreases rank[i], 0, |refs|
  {
    if refs != [] {
      var r := refs[0];
      assert r in References(from[i]);
      RearrangedIndex(from, to, place, r.1);
      if r.1 in IndexOf(from) {
        OrderIrrelevant(c, from, to, place, rank, rank', IndexOf(from)[r.1]);
      }
      FollowOrderIrrelevant(c, from, to, place, rank, rank', i,
        Step(c, e, r, Parent(c, IndexOf(from), from, rank, i, r)), refs[1..]);
    }
  }
}

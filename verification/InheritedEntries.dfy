/**
 What the entries become that `inherit` is given (crates/tex-biber/src/bib.rs), on graphs of references without
 a cycle: each follows its references, XDATA first, then CROSSREF, then XREF, each to its parent as that is in
 the result.
 */
module InheritedEntries {
  import opened Splitting
  import opened Graphs
  import opened Inheritance
  import opened InheritedFields
  import opened Resolver

  /** The keys that a field of an entry lists. */
  function KeysIn(e: Entry, field: string): seq<string> {
    if field in e.fields then SplitList(e.fields[field], ",") else []
  }

  function Pairs(field: string, keys: seq<string>): seq<(string, string)> {
    if keys == [] then [] else [(field, keys[0])] + Pairs(field, keys[1..])
  }

  /** The references of an entry in the order in which they act. */
  function ReferencesOf(e: Entry): seq<(string, string)> {
    Pairs("xdata", KeysIn(e, "xdata")) + Pairs("crossref", KeysIn(e, "crossref")) + Pairs("xref", KeysIn(e, "xref"))
  }

  /** `name` is a key, that of the last entry that has it, or else an alias, that of the first that lists it. */
  ghost predicate Named(entries: seq<Entry>, name: string, j: nat) {
    && j < |entries|
    && ((entries[j].key == name && forall k :: j < k < |entries| ==> entries[k].key != name)
        || ((forall k :: 0 <= k < |entries| ==> entries[k].key != name)
            && name in KeysIn(entries[j], "ids") && forall k :: 0 <= k < j ==> name !in KeysIn(entries[k], "ids")))
  }

  ghost predicate IsName(entries: seq<Entry>, name: string) {
    exists j: nat :: Named(entries, name, j)
  }

  function XdataText(e: Entry, key: string, reason: string): string {
    e.kind + " entry '" + e.key + "' references XDATA entry '" + key + "' " + reason + ", not resolving"
  }

  /** Only a warning comes to the entry. */
  predicate Warns(before: Entry, e: Entry, text: string) {
    e == before.(warnings := before.warnings + [text])
  }

  /** The entry inherits from the parent: field by field what offers are taken, and nothing else changes. */
  ghost predicate Inherits(c: Control, source: Entry, before: Entry, e: Entry, xdata: bool) {
    && e.key == before.key && e.kind == before.kind && e.warnings == before.warnings
    && forall f :: FieldIs(source, before, e, f, Taken(Offers(c, source, before, xdata, f), f in before.fields))
  }

  /** What one reference of an entry does to it; `j` is the parent in the result. */
  ghost predicate Acts(
    c: Control, entries: seq<Entry>, resolved: seq<Entry>, r: (string, string), before: Entry, e: Entry)
    requires |resolved| == |entries|
  {
    var (field, key) := r;
    if !IsName(entries, key) then
      if field == "xdata" then Warns(before, e, XdataText(before, key, "which does not exist")) else e == before
    else
      forall j: nat :: Named(entries, key, j) ==>
        match field
        case "xdata" =>
          if resolved[j].kind == "xdata" then Inherits(c, resolved[j], before, e, true)
          else Warns(before, e, XdataText(before, key, "which is not an XDATA entry"))
        case "crossref" => Inherits(c, resolved[j], before, e, false)
        case _ => e == before
  }

  /** The entry between its references, from how it was to how it is before its XDATA field goes. */
  ghost predicate Stages(
    c: Control, entries: seq<Entry>, resolved: seq<Entry>, refs: seq<(string, string)>, stages: seq<Entry>)
    requires |resolved| == |entries|
  {
    |stages| == |refs| + 1
    && forall k :: 0 <= k < |refs| ==> Acts(c, entries, resolved, refs[k], stages[k], stages[k + 1])
  }

  function WithoutXdata(e: Entry): Entry {
    e.(fields := e.fields - {"xdata"})
  }

  ghost predicate Becomes(c: Control, entries: seq<Entry>, resolved: seq<Entry>, i: nat)
    requires |resolved| == |entries| && i < |entries|
  {
    exists stages: seq<Entry> ::
      && Stages(c, entries, resolved, ReferencesOf(entries[i]), stages) && stages[0] == entries[i]
      && resolved[i] == WithoutXdata(stages[|stages| - 1])
  }

  // ----- Names -----

  lemma {:induction false} LastKey(entries: seq<Entry>, name: string)
    ensures name in KeyIndex(entries) ==>
              var j := KeyIndex(entries)[name]; forall k :: j < k < |entries| ==> entries[k].key != name
  {
    if entries != [] {
      var front := entries[..|entries| - 1];
      LastKey(front, name);
      if name in KeyIndex(front) && entries[|entries| - 1].key != name {
        assert forall k :: 0 <= k < |front| ==> entries[k] == front[k];
      }
    }
  }

  lemma {:induction false} FirstAlias(index: Index, ids: seq<seq<string>>, name: string)
    ensures var index' := AliasIndex(index, ids);
            name in index' && name !in index ==>
              index'[name] < |ids| && forall k :: 0 <= k < index'[name] ==> name !in ids[k]
  {
    if ids != [] {
      var front, last := ids[..|ids| - 1], ids[|ids| - 1];
      FirstAlias(index, front, name);
      AliasIndexExact(index, front, name);
      AddAliasesExact(AliasIndex(index, front), last, |front|, name);
      assert ids == front + [last];
    }
  }

  lemma NameIndexed(entries: seq<Entry>, name: string)
    ensures name in IndexOf(entries) <==> IsName(entries, name)
    ensures forall j: nat :: Named(entries, name, j) ==> name in IndexOf(entries) && IndexOf(entries)[name] == j
  {
    var keys, ids := KeyIndex(entries), AllIds(entries);
    KeyIndexExact(entries, name);
    LastKey(entries, name);
    AliasIndexExact(keys, ids, name);
    FirstAlias(keys, ids, name);
    forall k | 0 <= k < |entries| ensures ids[k] == KeysIn(entries[k], "ids") {
    }
    if name in IndexOf(entries) {
      assert Named(entries, name, IndexOf(entries)[name]);
    }
    forall j: nat | Named(entries, name, j) ensures name in IndexOf(entries) && IndexOf(entries)[name] == j {
      if entries[j].key == name {
        assert name in keys;
      } else {
        assert name !in keys && name in ids[j];
      }
    }
  }

  // ----- References -----

  lemma {:induction false} PairsAt(field: string, keys: seq<string>, i: nat)
    ensures |Pairs(field, keys)| == |keys|
    ensures i < |keys| ==> Pairs(field, keys)[i] == (field, keys[i])
    decreases |keys|
  {
    if keys != [] {
      PairsAt(field, keys[1..], if i > 0 then i - 1 else 0);
    }
  }

  lemma FieldPairs(e: Entry, field: string)
    ensures FieldReferences(e, field) == Pairs(field, KeysIn(e, field))
  {
    var keys := KeysIn(e, field);
    PairsAt(field, keys, 0);
    forall i | 0 <= i < |keys| ensures FieldReferences(e, field)[i] == Pairs(field, keys)[i] {
      PairsAt(field, keys, i);
    }
  }

  lemma ReferencesAre(e: Entry)
    ensures References(e) == ReferencesOf(e)
  {
    FieldPairs(e, "xdata");
    FieldPairs(e, "crossref");
    FieldPairs(e, "xref");
  }

  lemma ReferenceField(e: Entry, r: (string, string))
    requires r in References(e)
    ensures r.0 == "xdata" || r.0 == "crossref" || r.0 == "xref"
  {
  }

  // ----- The theorem -----

  ghost predicate OrderLists(c: Control) {
    forall keys: set<string>, k :: k in c.order(keys) <==> k in keys
  }

  lemma InheritsFrom(c: Control, source: Entry, before: Entry, xdata: bool)
    requires OrderLists(c)
    ensures Inherits(c, source, before, InheritFrom(c, source, before, xdata), xdata)
  {
    forall f
      ensures FieldIs(source, before, InheritFrom(c, source, before, xdata), f,
                Taken(Offers(c, source, before, xdata, f), f in before.fields))
    {
      InheritFromExact(c, source, before, xdata, f);
    }
  }

  /** The result in which every entry is what it is resolved to. */
  ghost predicate IsResolved(c: Control, entries: seq<Entry>, rank: seq<nat>, resolved: seq<Entry>) {
    && |resolved| == |entries| && IsRank(IndexOf(entries), entries, rank)
    && forall k :: 0 <= k < |entries| ==> resolved[k] == Resolve(c, IndexOf(entries), entries, rank, k)
  }

  lemma StepActs(
    c: Control, entries: seq<Entry>, rank: seq<nat>, resolved: seq<Entry>, i: nat, r: (string, string), before: Entry)
    requires OrderLists(c) && IsResolved(c, entries, rank, resolved) && i < |entries| && r in References(entries[i])
    ensures Acts(c, entries, resolved, r, before, Step(c, before, r, Parent(c, IndexOf(entries), entries, rank, i, r)))
  {
    ReferenceField(entries[i], r);
    NameIndexed(entries, r.1);
    if r.1 in IndexOf(entries) {
      InheritsFrom(c, resolved[IndexOf(entries)[r.1]], before, r.0 == "xdata");
    }
  }

  lemma {:induction false} FollowStages(
    c: Control, entries: seq<Entry>, rank: seq<nat>, resolved: seq<Entry>, i: nat, before: Entry, refs: seq<(string, string)>)
    returns (stages: seq<Entry>)
    requires OrderLists(c) && IsResolved(c, entries, rank, resolved) && i < |entries|
    requires forall r :: r in refs ==> r in References(entries[i])
    ensures Stages(c, entries, resolved, refs, stages) && stages[0] == before
    ensures stages[|stages| - 1] == Follow(c, IndexOf(entries), entries, rank, i, before, refs)
    decreases |refs|
  {
    if refs == [] {
      stages := [before];
    } else {
      assert refs[0] in References(entries[i]);
      var next := Step(c, before, refs[0], Parent(c, IndexOf(entries), entries, rank, i, refs[0]));
      StepActs(c, entries, rank, resolved, i, refs[0], before);
      var rest := FollowStages(c, entries, rank, resolved, i, next, refs[1..]);
      stages := [before] + rest;
      StageFirst(c, entries, resolved, refs, before, rest);
    }
  }

  lemma StageFirst(
    c: Control, entries: seq<Entry>, resolved: seq<Entry>, refs: seq<(string, string)>, before: Entry, rest: seq<Entry>)
    requires |resolved| == |entries| && refs != [] && Stages(c, entries, resolved, refs[1..], rest)
    requires Acts(c, entries, resolved, refs[0], before, rest[0])
    ensures Stages(c, entries, resolved, refs, [before] + rest)
  {
    var stages := [before] + rest;
    forall k | 0 <= k < |refs| ensures Acts(c, entries, resolved, refs[k], stages[k], stages[k + 1]) {
      if k > 0 {
        assert refs[k] == refs[1..][k - 1] && stages[k] == rest[k - 1] && stages[k + 1] == rest[k];
      }
    }
  }

  /** Each entry becomes what its references, one after another, make of it. */
  lemma EachBecomes(c: Control, entries: seq<Entry>, rank: seq<nat>, resolved: seq<Entry>, i: nat)
    requires OrderLists(c) && IsResolved(c, entries, rank, resolved) && i < |entries|
    ensures Becomes(c, entries, resolved, i)
  {
    ReferencesAre(entries[i]);
    var stages := FollowStages(c, entries, rank, resolved, i, entries[i], References(entries[i]));
  }

  /** Resolve entries whose references have no cycle. */
  method InheritAcyclic(c: Control, entries: seq<Entry>) returns (resolved: seq<Entry>, warnings: seq<string>)
    requires OrderLists(c) && Acyclic(Parents(IndexOf(entries), entries))
    ensures |resolved| == |entries| && forall i :: 0 <= i < |entries| ==> Becomes(c, entries, resolved, i)
  {
    resolved, warnings := Inherit(c, entries);
    IndexOfInto(entries);
    RankedIffAcyclic(IndexOf(entries), entries);
    ghost var rank :| IsRank(IndexOf(entries), entries, rank);
    forall i | 0 <= i < |entries| ensures Becomes(c, entries, resolved, i) {
      EachBecomes(c, entries, rank, resolved, i);
    }
  }

  // ----- One reference -----

  predicate OnlyRefers(e: Entry, field: string, key: string) {
    ReferencesOf(e) == [(field, key)]
  }

  lemma OneStage(c: Control, entries: seq<Entry>, resolved: seq<Entry>, i: nat, field: string, key: string)
    returns (e: Entry)
    requires |resolved| == |entries| && i < |entries| && Becomes(c, entries, resolved, i)
    requires OnlyRefers(entries[i], field, key)
    ensures Acts(c, entries, resolved, (field, key), entries[i], e)
    ensures resolved[i] == WithoutXdata(e)
  {
    var stages: seq<Entry> :| Stages(c, entries, resolved, ReferencesOf(entries[i]), stages) && stages[0] == entries[i]
      && resolved[i] == WithoutXdata(stages[|stages| - 1]);
    e := stages[1];
    assert Acts(c, entries, resolved, ReferencesOf(entries[i])[0], stages[0], stages[0 + 1]);
  }

  /** An entry with only a CROSSREF, and one with only an XDATA entry, inherits each field as it is offered. */
  lemma OneParent(
    c: Control, entries: seq<Entry>, resolved: seq<Entry>, i: nat, field: string, key: string, j: nat, f: string)
    requires |resolved| == |entries| && i < |entries| && Becomes(c, entries, resolved, i)
    requires OnlyRefers(entries[i], field, key) && Named(entries, key, j) && f != "xdata"
    requires field == "crossref" || (field == "xdata" && resolved[j].kind == "xdata")
    ensures FieldIs(resolved[j], entries[i], resolved[i], f,
              Taken(Offers(c, resolved[j], entries[i], field == "xdata", f), f in entries[i].fields))
  {
    var e := OneStage(c, entries, resolved, i, field, key);
    NamedActs(c, entries, resolved, field, key, j, entries[i], e);
    InheritsField(c, resolved[j], entries[i], e, field == "xdata", f);
  }

  lemma InheritsField(c: Control, source: Entry, before: Entry, e: Entry, xdata: bool, f: string)
    requires Inherits(c, source, before, e, xdata) && f != "xdata"
    ensures FieldIs(source, before, WithoutXdata(e), f, Taken(Offers(c, source, before, xdata, f), f in before.fields))
  {
    assert FieldIs(source, before, e, f, Taken(Offers(c, source, before, xdata, f), f in before.fields));
  }

  lemma NamedActs(
    c: Control, entries: seq<Entry>, resolved: seq<Entry>, field: string, key: string, j: nat, before: Entry, e: Entry)
    requires |resolved| == |entries| && Acts(c, entries, resolved, (field, key), before, e) && Named(entries, key, j)
    ensures field == "crossref" ==> Inherits(c, resolved[j], before, e, false)
    ensures field == "xdata" && resolved[j].kind == "xdata" ==> Inherits(c, resolved[j], before, e, true)
    ensures field == "xref" ==> e == before
  {
    assert IsName(entries, key);
  }

  lemma UnnamedActs(
    c: Control, entries: seq<Entry>, resolved: seq<Entry>, key: string, before: Entry, e: Entry)
    requires |resolved| == |entries| && Acts(c, entries, resolved, ("xref", key), before, e) && !IsName(entries, key)
    ensures e == before
  {
  }

  /** An entry with only an XREF stays as it is. */
  lemma OnlyXref(c: Control, entries: seq<Entry>, resolved: seq<Entry>, i: nat, key: string)
    requires |resolved| == |entries| && i < |entries| && Becomes(c, entries, resolved, i)
    requires OnlyRefers(entries[i], "xref", key)
    ensures resolved[i] == WithoutXdata(entries[i])
  {
    var e := OneStage(c, entries, resolved, i, "xref", key);
    if j: nat :| Named(entries, key, j) {
      NamedActs(c, entries, resolved, "xref", key, j, entries[i], e);
    } else {
      UnnamedActs(c, entries, resolved, key, entries[i], e);
    }
  }
}

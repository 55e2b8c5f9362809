/**
 The worklist that runs source maps over the wanted entries (`sourcemaps`,
 crates/tex-biber/src/bib.rs). What the maps do to one entry is a parameter that sees only that entry.
 */
module SourceMaps {
  import opened Wrappers
  import opened Splitting
  import opened Graphs
  import opened Inheritance

  /** What mapping an entry gives: whether it is kept, the entry as it then is, and the entries it created. */
  datatype Mapped = Mapped(keep: bool, entry: Entry, created: seq<Entry>)

  type Mapping = Entry -> Result<Mapped, string>

  // ----- Reachability -----

  /** `a` and `b` have a name in common. */
  ghost predicate Meets(a: set<string>, b: set<string>) {
    exists name :: name in a && name in b
  }

  /** A chain of entries, the first cited and each next one linked to by the one before. */
  ghost predicate IsChain(names: seq<set<string>>, links: seq<set<string>>, cited: set<string>, chain: seq<nat>)
    requires |names| == |links|
  {
    && chain != []
    && (forall n :: 0 <= n < |chain| ==> chain[n] < |names|)
    && Meets(names[chain[0]], cited)
    && (forall n :: 0 <= n < |chain| - 1 ==> Meets(names[chain[n + 1]], links[chain[n]]))
  }

  ghost predicate Reachable(names: seq<set<string>>, links: seq<set<string>>, cited: set<string>, i: nat)
    requires |names| == |links|
  {
    exists chain: seq<nat> :: IsChain(names, links, cited, chain) && chain[|chain| - 1] == i
  }

  /** The names wanted once the entries of `done` have been mapped. */
  ghost predicate Wants(links: seq<set<string>>, cited: set<string>, done: set<nat>, wanted: set<string>) {
    && (forall name :: name in wanted ==> name in cited || exists j :: j in done && j < |links| && name in links[j])
    && cited <= wanted
    && (forall j :: j in done && j < |links| ==> links[j] <= wanted)
  }

  ghost predicate AllReachable(names: seq<set<string>>, links: seq<set<string>>, cited: set<string>, done: set<nat>)
    requires |names| == |links|
  {
    forall j :: j in done ==> j < |names| && Reachable(names, links, cited, j)
  }

  lemma ReachableNext(
    names: seq<set<string>>, links: seq<set<string>>, cited: set<string>, done: set<nat>, wanted: set<string>, i: nat)
    requires |names| == |links| && i < |names|
    requires Wants(links, cited, done, wanted)
    requires AllReachable(names, links, cited, done) && Meets(names[i], wanted)
    ensures Reachable(names, links, cited, i) && AllReachable(names, links, cited, done + {i})
  {
    var name :| name in names[i] && name in wanted;
    if name in cited {
      var chain: seq<nat> := [i];
      assert IsChain(names, links, cited, chain) && chain[|chain| - 1] == i;
    } else {
      var j :| j in done && j < |links| && name in links[j];
      var chain: seq<nat> :| IsChain(names, links, cited, chain) && chain[|chain| - 1] == j;
      var longer := chain + [i];
      forall n | 0 <= n < |longer| - 1 ensures Meets(names[longer[n + 1]], links[longer[n]]) {
        if n < |chain| - 1 {
          assert Meets(names[chain[n + 1]], links[chain[n]]);
        }
      }
      assert IsChain(names, links, cited, longer) && longer[|longer| - 1] == i;
    }
  }

  /** When nothing wanted is left, every chain has been followed to its end. */
  lemma {:induction false} ChainDone(
    names: seq<set<string>>, links: seq<set<string>>, cited: set<string>, done: set<nat>, wanted: set<string>, chain: seq<nat>)
    requires |names| == |links|
    requires Wants(links, cited, done, wanted)
    requires forall i: nat :: i < |names| && i !in done ==> !Meets(names[i], wanted)
    requires IsChain(names, links, cited, chain)
    ensures chain[|chain| - 1] in done
    decreases |chain|
  {
    var last := chain[|chain| - 1];
    if |chain| == 1 {
      var name :| name in names[last] && name in cited;
      assert Meets(names[last], wanted);
    } else {
      var front := chain[..|chain| - 1];
      forall n | 0 <= n < |front| - 1 ensures Meets(names[front[n + 1]], links[front[n]]) {
        assert Meets(names[chain[n + 1]], links[chain[n]]);
      }
      ChainDone(names, links, cited, done, wanted, front);
      var m := |chain| - 2;
      assert Meets(names[chain[m + 1]], links[chain[m]]);
      var name :| name in names[last] && name in links[chain[m]];
      assert Meets(names[last], wanted);
    }
  }

  // ----- Names and links of entries -----

  function Elements(s: seq<string>): set<string> {
    set x | x in s
  }

  function Listed(e: Entry, field: string): set<string> {
    if field in e.fields then Elements(SplitList(e.fields[field], ",")) else {}
  }

  /** The key of an entry and its aliases. */
  function Names(e: Entry): set<string> {
    {e.key} + Listed(e, "ids")
  }

  function Referred(e: Entry): set<string> {
    Listed(e, "crossref") + Listed(e, "xref") + Listed(e, "xdata") + Listed(e, "related") + Listed(e, "entryset")
  }

  function AllReferred(entries: seq<Entry>): set<string> {
    if entries == [] then {} else Referred(entries[0]) + AllReferred(entries[1..])
  }

  /** What a mapped entry refers to, with what it created; a dropped entry refers to nothing. */
  function Links(r: Result<Mapped, string>): set<string> {
    if r.Ok? && r.value.keep then Referred(r.value.entry) + AllReferred(r.value.created) else {}
  }

  ghost function AllNames(entries: seq<Entry>): (names: seq<set<string>>)
    ensures |names| == |entries| && forall i :: 0 <= i < |entries| ==> names[i] == Names(entries[i])
  {
    seq(|entries|, i requires 0 <= i < |entries| => Names(entries[i]))
  }

  ghost function AllLinks(mapping: Mapping, entries: seq<Entry>): (links: seq<set<string>>)
    ensures |links| == |entries| && forall i :: 0 <= i < |entries| ==> links[i] == Links(mapping(entries[i]))
  {
    seq(|entries|, i requires 0 <= i < |entries| => Links(mapping(entries[i])))
  }

  // ----- The run -----

  datatype Outcome = Outcome(entries: seq<Entry>, citekeys: seq<string>, nocite: set<string>, warnings: seq<string>)

  function DroppedText(key: string, number: string): string {
    "Entry with key '" + key + "' in section '" + number
    + "' is cited and found but not created (likely due to sourcemap)"
  }

  function EntryKeys(entries: seq<Entry>): set<string> {
    set e | e in entries :: e.key
  }

  function Without(keys: seq<string>, key: string): (kept: seq<string>)
    ensures forall k :: k in kept <==> k in keys && k != key
  {
    if keys == [] then []
    else (if keys[0] == key then [] else [keys[0]]) + Without(keys[1..], key)
  }

  lemma ElementsWithout(keys: seq<string>, key: string)
    ensures Elements(Without(keys, key)) == Elements(keys) - {key}
  {
  }

  function Retain(entries: seq<Entry>, deleted: set<nat>, from: nat): seq<Entry>
    requires from <= |entries|
    decreases |entries| - from
  {
    if from == |entries| then []
    else (if from in deleted then [] else [entries[from]]) + Retain(entries, deleted, from + 1)
  }

  function PositionOf(entries: seq<Entry>, key: string): (at: nat)
    ensures at <= |entries|
    ensures at < |entries| ==> entries[at].key == key
    ensures forall k :: 0 <= k < at ==> entries[k].key != key
  {
    if entries == [] || entries[0].key == key then 0 else PositionOf(entries[1..], key) + 1
  }

  /** A created entry takes the place of the first entry with its key, or comes last. */
  function Place(entries: seq<Entry>, e: Entry): seq<Entry> {
    var at := PositionOf(entries, e.key);
    if at < |entries| then entries[at := e] else entries + [e]
  }

  function PlaceAll(entries: seq<Entry>, created: seq<Entry>): seq<Entry>
    decreases |created|
  {
    if created == [] then entries else PlaceAll(Place(entries, created[0]), created[1..])
  }

  /** The entries after mapping those of `log`. */
  ghost function MapAll(mapping: Mapping, entries: seq<Entry>, log: seq<nat>): (mapped: seq<Entry>)
    requires forall n :: 0 <= n < |log| ==> log[n] < |entries| && mapping(entries[log[n]]).Ok?
    ensures |mapped| == |entries|
  {
    seq(|entries|, i requires 0 <= i < |entries| =>
      if i in log && mapping(entries[i]).Ok? then mapping(entries[i]).value.entry else entries[i])
  }

  ghost function CreatedBy(mapping: Mapping, entries: seq<Entry>, log: seq<nat>): seq<Entry>
    requires forall n :: 0 <= n < |log| ==> log[n] < |entries| && mapping(entries[log[n]]).Ok?
  {
    if log == [] then []
    else
      var m := mapping(entries[log[|log| - 1]]).value;
      CreatedBy(mapping, entries, log[..|log| - 1]) + if m.keep then m.created else []
  }

  ghost function DroppedBy(mapping: Mapping, entries: seq<Entry>, log: seq<nat>): set<nat>
    requires forall n :: 0 <= n < |log| ==> log[n] < |entries| && mapping(entries[log[n]]).Ok?
  {
    set i | i in log && !mapping(entries[i]).value.keep
  }

  ghost function DroppedKeys(mapping: Mapping, entries: seq<Entry>, log: seq<nat>): set<string>
    requires forall n :: 0 <= n < |log| ==> log[n] < |entries| && mapping(entries[log[n]]).Ok?
  {
    set i | i in DroppedBy(mapping, entries, log) :: mapping(entries[i]).value.entry.key
  }

  lemma DroppedKeysStep(mapping: Mapping, entries: seq<Entry>, log: seq<nat>, i: nat)
    requires forall n :: 0 <= n < |log| ==> log[n] < |entries| && mapping(entries[log[n]]).Ok?
    requires i < |entries| && mapping(entries[i]).Ok?
    ensures var m := mapping(entries[i]).value;
            DroppedKeys(mapping, entries, log + [i])
            == DroppedKeys(mapping, entries, log) + (if m.keep then {} else {m.entry.key})
  {
    DroppedStep(mapping, entries, log, i);
  }

  lemma MapAllStep(mapping: Mapping, entries: seq<Entry>, log: seq<nat>, i: nat)
    requires forall n :: 0 <= n < |log| ==> log[n] < |entries| && mapping(entries[log[n]]).Ok?
    requires i < |entries| && mapping(entries[i]).Ok?
    ensures MapAll(mapping, entries, log + [i]) == MapAll(mapping, entries, log)[i := mapping(entries[i]).value.entry]
  {
  }

  lemma CreatedStep(mapping: Mapping, entries: seq<Entry>, log: seq<nat>, i: nat)
    requires forall n :: 0 <= n < |log| ==> log[n] < |entries| && mapping(entries[log[n]]).Ok?
    requires i < |entries| && mapping(entries[i]).Ok?
    ensures var m := mapping(entries[i]).value;
            CreatedBy(mapping, entries, log + [i]) == CreatedBy(mapping, entries, log) + (if m.keep then m.created else [])
  {
    assert (log + [i])[..|log + [i]| - 1] == log;
  }

  lemma DroppedStep(mapping: Mapping, entries: seq<Entry>, log: seq<nat>, i: nat)
    requires forall n :: 0 <= n < |log| ==> log[n] < |entries| && mapping(entries[log[n]]).Ok?
    requires i < |entries| && mapping(entries[i]).Ok?
    ensures var m := mapping(entries[i]).value;
            DroppedBy(mapping, entries, log + [i])
            == if m.keep then DroppedBy(mapping, entries, log) else DroppedBy(mapping, entries, log) + {i}
  {
  }

  /** Mapping entry `i` makes its links wanted; keys that are cited are wanted already. */
  lemma WantsStep(
    links: seq<set<string>>, cited: set<string>, done: set<nat>, wanted: set<string>, i: nat, keys: set<string>)
    requires Wants(links, cited, done, wanted) && i < |links| && keys <= cited
    ensures Wants(links, cited, done + {i}, wanted + links[i] + keys)
  {
    var done', wanted' := done + {i}, wanted + links[i] + keys;
    forall name | name in wanted'
      ensures name in cited || exists j :: j in done' && j < |links| && name in links[j]
    {
      if name in wanted && name !in cited {
        var j :| j in done && j < |links| && name in links[j];
        assert j in done';
      } else if name in links[i] {
        assert i in done';
      }
    }
  }

  /** The entries of a log are distinct, and mapping each succeeds. */
  ghost predicate IsLog(mapping: Mapping, originals: seq<Entry>, log: seq<nat>) {
    && (forall i, j :: 0 <= i < j < |log| ==> log[i] != log[j])
    && (forall n :: 0 <= n < |log| ==> log[n] < |originals| && mapping(originals[log[n]]).Ok?)
  }

  /** The state of a run, which the log of the entries mapped determines. */
  datatype Record = Record(
    done: set<nat>, entries: seq<Entry>, created: seq<Entry>, deleted: set<nat>, citekeys: seq<string>, wanted: set<string>)

  /** What remains of the cited keys: those of dropped entries go, and for the key `*` those of kept ones come. */
  function CiteNext(allKeys: bool, citekeys: seq<string>, m: Mapped): seq<string> {
    if !m.keep then Without(citekeys, m.entry.key)
    else if allKeys && m.entry.key !in citekeys then citekeys + [m.entry.key]
    else citekeys
  }

  ghost function Next(allKeys: bool, r: Record, i: nat, m: Mapped): (r': Record)
    requires i < |r.entries|
    ensures |r'.entries| == |r.entries|
  {
    var keys := CiteNext(allKeys, r.citekeys, m);
    Record(r.done + {i}, r.entries[i := m.entry],
      if m.keep then r.created + m.created else r.created,
      if m.keep then r.deleted else r.deleted + {i},
      keys,
      if m.keep then r.wanted + Links(Ok(m)) + Elements(keys) else r.wanted)
  }

  ghost function Start(citekeys: seq<string>, entries: seq<Entry>): Record {
    Record({}, entries, [], {}, if "*" in citekeys then Without(citekeys, "*") else citekeys, Elements(citekeys))
  }

  ghost function After(mapping: Mapping, citekeys: seq<string>, entries: seq<Entry>, log: seq<nat>): (r: Record)
    requires IsLog(mapping, entries, log)
    ensures |r.entries| == |entries|
  {
    if log == [] then Start(citekeys, entries)
    else
      var i := log[|log| - 1];
      Next("*" in citekeys, After(mapping, citekeys, entries, log[..|log| - 1]), i, mapping(entries[i]).value)
  }

  /** Entry `i` is wanted: the key `*` cites every entry. */
  ghost predicate Wanted(citekeys: seq<string>, entries: seq<Entry>, r: Record, i: nat)
    requires i < |entries|
  {
    "*" in citekeys || Meets(Names(entries[i]), r.wanted)
  }

  /** Entry `i` is the first that is wanted and not yet mapped. */
  ghost predicate ComesNext(citekeys: seq<string>, entries: seq<Entry>, r: Record, i: nat)
    requires i < |entries|
  {
    && i !in r.done && Wanted(citekeys, entries, r, i)
    && forall k: nat :: k < i && k !in r.done ==> !Wanted(citekeys, entries, r, k)
  }

  /** Each entry of the log was the first one wanted when it was mapped. */
  ghost predicate IsRun(mapping: Mapping, citekeys: seq<string>, entries: seq<Entry>, log: seq<nat>)
    requires IsLog(mapping, entries, log)
  {
    log != [] ==>
      var front := log[..|log| - 1];
      && IsRun(mapping, citekeys, entries, front)
      && ComesNext(citekeys, entries, After(mapping, citekeys, entries, front), log[|log| - 1])
  }

  lemma OneComesNext(citekeys: seq<string>, entries: seq<Entry>, r: Record, i: nat, j: nat)
    requires i < |entries| && j < |entries|
    requires ComesNext(citekeys, entries, r, i) && ComesNext(citekeys, entries, r, j)
    ensures i == j
  {
  }

  lemma RunFront(mapping: Mapping, citekeys: seq<string>, entries: seq<Entry>, log: seq<nat>)
    requires IsLog(mapping, entries, log) && IsRun(mapping, citekeys, entries, log) && log != []
    ensures IsLog(mapping, entries, log[..|log| - 1]) && IsRun(mapping, citekeys, entries, log[..|log| - 1])
  {
  }

  lemma RunLast(mapping: Mapping, citekeys: seq<string>, entries: seq<Entry>, log: seq<nat>)
    requires IsLog(mapping, entries, log) && IsRun(mapping, citekeys, entries, log) && log != []
    ensures ComesNext(citekeys, entries, After(mapping, citekeys, entries, log[..|log| - 1]), log[|log| - 1])
  {
  }

  lemma FrontAndLast(s: seq<nat>) returns (front: seq<nat>, last: nat)
    requires s != []
    ensures front == s[..|s| - 1] && last == s[|s| - 1] && s == front + [last]
  {
    front, last := s[..|s| - 1], s[|s| - 1];
  }

  lemma RunSplit(mapping: Mapping, citekeys: seq<string>, entries: seq<Entry>, log: seq<nat>)
    returns (front: seq<nat>, last: nat)
    requires IsLog(mapping, entries, log) && IsRun(mapping, citekeys, entries, log) && log != []
    ensures log == front + [last] && last < |entries|
    ensures IsLog(mapping, entries, front) && IsRun(mapping, citekeys, entries, front)
    ensures ComesNext(citekeys, entries, After(mapping, citekeys, entries, front), last)
  {
    front, last := FrontAndLast(log);
    RunFront(mapping, citekeys, entries, log);
    RunLast(mapping, citekeys, entries, log);
  }

  /** There is one run of each length. */
  lemma {:induction false} RunsAgree(
    mapping: Mapping, citekeys: seq<string>, entries: seq<Entry>, log: seq<nat>, other: seq<nat>)
    requires IsLog(mapping, entries, log) && IsRun(mapping, citekeys, entries, log)
    requires IsLog(mapping, entries, other) && IsRun(mapping, citekeys, entries, other)
    requires |log| == |other|
    ensures log == other
    decreases |log|
  {
    if log != [] {
      var front, i := RunSplit(mapping, citekeys, entries, log);
      var front', j := RunSplit(mapping, citekeys, entries, other);
      RunsAgree(mapping, citekeys, entries, front, front');
      OneComesNext(citekeys, entries, After(mapping, citekeys, entries, front), i, j);
    }
  }

  /** For the key `*` the entry that comes next is the first one not yet mapped. */
  lemma NextOfAll(citekeys: seq<string>, entries: seq<Entry>, r: Record, i: nat, n: nat)
    requires "*" in citekeys && n <= i < |entries| && ComesNext(citekeys, entries, r, i)
    requires n !in r.done
    ensures i == n
  {
    assert Wanted(citekeys, entries, r, n);
  }

  /** For the key `*` the entries are mapped in their order. */
  lemma {:induction false} AllInOrder(mapping: Mapping, citekeys: seq<string>, entries: seq<Entry>, log: seq<nat>)
    requires IsLog(mapping, entries, log) && IsRun(mapping, citekeys, entries, log) && "*" in citekeys
    ensures forall n :: 0 <= n < |log| ==> log[n] == n
    decreases |log|
  {
    if log != [] {
      var front, last := RunSplit(mapping, citekeys, entries, log);
      AllInOrder(mapping, citekeys, entries, front);
      NextInOrder(mapping, citekeys, entries, front, last);
    }
  }

  lemma HoldsItsIndices(s: seq<nat>, n: nat)
    requires forall k :: 0 <= k < |s| ==> s[k] == k
    ensures n < |s| <==> n in s
  {
    if n < |s| {
      assert s[n] == n;
    }
  }

  lemma NextInOrder(mapping: Mapping, citekeys: seq<string>, entries: seq<Entry>, front: seq<nat>, last: nat)
    requires IsLog(mapping, entries, front) && "*" in citekeys && last < |entries|
    requires forall n :: 0 <= n < |front| ==> front[n] == n
    requires ComesNext(citekeys, entries, After(mapping, citekeys, entries, front), last)
    ensures last == |front|
  {
    AfterDone(mapping, citekeys, entries, front);
    HoldsItsIndices(front, last);
    NextOfAll(citekeys, entries, After(mapping, citekeys, entries, front), last, |front|);
  }

  lemma {:induction false} AfterDone(mapping: Mapping, citekeys: seq<string>, entries: seq<Entry>, log: seq<nat>)
    requires IsLog(mapping, entries, log)
    ensures forall i :: i in log <==> i in After(mapping, citekeys, entries, log).done
  {
    if log != [] {
      var front, i := log[..|log| - 1], log[|log| - 1];
      AfterDone(mapping, citekeys, entries, front);
      assert log == front + [i];
    }
  }

  lemma {:induction false} AfterEntries(mapping: Mapping, citekeys: seq<string>, entries: seq<Entry>, log: seq<nat>)
    requires IsLog(mapping, entries, log)
    ensures After(mapping, citekeys, entries, log).entries == MapAll(mapping, entries, log)
  {
    if log == [] {
      assert MapAll(mapping, entries, log) == entries;
    } else {
      var front, i := LogSplit(mapping, citekeys, entries, log);
      AfterEntries(mapping, citekeys, entries, front);
      MapAllStep(mapping, entries, front, i);
    }
  }

  lemma LogSplit(mapping: Mapping, citekeys: seq<string>, entries: seq<Entry>, log: seq<nat>)
    returns (front: seq<nat>, i: nat)
    requires IsLog(mapping, entries, log) && log != []
    ensures IsLog(mapping, entries, front) && i < |entries| && mapping(entries[i]).Ok? && log == front + [i]
    ensures After(mapping, citekeys, entries, log)
         == Next("*" in citekeys, After(mapping, citekeys, entries, front), i, mapping(entries[i]).value)
  {
    front, i := log[..|log| - 1], log[|log| - 1];
  }

  lemma CreatedNext(mapping: Mapping, entries: seq<Entry>, front: seq<nat>, i: nat, r: Record, allKeys: bool)
    requires IsLog(mapping, entries, front) && i < |entries| && mapping(entries[i]).Ok? && i < |r.entries|
    requires r.created == CreatedBy(mapping, entries, front)
    ensures Next(allKeys, r, i, mapping(entries[i]).value).created == CreatedBy(mapping, entries, front + [i])
  {
    CreatedStep(mapping, entries, front, i);
    assert r.created + [] == r.created;
  }

  lemma {:induction false} AfterCreated(mapping: Mapping, citekeys: seq<string>, entries: seq<Entry>, log: seq<nat>)
    requires IsLog(mapping, entries, log)
    ensures After(mapping, citekeys, entries, log).created == CreatedBy(mapping, entries, log)
  {
    if log == [] {
      assert CreatedBy(mapping, entries, log) == [];
    } else {
      var front, i := LogSplit(mapping, citekeys, entries, log);
      AfterCreated(mapping, citekeys, entries, front);
      CreatedNext(mapping, entries, front, i, After(mapping, citekeys, entries, front), "*" in citekeys);
    }
  }

  lemma {:induction false} AfterDeleted(mapping: Mapping, citekeys: seq<string>, entries: seq<Entry>, log: seq<nat>)
    requires IsLog(mapping, entries, log)
    ensures After(mapping, citekeys, entries, log).deleted == DroppedBy(mapping, entries, log)
  {
    if log == [] {
      assert DroppedBy(mapping, entries, log) == {};
    } else {
      var front, i := LogSplit(mapping, citekeys, entries, log);
      AfterDeleted(mapping, citekeys, entries, front);
      DroppedStep(mapping, entries, front, i);
    }
  }

  /** The record of the entries does not depend on the order of the log but for the created ones. */
  lemma AfterExact(mapping: Mapping, citekeys: seq<string>, entries: seq<Entry>, log: seq<nat>)
    requires IsLog(mapping, entries, log)
    ensures var r := After(mapping, citekeys, entries, log);
            && (forall i :: i in log <==> i in r.done)
            && r.entries == MapAll(mapping, entries, log)
            && r.created == CreatedBy(mapping, entries, log)
            && r.deleted == DroppedBy(mapping, entries, log)
  {
    AfterDone(mapping, citekeys, entries, log);
    AfterEntries(mapping, citekeys, entries, log);
    AfterCreated(mapping, citekeys, entries, log);
    AfterDeleted(mapping, citekeys, entries, log);
  }

  lemma AfterStep(mapping: Mapping, citekeys: seq<string>, entries: seq<Entry>, log: seq<nat>, i: nat, m: Mapped)
    requires IsLog(mapping, entries, log) && i < |entries| && mapping(entries[i]) == Ok(m)
    requires i !in After(mapping, citekeys, entries, log).done
    ensures IsLog(mapping, entries, log + [i])
    ensures After(mapping, citekeys, entries, log + [i])
         == Next("*" in citekeys, After(mapping, citekeys, entries, log), i, m)
  {
    AfterExact(mapping, citekeys, entries, log);
    assert (log + [i])[..|log|] == log;
    assert forall n :: 0 <= n < |log| ==> log[n] in log;
  }

  lemma CitedStep(cited: set<string>, dropped: set<string>, citekeys: seq<string>, m: Mapped)
    requires Elements(citekeys) == cited - dropped
    ensures Elements(CiteNext(false, citekeys, m)) == cited - (dropped + (if m.keep then {} else {m.entry.key}))
  {
    ElementsWithout(citekeys, m.entry.key);
  }

  /** Of the cited keys, exactly those of dropped entries go. */
  lemma {:induction false} CitedAfter(mapping: Mapping, citekeys: seq<string>, entries: seq<Entry>, log: seq<nat>)
    requires IsLog(mapping, entries, log) && "*" !in citekeys
    ensures Elements(After(mapping, citekeys, entries, log).citekeys)
         == Elements(citekeys) - DroppedKeys(mapping, entries, log)
  {
    if log == [] {
      assert DroppedKeys(mapping, entries, log) == {};
    } else {
      var front, i := log[..|log| - 1], log[|log| - 1];
      CitedAfter(mapping, citekeys, entries, front);
      var m := mapping(entries[i]).value;
      CitedStep(Elements(citekeys), DroppedKeys(mapping, entries, front), After(mapping, citekeys, entries, front).citekeys, m);
      LastDroppedKeys(mapping, entries, log);
    }
  }

  lemma LastDroppedKeys(mapping: Mapping, entries: seq<Entry>, log: seq<nat>)
    requires IsLog(mapping, entries, log) && log != []
    ensures var m := mapping(entries[log[|log| - 1]]).value;
            DroppedKeys(mapping, entries, log)
            == DroppedKeys(mapping, entries, log[..|log| - 1]) + (if m.keep then {} else {m.entry.key})
  {
    assert log == log[..|log| - 1] + [log[|log| - 1]];
    DroppedKeysStep(mapping, entries, log[..|log| - 1], log[|log| - 1]);
  }

  lemma {:induction false} WantedAfter(mapping: Mapping, citekeys: seq<string>, entries: seq<Entry>, log: seq<nat>)
    requires IsLog(mapping, entries, log) && "*" !in citekeys
    ensures var r := After(mapping, citekeys, entries, log);
            Wants(AllLinks(mapping, entries), Elements(citekeys), r.done, r.wanted)
  {
    if log != [] {
      var front, i := log[..|log| - 1], log[|log| - 1];
      var before, m := After(mapping, citekeys, entries, front), mapping(entries[i]).value;
      WantedAfter(mapping, citekeys, entries, front);
      CitedAfter(mapping, citekeys, entries, log);
      var keys := if m.keep then Elements(CiteNext(false, before.citekeys, m)) else {};
      WantsStep(AllLinks(mapping, entries), Elements(citekeys), before.done, before.wanted, i, keys);
      assert !m.keep ==> before.wanted + {} + {} == before.wanted;
    }
  }

  /** Every entry of a run is one that a citation reaches. */
  lemma {:induction false} RunReachable(mapping: Mapping, citekeys: seq<string>, entries: seq<Entry>, log: seq<nat>)
    requires IsLog(mapping, entries, log) && IsRun(mapping, citekeys, entries, log) && "*" !in citekeys
    ensures AllReachable(
              AllNames(entries), AllLinks(mapping, entries), Elements(citekeys),
              After(mapping, citekeys, entries, log).done)
  {
    if log != [] {
      var front, i := log[..|log| - 1], log[|log| - 1];
      var before := After(mapping, citekeys, entries, front);
      var names, links, cited := AllNames(entries), AllLinks(mapping, entries), Elements(citekeys);
      RunReachable(mapping, citekeys, entries, front);
      WantedAfter(mapping, citekeys, entries, front);
      ReachableNext(names, links, cited, before.done, before.wanted, i);
    }
  }

  /** No entry is left that is wanted and has not been mapped. */
  ghost predicate NothingWanted(r: Record, entries: seq<Entry>) {
    forall i: nat :: i < |entries| && i !in r.done ==> !Meets(Names(entries[i]), r.wanted)
  }

  /** A run with nothing wanted left has mapped exactly the entries that a citation reaches. */
  lemma RunExact(mapping: Mapping, citekeys: seq<string>, entries: seq<Entry>, log: seq<nat>)
    requires IsLog(mapping, entries, log) && "*" !in citekeys
    ensures IsRun(mapping, citekeys, entries, log) && NothingWanted(After(mapping, citekeys, entries, log), entries) ==>
              forall i: nat :: i in log <==>
                i < |entries| && Reachable(AllNames(entries), AllLinks(mapping, entries), Elements(citekeys), i)
  {
    var r, names, links := After(mapping, citekeys, entries, log), AllNames(entries), AllLinks(mapping, entries);
    if IsRun(mapping, citekeys, entries, log) && NothingWanted(r, entries) {
      AfterExact(mapping, citekeys, entries, log);
      RunReachable(mapping, citekeys, entries, log);
      WantedAfter(mapping, citekeys, entries, log);
      forall i: nat | i < |entries| && Reachable(names, links, Elements(citekeys), i) ensures i in r.done {
        var chain: seq<nat> :| IsChain(names, links, Elements(citekeys), chain) && chain[|chain| - 1] == i;
        ChainDone(names, links, Elements(citekeys), r.done, r.wanted, chain);
      }
    }
  }

  lemma RunStep(mapping: Mapping, citekeys: seq<string>, entries: seq<Entry>, log: seq<nat>, i: nat)
    requires IsLog(mapping, entries, log) && IsRun(mapping, citekeys, entries, log) && i < |entries|
    requires ComesNext(citekeys, entries, After(mapping, citekeys, entries, log), i)
    requires IsLog(mapping, entries, log + [i])
    ensures IsRun(mapping, citekeys, entries, log + [i])
  {
    assert (log + [i])[..|log|] == log;
  }

  /** A warning for each dropped entry whose key is wanted when it is dropped, in order. */
  ghost function WarningsOf(
    mapping: Mapping, citekeys: seq<string>, entries: seq<Entry>, number: string, log: seq<nat>): seq<string>
    requires IsLog(mapping, entries, log)
  {
    if log == [] then []
    else
      var front, m := log[..|log| - 1], mapping(entries[log[|log| - 1]]).value;
      WarningsOf(mapping, citekeys, entries, number, front)
      + if !m.keep && m.entry.key in After(mapping, citekeys, entries, front).wanted
        then [DroppedText(m.entry.key, number)] else []
  }

  /** With `*` cited and among those only listed, every entry kept or created that is not cited itself is only listed. */
  ghost function NociteOf(
    mapping: Mapping, citekeys: seq<string>, entries: seq<Entry>, nocite: set<string>, log: seq<nat>): set<string>
    requires IsLog(mapping, entries, log)
  {
    if log == [] then nocite
    else
      var m := mapping(entries[log[|log| - 1]]).value;
      NociteOf(mapping, citekeys, entries, nocite, log[..|log| - 1])
      + if m.keep && "*" in citekeys && "*" in nocite
        then ({m.entry.key} + EntryKeys(m.created)) - Elements(citekeys) else {}
  }

  lemma {:induction false} NociteGrows(
    mapping: Mapping, citekeys: seq<string>, entries: seq<Entry>, nocite: set<string>, log: seq<nat>)
    requires IsLog(mapping, entries, log)
    ensures nocite <= NociteOf(mapping, citekeys, entries, nocite, log)
    ensures "*" in citekeys && "*" in NociteOf(mapping, citekeys, entries, nocite, log) ==> "*" in nocite
  {
    if log != [] {
      NociteGrows(mapping, citekeys, entries, nocite, log[..|log| - 1]);
    }
  }

  lemma WarningsStep(
    mapping: Mapping, citekeys: seq<string>, entries: seq<Entry>, number: string, log: seq<nat>, i: nat, m: Mapped)
    requires IsLog(mapping, entries, log) && IsLog(mapping, entries, log + [i])
    requires i < |entries| && mapping(entries[i]) == Ok(m)
    ensures WarningsOf(mapping, citekeys, entries, number, log + [i])
            == WarningsOf(mapping, citekeys, entries, number, log)
               + if !m.keep && m.entry.key in After(mapping, citekeys, entries, log).wanted
                 then [DroppedText(m.entry.key, number)] else []
  {
    assert (log + [i])[..|log|] == log;
  }

  lemma NociteStep(
    mapping: Mapping, citekeys: seq<string>, entries: seq<Entry>, nocite: set<string>, log: seq<nat>, i: nat, m: Mapped)
    requires IsLog(mapping, entries, log) && IsLog(mapping, entries, log + [i])
    requires i < |entries| && mapping(entries[i]) == Ok(m)
    ensures var before := NociteOf(mapping, citekeys, entries, nocite, log);
            NociteOf(mapping, citekeys, entries, nocite, log + [i])
            == before + if m.keep && "*" in citekeys && "*" in before
                        then ({m.entry.key} + EntryKeys(m.created)) - Elements(citekeys) else {}
  {
    assert (log + [i])[..|log|] == log;
    NociteGrows(mapping, citekeys, entries, nocite, log);
  }

  /** What a log determines: it is a run, and it leads to this state with these warnings and this list. */
  ghost predicate Logged(
    mapping: Mapping, citekeys: seq<string>, entries: seq<Entry>, number: string, listed: set<string>,
    log: seq<nat>, r: Record, warnings: seq<string>, nocite: set<string>)
  {
    && IsLog(mapping, entries, log)
    && r == After(mapping, citekeys, entries, log)
    && IsRun(mapping, citekeys, entries, log)
    && warnings == WarningsOf(mapping, citekeys, entries, number, log)
    && nocite == NociteOf(mapping, citekeys, entries, listed, log)
  }

  lemma LoggedStep(
    mapping: Mapping, citekeys: seq<string>, entries: seq<Entry>, number: string, listed: set<string>,
    log: seq<nat>, r: Record, warnings: seq<string>, nocite: set<string>, i: nat, m: Mapped)
    requires Logged(mapping, citekeys, entries, number, listed, log, r, warnings, nocite)
    requires i < |entries| && ComesNext(citekeys, entries, r, i) && mapping(entries[i]) == Ok(m)
    ensures Logged(mapping, citekeys, entries, number, listed, log + [i], Next("*" in citekeys, r, i, m),
              warnings + (if !m.keep && m.entry.key in r.wanted then [DroppedText(m.entry.key, number)] else []),
              nocite + (if m.keep && "*" in citekeys && "*" in nocite
                        then ({m.entry.key} + EntryKeys(m.created)) - Elements(citekeys) else {}))
  {
    AfterStep(mapping, citekeys, entries, log, i, m);
    WarningsStep(mapping, citekeys, entries, number, log, i, m);
    NociteStep(mapping, citekeys, entries, listed, log, i, m);
    RunStep(mapping, citekeys, entries, log, i);
  }

  class Run {
    const mapping: Mapping
    const allKeys: bool
    const number: string
    const explicit: set<string>
    ghost const listed: set<string>
    ghost const cited: seq<string>
    ghost const originals: seq<Entry>
    var entries: seq<Entry>
    var citekeys: seq<string>
    var wanted: set<string>
    var done: set<nat>
    var deleted: set<nat>
    var created: seq<Entry>
    var nocite: set<string>
    var warnings: seq<string>
    /** The entries mapped so far, in order. */
    ghost var log: seq<nat>

    ghost function State(): Record
      reads this
    {
      Record(done, entries, created, deleted, citekeys, wanted)
    }

    /** The state is the one the log leads to. */
    ghost predicate Valid()
      reads this
    {
      && allKeys == ("*" in cited) && explicit == Elements(cited)
      && Logged(mapping, cited, originals, number, listed, log, State(), warnings, nocite)
    }

    constructor (mapping: Mapping, citekeys: seq<string>, nocite: set<string>, number: string, entries: seq<Entry>)
      ensures Valid()
      ensures this.mapping == mapping && cited == citekeys && originals == entries && log == []
      ensures this.number == number && listed == nocite
    {
      this.number, explicit, listed, this.nocite := number, Elements(citekeys), nocite, nocite;
      this.mapping, this.cited, this.originals, this.entries := mapping, citekeys, entries, entries;
      allKeys, wanted := "*" in citekeys, Elements(citekeys);
      this.citekeys := if "*" in citekeys then Without(citekeys, "*") else citekeys;
      done, deleted, created, warnings, log := {}, {}, [], [], [];
    }

    /** An entry that has not been mapped is as it was. */
    lemma Untouched()
      requires Valid()
      ensures |entries| == |originals|
      ensures forall i: nat :: i < |originals| && i !in done ==> entries[i] == originals[i]
    {
      AfterExact(mapping, cited, originals, log);
    }

    predicate IsWanted(e: Entry)
      reads this
    {
      allKeys || e.key in wanted || exists id :: id in Listed(e, "ids") && id in wanted
    }

    lemma WantedMeets(e: Entry)
      ensures IsWanted(e) <==> allKeys || Meets(Names(e), wanted)
    {
      if e.key in wanted {
        assert e.key in Names(e);
      }
      if id :| id in Listed(e, "ids") && id in wanted {
        assert id in Names(e);
      }
    }

    /** No entry before `upto` is wanted and not yet mapped. */
    ghost predicate NoneWanted(upto: nat)
      reads this
    {
      forall k: nat :: k < upto && k < |originals| && k !in done ==> !IsWanted(originals[k])
    }

    lemma NoneWantedNext(i: nat)
      requires NoneWanted(i) && (i < |originals| && i !in done ==> !IsWanted(originals[i]))
      ensures NoneWanted(i + 1)
    {
    }

    /** The first wanted entry is the one that a run maps next. */
    lemma FirstComesNext(i: nat)
      requires Valid() && i < |originals| && i !in done && IsWanted(originals[i]) && NoneWanted(i)
      ensures ComesNext(cited, originals, State(), i)
    {
      WantedMeets(originals[i]);
      forall k: nat | k < i && k !in done ensures !Wanted(cited, originals, State(), k) {
        WantedMeets(originals[k]);
      }
    }

    /** The first wanted entry that has not been mapped. */
    method FirstWanted() returns (next: Option<nat>)
      requires Valid()
      ensures next.Some? ==> next.value < |originals| && next.value !in done && IsWanted(originals[next.value])
      ensures NoneWanted(if next.Some? then next.value else |originals|)
    {
      Untouched();
      for i := 0 to |entries|
        invariant NoneWanted(i)
      {
        if i !in done && IsWanted(entries[i]) {
          return Some(i);
        }
        NoneWantedNext(i);
      }
      next := None;
    }

    /** Map entry `i`, the first one wanted; an error of the map ends the run. */
    method Step(i: nat) returns (failed: Option<string>)
      requires Valid()
      requires i < |originals| && ComesNext(cited, originals, State(), i)
      modifies this
      ensures Valid()
      ensures failed.Some? ==> log == old(log) && mapping(originals[i]) == Err(failed.value)
      ensures failed.None? ==> log == old(log) + [i] && done == old(done) + {i}
    {
      Untouched();
      match mapping(entries[i]) {
        case Err(e) =>
          failed := Some(e);
        case Ok(m) =>
          TakeNext(i, m);
          failed := None;
      }
    }

    method TakeNext(i: nat, m: Mapped)
      requires Valid()
      requires i < |originals| && ComesNext(cited, originals, State(), i) && mapping(originals[i]) == Ok(m)
      modifies this
      ensures Valid() && log == old(log) + [i] && done == old(done) + {i}
    {
      LoggedStep(mapping, cited, originals, number, listed, log, State(), warnings, nocite, i, m);
      TakeAs(i, m, Next(allKeys, State(), i, m),
        warnings + if !m.keep && m.entry.key in wanted then [DroppedText(m.entry.key, number)] else [],
        nocite + if m.keep && allKeys && "*" in nocite then ({m.entry.key} + EntryKeys(m.created)) - explicit else {});
    }

    /** Take over what the map made of entry `i`, which leads to the state, warnings and list given. */
    method TakeAs(i: nat, m: Mapped, ghost r: Record, ghost w: seq<string>, ghost l: set<string>)
      requires i < |entries| && allKeys == ("*" in cited) && explicit == Elements(cited)
      requires Logged(mapping, cited, originals, number, listed, log + [i], r, w, l)
      requires r == Next(allKeys, State(), i, m)
      requires w == warnings + if !m.keep && m.entry.key in wanted then [DroppedText(m.entry.key, number)] else []
      requires l == nocite + if m.keep && allKeys && "*" in nocite then ({m.entry.key} + EntryKeys(m.created)) - explicit else {}
      modifies this
      ensures Valid() && log == old(log) + [i] && done == old(done) + {i}
    {
      Take(i, m);
      log := log + [i];
      assert State() == r && warnings == w && nocite == l;
    }

    /** Take over what the map made of entry `i`. */
    method Take(i: nat, m: Mapped)
      requires i < |entries|
      modifies `done, `entries, `created, `deleted, `citekeys, `wanted, `warnings, `nocite
      ensures State() == Next(allKeys, old(State()), i, m)
      ensures warnings == old(warnings)
                + if !m.keep && m.entry.key in old(wanted) then [DroppedText(m.entry.key, number)] else []
      ensures nocite == old(nocite)
                + if m.keep && allKeys && "*" in old(nocite) then ({m.entry.key} + EntryKeys(m.created)) - explicit else {}
    {
      done := done + {i};
      entries := entries[i := m.entry];
      if m.keep {
        TakeKept(m);
      } else {
        deleted := deleted + {i};
        if m.entry.key in wanted {
          warnings := warnings + [DroppedText(m.entry.key, number)];
        }
        citekeys := Without(citekeys, m.entry.key);
      }
    }

    method TakeKept(m: Mapped)
      requires m.keep
      modifies `created, `citekeys, `wanted, `nocite
      ensures citekeys == CiteNext(allKeys, old(citekeys), m) && created == old(created) + m.created
      ensures wanted == old(wanted) + Links(Ok(m)) + Elements(citekeys)
      ensures nocite == old(nocite)
                + if allKeys && "*" in old(nocite) then ({m.entry.key} + EntryKeys(m.created)) - explicit else {}
    {
      if allKeys && m.entry.key !in citekeys {
        citekeys := citekeys + [m.entry.key];
      }
      if allKeys && "*" in nocite {
        nocite := nocite + (({m.entry.key} + EntryKeys(m.created)) - explicit);
      }
      wanted := wanted + Links(Ok(m)) + Elements(citekeys);
      created := created + m.created;
    }
  }

  /** The key `*` cites every entry; otherwise a chain must lead to it. */
  ghost predicate Cited(mapping: Mapping, citekeys: seq<string>, entries: seq<Entry>, i: nat) {
    "*" in citekeys || Reachable(AllNames(entries), AllLinks(mapping, entries), Elements(citekeys), i)
  }

  /**
   Map the wanted entries. Each is mapped once; the entries mapped are exactly those that a chain of
   names and links leads to from a citation (or all of them, for the key `*`), and at each turn the first
   one wanted is mapped.
   */
  method MapSources(mapping: Mapping, citekeys: seq<string>, nocite: set<string>, number: string, entries: seq<Entry>)
    returns (r: Result<Outcome, string>, ghost log: seq<nat>)
    ensures IsLog(mapping, entries, log) && IsRun(mapping, citekeys, entries, log)
    ensures r.Ok? ==> forall i: nat :: i in log <==> i < |entries| && Cited(mapping, citekeys, entries, i)
    ensures r.Ok? ==>
              && r.value.entries ==
                 PlaceAll(Retain(MapAll(mapping, entries, log), DroppedBy(mapping, entries, log), 0),
                          CreatedBy(mapping, entries, log))
              && ("*" !in citekeys ==>
                   Elements(r.value.citekeys) == Elements(citekeys) - DroppedKeys(mapping, entries, log))
              && r.value.citekeys == After(mapping, citekeys, entries, log).citekeys
              && r.value.warnings == WarningsOf(mapping, citekeys, entries, number, log)
              && r.value.nocite == NociteOf(mapping, citekeys, entries, nocite, log)
    ensures r.Err? ==> exists i: nat ::
              i < |entries| && Cited(mapping, citekeys, entries, i) && mapping(entries[i]) == Err(r.error)
  {
    var run := new Run(mapping, citekeys, nocite, number, entries);
    while true
      invariant run.mapping == mapping && run.originals == entries && run.cited == citekeys && run.Valid()
      invariant run.number == number && run.listed == nocite
      decreases Upto(|entries|) - run.done
    {
      log := run.log;
      AfterExact(mapping, citekeys, entries, log);
      var next := run.FirstWanted();
      if next.None? {
        break;
      }
      run.FirstComesNext(next.value);
      var failed := run.Step(next.value);
      if failed.Some? {
        FailedCited(mapping, citekeys, entries, log, next.value);
        return Err(failed.value), log;
      }
    }
    NothingLeft(run);
    if "*" !in citekeys {
      CitedAfter(mapping, citekeys, entries, log);
    }
    r := Ok(Outcome(PlaceAll(Retain(run.entries, run.deleted, 0), run.created), run.citekeys, run.nocite, run.warnings));
  }

  lemma FailedCited(mapping: Mapping, citekeys: seq<string>, entries: seq<Entry>, log: seq<nat>, i: nat)
    requires IsLog(mapping, entries, log) && i < |entries|
    requires IsRun(mapping, citekeys, entries, log)
    requires Wanted(citekeys, entries, After(mapping, citekeys, entries, log), i)
    ensures Cited(mapping, citekeys, entries, i)
  {
    if "*" !in citekeys {
      var r := After(mapping, citekeys, entries, log);
      RunReachable(mapping, citekeys, entries, log);
      WantedAfter(mapping, citekeys, entries, log);
      ReachableNext(AllNames(entries), AllLinks(mapping, entries), Elements(citekeys), r.done, r.wanted, i);
    }
  }

  lemma NothingLeft(run: Run)
    requires run.Valid()
    requires forall i: nat :: i < |run.originals| && i !in run.done ==> !run.IsWanted(run.originals[i])
    ensures forall i: nat :: i in run.log <==>
              i < |run.originals| && Cited(run.mapping, run.cited, run.originals, i)
  {
    AfterExact(run.mapping, run.cited, run.originals, run.log);
    forall i: nat | i < |run.originals| && i !in run.done
      ensures !run.allKeys && !Meets(Names(run.originals[i]), run.wanted)
    {
      run.WantedMeets(run.originals[i]);
    }
    if !run.allKeys {
      RunExact(run.mapping, run.cited, run.originals, run.log);
    }
  }
}

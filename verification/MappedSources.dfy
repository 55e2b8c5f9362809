/**
 What source maps leave of the entries and keys (`sourcemaps`, crates/tex-biber/src/bib.rs), told of the entries
 mapped alone: which entries go, where created ones come, what links and names are, which keys and warnings.
 */
module MappedSources {
  import opened Wrappers
  import opened Splitting
  import opened Inheritance
  import opened SourceMaps

  // ----- Names and links -----

  ghost predicate Lists(e: Entry, field: string, name: string) {
    field in e.fields && name in SplitList(e.fields[field], ",")
  }

  /** An entry is named by its key and by what its `ids` list. */
  lemma NamesExact(e: Entry, name: string)
    ensures name in Names(e) <==> name == e.key || Lists(e, "ids", name)
  {
  }

  ghost predicate Refers(e: Entry, name: string) {
    || Lists(e, "crossref", name) || Lists(e, "xref", name) || Lists(e, "xdata", name)
    || Lists(e, "related", name) || Lists(e, "entryset", name)
  }

  lemma ReferredExact(e: Entry, name: string)
    ensures name in Referred(e) <==> Refers(e, name)
  {
  }

  ghost predicate AnyRefers(entries: seq<Entry>, name: string) {
    exists i :: 0 <= i < |entries| && Refers(entries[i], name)
  }

  lemma AnyRefersFirst(entries: seq<Entry>, name: string)
    requires entries != []
    ensures AnyRefers(entries, name) <==> Refers(entries[0], name) || AnyRefers(entries[1..], name)
  {
    if i :| 0 <= i < |entries| && Refers(entries[i], name) {
      if i > 0 {
        assert Refers(entries[1..][i - 1], name);
      }
    }
    if i :| 0 <= i < |entries[1..]| && Refers(entries[1..][i], name) {
      assert Refers(entries[i + 1], name);
    }
  }

  lemma {:induction false} AllReferredExact(entries: seq<Entry>, name: string)
    ensures name in AllReferred(entries) <==> AnyRefers(entries, name)
  {
    if entries != [] {
      AllReferredExact(entries[1..], name);
      ReferredExact(entries[0], name);
      AnyRefersFirst(entries, name);
    }
  }

  /** A kept entry links to what it, as mapped, and the entries created with it refer to; a dropped one to nothing. */
  lemma LinksExact(m: Mapped, name: string)
    ensures name in Links(Ok(m)) <==> m.keep && (Refers(m.entry, name) || AnyRefers(m.created, name))
    ensures forall e: string :: name !in Links(Err(e))
  {
    AllReferredExact(m.created, name);
    ReferredExact(m.entry, name);
  }

  // ----- Entries that go -----

  /** `kept` lists, in order, the indices from `from` on that are not among `deleted`. */
  ghost predicate Enumerates(kept: seq<nat>, deleted: set<nat>, from: nat, upto: nat) {
    && (forall n :: 0 <= n < |kept| ==> from <= kept[n] < upto && kept[n] !in deleted)
    && (forall n, m :: 0 <= n < m < |kept| ==> kept[n] < kept[m])
    && (forall i :: from <= i < upto && i !in deleted ==> i in kept)
  }

  predicate ListsAt(r: seq<Entry>, entries: seq<Entry>, kept: seq<nat>) {
    |r| == |kept| && forall n :: 0 <= n < |kept| ==> kept[n] < |entries| && r[n] == entries[kept[n]]
  }

  lemma {:induction false} RetainExact(entries: seq<Entry>, deleted: set<nat>, from: nat) returns (kept: seq<nat>)
    requires from <= |entries|
    ensures Enumerates(kept, deleted, from, |entries|) && ListsAt(Retain(entries, deleted, from), entries, kept)
    decreases |entries| - from
  {
    if from == |entries| {
      kept := [];
    } else {
      var rest := RetainExact(entries, deleted, from + 1);
      RetainNext(entries, deleted, from);
      if from in deleted {
        kept := rest;
        EnumeratesSkip(rest, deleted, from, |entries|);
      } else {
        kept := [from] + rest;
        EnumeratesMore(rest, deleted, from, |entries|);
        ListsMore(Retain(entries, deleted, from + 1), entries, rest, from);
      }
    }
  }

  lemma RetainNext(entries: seq<Entry>, deleted: set<nat>, from: nat)
    requires from < |entries|
    ensures var r := Retain(entries, deleted, from + 1);
            Retain(entries, deleted, from) == if from in deleted then r else [entries[from]] + r
  {
    var r := Retain(entries, deleted, from + 1);
    assert [] + r == r;
  }

  lemma ListsMore(r: seq<Entry>, entries: seq<Entry>, rest: seq<nat>, from: nat)
    requires ListsAt(r, entries, rest) && from < |entries|
    ensures ListsAt([entries[from]] + r, entries, [from] + rest)
  {
    var kept, s := [from] + rest, [entries[from]] + r;
    assert forall n :: 0 < n < |kept| ==> kept[n] == rest[n - 1] && s[n] == r[n - 1];
  }

  lemma EnumeratesSkip(rest: seq<nat>, deleted: set<nat>, from: nat, upto: nat)
    requires Enumerates(rest, deleted, from + 1, upto) && from in deleted
    ensures Enumerates(rest, deleted, from, upto)
  {
  }

  lemma EnumeratesMore(rest: seq<nat>, deleted: set<nat>, from: nat, upto: nat)
    requires Enumerates(rest, deleted, from + 1, upto) && from < upto && from !in deleted
    ensures Enumerates([from] + rest, deleted, from, upto)
  {
    var kept := [from] + rest;
    assert forall n :: 0 < n < |kept| ==> kept[n] == rest[n - 1];
    forall i | from <= i < upto && i !in deleted ensures i in kept {
      if i > from {
        assert i in rest;
      }
    }
  }

  // ----- Entries that come -----

  /** The last entry with the key. */
  function LastWith(entries: seq<Entry>, key: string): Option<Entry> {
    if entries == [] then None
    else
      var last := entries[|entries| - 1];
      if last.key == key then Some(last) else LastWith(entries[..|entries| - 1], key)
  }

  ghost predicate FirstWith(entries: seq<Entry>, p: nat)
    requires p < |entries|
  {
    forall q :: 0 <= q < p ==> entries[q].key != entries[p].key
  }

  ghost predicate HasKey(entries: seq<Entry>, key: string) {
    exists p :: 0 <= p < |entries| && entries[p].key == key
  }

  /**
   The last created entry with a key takes the place of the first entry with it; all other entries stay. The
   created entries with new keys, the last of each, come behind.
   */
  ghost predicate Placed(entries: seq<Entry>, created: seq<Entry>, r: seq<Entry>) {
    && |entries| <= |r|
    && (forall p :: 0 <= p < |entries| ==>
         r[p] == if FirstWith(entries, p) && LastWith(created, entries[p].key).Some?
                 then LastWith(created, entries[p].key).value else entries[p])
    && (forall p :: |entries| <= p < |r| ==> Some(r[p]) == LastWith(created, r[p].key) && FirstWith(r, p))
    && (forall e :: e in created ==> HasKey(r, e.key))
  }

  lemma {:induction false} LastWithFirst(e: Entry, created: seq<Entry>, key: string)
    ensures LastWith([e] + created, key)
            == if LastWith(created, key).Some? then LastWith(created, key) else if e.key == key then Some(e) else None
    decreases |created|
  {
    var all := [e] + created;
    if created == [] {
      assert all == [e] && all[..0] == [];
    } else {
      var front := created[..|created| - 1];
      assert all[..|all| - 1] == [e] + front;
      LastWithFirst(e, front, key);
    }
  }

  lemma PlaceExact(entries: seq<Entry>, e: Entry)
    ensures var r := Place(entries, e);
            && |entries| <= |r| <= |entries| + 1
            && (forall p :: 0 <= p < |entries| ==>
                 r[p] == (if FirstWith(entries, p) && entries[p].key == e.key then e else entries[p])
                 && (FirstWith(r, p) <==> FirstWith(entries, p)))
            && (|r| == |entries| + 1 <==> !HasKey(entries, e.key))
            && (|r| == |entries| + 1 ==> r[|entries|] == e)
            && HasKey(r, e.key)
  {
    var r, at := Place(entries, e), PositionOf(entries, e.key);
    if p :| 0 <= p < |entries| && entries[p].key == e.key {
      assert at <= p;
    }
    assert r[at].key == e.key;
    forall p | 0 <= p < |entries|
      ensures r[p] == (if FirstWith(entries, p) && entries[p].key == e.key then e else entries[p])
      ensures FirstWith(r, p) <==> FirstWith(entries, p)
    {
      if entries[p].key == e.key && p != at {
        assert entries[at].key == e.key && at < p;
      }
      assert forall q :: 0 <= q < |entries| ==> r[q].key == entries[q].key;
    }
  }

  lemma LastKey(created: seq<Entry>, key: string)
    ensures LastWith(created, key).Some? ==> LastWith(created, key).value.key == key
  {
  }

  /** Placing one entry, and then the others, is placing all of them. */
  lemma PlacedMore(entries: seq<Entry>, e: Entry, more: seq<Entry>, r: seq<Entry>)
    requires Placed(Place(entries, e), more, r)
    ensures Placed(entries, [e] + more, r)
  {
    var next := Place(entries, e);
    PlaceExact(entries, e);
    forall p | 0 <= p < |entries|
      ensures r[p] == if FirstWith(entries, p) && LastWith([e] + more, entries[p].key).Some?
                      then LastWith([e] + more, entries[p].key).value else entries[p]
    {
      LastWithFirst(e, more, entries[p].key);
      assert next[p].key == entries[p].key;
    }
    forall p | |entries| <= p < |r| ensures Some(r[p]) == LastWith([e] + more, r[p].key) && FirstWith(r, p) {
      LastWithFirst(e, more, r[p].key);
      if p < |next| {
        NewPlaced(entries, e, more, r, p);
      }
    }
    forall c | c in [e] + more ensures HasKey(r, c.key) {
      if c !in more {
        KeyStays(next, more, r, e.key);
      }
    }
  }

  lemma KeyStays(next: seq<Entry>, more: seq<Entry>, r: seq<Entry>, key: string)
    requires Placed(next, more, r) && HasKey(next, key)
    ensures HasKey(r, key)
  {
    var p :| 0 <= p < |next| && next[p].key == key;
    LastKey(more, key);
    assert r[p].key == key;
  }

  lemma SameKeys(next: seq<Entry>, more: seq<Entry>, r: seq<Entry>)
    requires Placed(next, more, r)
    ensures forall q :: 0 <= q < |next| ==> r[q].key == next[q].key
  {
    forall q | 0 <= q < |next| ensures r[q].key == next[q].key {
      LastKey(more, next[q].key);
    }
  }

  lemma NewPlaced(entries: seq<Entry>, e: Entry, more: seq<Entry>, r: seq<Entry>, p: nat)
    requires Placed(Place(entries, e), more, r) && |entries| <= p < |Place(entries, e)|
    ensures Some(r[p]) == LastWith([e] + more, r[p].key) && FirstWith(r, p)
  {
    var next := Place(entries, e);
    PlaceExact(entries, e);
    SameKeys(next, more, r);
    LastWithFirst(e, more, e.key);
    forall q | 0 <= q < p ensures r[q].key != r[p].key {
      assert next[q].key == entries[q].key;
    }
    assert FirstWith(next, p);
  }

  lemma {:induction false} PlaceAllExact(entries: seq<Entry>, created: seq<Entry>)
    ensures Placed(entries, created, PlaceAll(entries, created))
    decreases |created|
  {
    if created != [] {
      PlaceAllExact(Place(entries, created[0]), created[1..]);
      PlacedMore(entries, created[0], created[1..], PlaceAll(entries, created));
      assert created == [created[0]] + created[1..];
    }
  }

  // ----- Keys and warnings -----

  /** The keys that are not among `dropped`, in order. */
  function Keeping(keys: seq<string>, dropped: set<string>): seq<string> {
    if keys == [] then [] else (if keys[0] in dropped then [] else [keys[0]]) + Keeping(keys[1..], dropped)
  }

  lemma {:induction false} WithoutKeeps(keys: seq<string>, dropped: set<string>, key: string)
    ensures Without(Keeping(keys, dropped), key) == Keeping(keys, dropped + {key})
  {
    if keys != [] {
      var rest := Keeping(keys[1..], dropped);
      WithoutKeeps(keys[1..], dropped, key);
      if keys[0] in dropped {
        assert [] + rest == rest;
      } else {
        assert ([keys[0]] + rest)[1..] == rest;
      }
    }
  }

  lemma {:induction false} KeepingAll(keys: seq<string>)
    ensures Keeping(keys, {}) == keys
  {
    if keys != [] {
      KeepingAll(keys[1..]);
      assert keys == [keys[0]] + keys[1..];
    }
  }

  lemma CitedNext(mapping: Mapping, citekeys: seq<string>, entries: seq<Entry>, front: seq<nat>, i: nat, r: Record)
    requires IsLog(mapping, entries, front) && i < |entries| && mapping(entries[i]).Ok? && i < |r.entries|
    requires r.citekeys == Keeping(citekeys, DroppedKeys(mapping, entries, front))
    requires IsLog(mapping, entries, front + [i])
    ensures Next(false, r, i, mapping(entries[i]).value).citekeys
         == Keeping(citekeys, DroppedKeys(mapping, entries, front + [i]))
  {
    DroppedKeysStep(mapping, entries, front, i);
    WithoutKeeps(citekeys, DroppedKeys(mapping, entries, front), mapping(entries[i]).value.entry.key);
    assert DroppedKeys(mapping, entries, front) + {} == DroppedKeys(mapping, entries, front);
  }

  /** The cited keys stay in their order, but for those of dropped entries. */
  lemma {:induction false} CitedKept(mapping: Mapping, citekeys: seq<string>, entries: seq<Entry>, log: seq<nat>)
    requires IsLog(mapping, entries, log) && "*" !in citekeys
    ensures After(mapping, citekeys, entries, log).citekeys == Keeping(citekeys, DroppedKeys(mapping, entries, log))
  {
    if log == [] {
      KeepingAll(citekeys);
      assert DroppedKeys(mapping, entries, log) == {};
    } else {
      var front, i := LogSplit(mapping, citekeys, entries, log);
      CitedKept(mapping, citekeys, entries, front);
      CitedNext(mapping, citekeys, entries, front, i, After(mapping, citekeys, entries, front));
    }
  }

  /** A dropped entry was cited, or an entry mapped before it links to its key. */
  ghost predicate MissedAt(mapping: Mapping, citekeys: seq<string>, entries: seq<Entry>, log: seq<nat>, n: nat)
    requires IsLog(mapping, entries, log) && n < |log|
  {
    var m := mapping(entries[log[n]]).value;
    && !m.keep
    && (m.entry.key in citekeys
        || exists k :: 0 <= k < n && m.entry.key in Links(mapping(entries[log[k]])))
  }

  function DroppedTexts(keys: seq<string>, number: string): (texts: seq<string>)
    ensures |texts| == |keys| && forall k :: 0 <= k < |keys| ==> texts[k] == DroppedText(keys[k], number)
  {
    seq(|keys|, k requires 0 <= k < |keys| => DroppedText(keys[k], number))
  }

  ghost function MissedKeys(mapping: Mapping, citekeys: seq<string>, entries: seq<Entry>, log: seq<nat>, n: nat): seq<string>
    requires IsLog(mapping, entries, log) && n <= |log|
  {
    if n == 0 then []
    else
      MissedKeys(mapping, citekeys, entries, log, n - 1)
      + if MissedAt(mapping, citekeys, entries, log, n - 1) then [mapping(entries[log[n - 1]]).value.entry.key] else []
  }

  lemma WantedExact(mapping: Mapping, citekeys: seq<string>, entries: seq<Entry>, log: seq<nat>, name: string)
    requires IsLog(mapping, entries, log) && "*" !in citekeys
    ensures name in After(mapping, citekeys, entries, log).wanted
            <==> name in citekeys || exists k :: 0 <= k < |log| && name in Links(mapping(entries[log[k]]))
  {
    WantedAfter(mapping, citekeys, entries, log);
    AfterDone(mapping, citekeys, entries, log);
    var r, links := After(mapping, citekeys, entries, log), AllLinks(mapping, entries);
    if name in r.wanted && name !in citekeys {
      var j :| j in r.done && j < |links| && name in links[j];
      var k :| 0 <= k < |log| && log[k] == j;
      assert name in Links(mapping(entries[log[k]]));
    }
    if k :| 0 <= k < |log| && name in Links(mapping(entries[log[k]])) {
      assert log[k] in log && name in links[log[k]];
    }
  }

  /** What is warned about: the dropped entries whose keys are cited or linked to, in the order of mapping. */
  lemma {:induction false} WarningsExact(
    mapping: Mapping, citekeys: seq<string>, entries: seq<Entry>, number: string, log: seq<nat>, n: nat)
    requires IsLog(mapping, entries, log) && "*" !in citekeys && n <= |log|
    ensures IsLog(mapping, entries, log[..n])
    ensures var w, keys := WarningsOf(mapping, citekeys, entries, number, log[..n]),
                           MissedKeys(mapping, citekeys, entries, log, n);
            w == DroppedTexts(keys, number)
  {
    if n > 0 {
      WarningsExact(mapping, citekeys, entries, number, log, n - 1);
      WarningNext(mapping, citekeys, entries, number, log, n - 1);
      TextsPush(MissedKeys(mapping, citekeys, entries, log, n - 1), number, mapping(entries[log[n - 1]]).value.entry.key);
    }
  }

  lemma TextsPush(keys: seq<string>, number: string, key: string)
    ensures DroppedTexts(keys + [key], number) == DroppedTexts(keys, number) + [DroppedText(key, number)]
    ensures keys + [] == keys && DroppedTexts(keys, number) + [] == DroppedTexts(keys, number)
  {
  }

  lemma PrefixLog(mapping: Mapping, entries: seq<Entry>, log: seq<nat>, n: nat)
    requires IsLog(mapping, entries, log) && n <= |log|
    ensures IsLog(mapping, entries, log[..n])
  {
  }

  /** The key of the next entry was wanted if it is cited or linked to by one before it. */
  lemma WantedBefore(mapping: Mapping, citekeys: seq<string>, entries: seq<Entry>, log: seq<nat>, n: nat)
    requires IsLog(mapping, entries, log) && "*" !in citekeys && n < |log| && IsLog(mapping, entries, log[..n])
    ensures var m := mapping(entries[log[n]]).value;
            !m.keep && m.entry.key in After(mapping, citekeys, entries, log[..n]).wanted
            <==> MissedAt(mapping, citekeys, entries, log, n)
  {
    var m := mapping(entries[log[n]]).value;
    WantedExact(mapping, citekeys, entries, log[..n], m.entry.key);
    PrefixLinks(mapping, entries, log, n, m.entry.key);
  }

  /** The warning about the next entry mapped, if there is one. */
  lemma WarningNext(
    mapping: Mapping, citekeys: seq<string>, entries: seq<Entry>, number: string, log: seq<nat>, n: nat)
    requires IsLog(mapping, entries, log) && "*" !in citekeys && n < |log|
    ensures IsLog(mapping, entries, log[..n]) && IsLog(mapping, entries, log[..n + 1])
    ensures WarningsOf(mapping, citekeys, entries, number, log[..n + 1])
            == WarningsOf(mapping, citekeys, entries, number, log[..n])
               + if MissedAt(mapping, citekeys, entries, log, n)
                 then [DroppedText(mapping(entries[log[n]]).value.entry.key, number)] else []
  {
    PrefixLog(mapping, entries, log, n);
    PrefixLog(mapping, entries, log, n + 1);
    assert log[..n + 1] == log[..n] + [log[n]];
    WarningsStep(mapping, citekeys, entries, number, log[..n], log[n], mapping(entries[log[n]]).value);
    WantedBefore(mapping, citekeys, entries, log, n);
  }

  lemma PrefixLinks(mapping: Mapping, entries: seq<Entry>, log: seq<nat>, n: nat, name: string)
    requires IsLog(mapping, entries, log) && n <= |log|
    ensures (exists k :: 0 <= k < |log[..n]| && name in Links(mapping(entries[log[..n][k]])))
            <==> exists k :: 0 <= k < n && name in Links(mapping(entries[log[k]]))
  {
    if k :| 0 <= k < n && name in Links(mapping(entries[log[k]])) {
      assert log[..n][k] == log[k];
    }
  }

  /** The entries only listed: with `*` among them and cited, all that are kept or created and not cited. */
  lemma {:induction false} NociteExact(
    mapping: Mapping, citekeys: seq<string>, entries: seq<Entry>, nocite: set<string>, log: seq<nat>, key: string)
    requires IsLog(mapping, entries, log)
    ensures key in NociteOf(mapping, citekeys, entries, nocite, log)
            <==> key in nocite
                 || ("*" in nocite && "*" in citekeys && key !in citekeys
                     && exists i :: i in log && mapping(entries[i]).value.keep
                          && (mapping(entries[i]).value.entry.key == key
                              || HasKey(mapping(entries[i]).value.created, key)))
  {
    if log != [] {
      var front, i := LogSplit(mapping, citekeys, entries, log);
      NociteExact(mapping, citekeys, entries, nocite, front, key);
      assert log[..|log| - 1] == front && log[|log| - 1] == i;
      assert forall j :: j in log <==> j in front || j == i;
      KeysExact(mapping(entries[i]).value.created, key);
    }
  }

  lemma KeysExact(entries: seq<Entry>, key: string)
    ensures key in EntryKeys(entries) <==> HasKey(entries, key)
  {
    if p :| 0 <= p < |entries| && entries[p].key == key {
      assert entries[p] in entries;
    }
  }
}

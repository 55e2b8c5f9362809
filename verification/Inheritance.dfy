/**
 Inheritance between bibliography entries (`inherit`, crates/tex-biber/src/bib.rs): what one parent
 passes to one child, and the resolution of an acyclic graph of references as a recursion over it.
 */
module Inheritance {
  import opened Wrappers
  import opened Splitting
  import opened Graphs

  type Range = (string, string)

  datatype Entry = Entry(
    key: string, kind: string, fields: map<string, string>,
    names: map<string, seq<string>>, lists: map<string, seq<string>>, ranges: map<string, seq<Range>>,
    warnings: seq<string>)

  /** One rule: the pairs of kinds it applies to, and where each source field goes, if anywhere. */
  datatype Rule = Rule(types: seq<(string, string)>, fields: seq<(string, Option<string>)>, overrides: set<(string, string)>)

  /** The order in which a sorted map lists its keys. */
  type Order = set<string> -> seq<string>

  datatype Control = Control(
    options: map<(string, string, string), string>, rules: seq<Rule>, fields: set<string>,
    noinherit: Entry -> set<string>, order: Order)

  // ----- One parent, one child -----

  /** The setting for the two kinds, then for either kind alone, then for any. */
  function Setting(c: Control, name: string, source: string, target: string, fallback: bool): bool {
    var yes := (s: string) => s == "1" || s == "true";
    if (name, source, target) in c.options then yes(c.options[(name, source, target)])
    else if (name, source, "*") in c.options then yes(c.options[(name, source, "*")])
    else if (name, "*", target) in c.options then yes(c.options[(name, "*", target)])
    else if (name, "*", "*") in c.options then yes(c.options[(name, "*", "*")])
    else fallback
  }

  predicate Applies(rule: Rule, source: string, target: string) {
    exists t :: t in rule.types && (t.0 == "*" || t.0 == source) && (t.1 == "*" || t.1 == target)
  }

  /** A place a rule sends a field to, and whether it may overwrite. */
  datatype Target = Target(field: Option<string>, over: bool)

  function RuleTargets(rule: Rule, fields: seq<(string, Option<string>)>, src: string): seq<Target> {
    if fields == [] then []
    else
      var (s, t) := fields[0];
      (if s == src then [Target(t, t.Some? && (s, t.value) in rule.overrides)] else [])
      + RuleTargets(rule, fields[1..], src)
  }

  /** The targets of one source field over all rules for the two kinds. */
  function Targets(rules: seq<Rule>, source: string, target: string, src: string): seq<Target> {
    if rules == [] then []
    else
      (if Applies(rules[0], source, target) then RuleTargets(rules[0], rules[0].fields, src) else [])
      + Targets(rules[1..], source, target, src)
  }

  function RuleSources(rules: seq<Rule>, source: string, target: string): set<string> {
    set r, f | r in rules && Applies(r, source, target) && f in r.fields :: f.0
  }

  /** Copy one field, with what has been parsed of it. */
  function InheritField(source: Entry, target: Entry, src: string, dst: string): (e: Entry)
    requires src in source.fields
    ensures e.key == target.key && e.kind == target.kind && e.warnings == target.warnings
    ensures e.fields == target.fields[dst := source.fields[src]]
  {
    target.(
      fields := target.fields[dst := source.fields[src]],
      names := if src in source.names then target.names[dst := source.names[src]] else target.names,
      lists := if src in source.lists then target.lists[dst := source.lists[src]] else target.lists,
      ranges := if src in source.ranges then target.ranges[dst := source.ranges[src]] else target.ranges)
  }

  function InheritTargets(source: Entry, target: Entry, src: string, targets: seq<Target>, no: set<string>): (e: Entry)
    requires src in source.fields
    ensures e.key == target.key && e.kind == target.kind && e.warnings == target.warnings
    decreases |targets|
  {
    if targets == [] then target
    else
      var t := targets[0];
      var next :=
        if t.field.Some? && t.field.value !in no && (t.over || t.field.value !in target.fields) then
          InheritField(source, target, src, t.field.value)
        else target;
      InheritTargets(source, next, src, targets[1..], no)
  }

  /** A field some rule has a use for, or is told to drop, is not inherited under its own name. */
  predicate Processed(targets: seq<Target>, no: set<string>) {
    exists t :: t in targets && (t.field.None? || t.field.value !in no)
  }

  function InheritMapped(c: Control, source: Entry, target: Entry, srcs: seq<string>, no: set<string>): (e: Entry)
    ensures e.key == target.key && e.kind == target.kind && e.warnings == target.warnings
    decreases |srcs|
  {
    if srcs == [] then target
    else
      var next :=
        if srcs[0] in source.fields then
          InheritTargets(source, target, srcs[0], Targets(c.rules, source.kind, target.kind, srcs[0]), no)
        else target;
      InheritMapped(c, source, next, srcs[1..], no)
  }

  /** The source fields that may be inherited under their own names. */
  function PlainFields(c: Control, source: Entry, target: string, xdata: bool, no: set<string>): (plain: set<string>)
    ensures plain <= source.fields.Keys
  {
    set src | src in source.fields && src != "xdata" && src != "ids" && src in c.fields && src !in no
              && (xdata || !Processed(Targets(c.rules, source.kind, target, src), no))
  }

  function InheritPlain(source: Entry, target: Entry, plain: set<string>, over: bool, srcs: seq<string>): (e: Entry)
    requires plain <= source.fields.Keys
    ensures e.key == target.key && e.kind == target.kind && e.warnings == target.warnings
    decreases |srcs|
  {
    if srcs == [] then target
    else
      var next :=
        if srcs[0] in plain && (over || srcs[0] !in target.fields) then InheritField(source, target, srcs[0], srcs[0])
        else target;
      InheritPlain(source, next, plain, over, srcs[1..])
  }

  function InheritFrom(c: Control, source: Entry, target: Entry, xdata: bool): (e: Entry)
    ensures e.key == target.key && e.kind == target.kind && e.warnings == target.warnings
  {
    var no := c.noinherit(target);
    var all := xdata || Setting(c, "inherit_all", source.kind, target.kind, true);
    var over := xdata || Setting(c, "override_target", source.kind, target.kind, false);
    var mapped :=
      if xdata then target
      else InheritMapped(c, source, target, c.order(RuleSources(c.rules, source.kind, target.kind)), no);
    if all then
      InheritPlain(source, mapped, PlainFields(c, source, target.kind, xdata, no), over, c.order(source.fields.Keys))
    else mapped
  }

  // ----- What one parent may change -----

  /** Every field of `e` is the target's or comes from the source, and fields in `no` are the target's. */
  ghost predicate Mixes(source: Entry, target: Entry, e: Entry, no: set<string>) {
    && target.fields.Keys <= e.fields.Keys
    && (forall f :: f in e.fields ==>
         || (f in target.fields && e.fields[f] == target.fields[f])
         || (f !in no && exists src :: src in source.fields && e.fields[f] == source.fields[src]))
  }

  lemma MixesField(source: Entry, target: Entry, e: Entry, src: string, dst: string, no: set<string>)
    requires Mixes(source, target, e, no) && src in source.fields && dst !in no
    ensures Mixes(source, target, InheritField(source, e, src, dst), no)
  {
    var e' := InheritField(source, e, src, dst);
    assert e'.fields[dst] == source.fields[src];
  }

  lemma {:induction false} MixesTargets(source: Entry, target: Entry, e: Entry, src: string, targets: seq<Target>, no: set<string>)
    requires Mixes(source, target, e, no) && src in source.fields
    ensures Mixes(source, target, InheritTargets(source, e, src, targets, no), no)
    decreases |targets|
  {
    if targets != [] {
      var t := targets[0];
      if t.field.Some? && t.field.value !in no && (t.over || t.field.value !in e.fields) {
        MixesField(source, target, e, src, t.field.value, no);
        MixesTargets(source, target, InheritField(source, e, src, t.field.value), src, targets[1..], no);
      } else {
        MixesTargets(source, target, e, src, targets[1..], no);
      }
    }
  }

  lemma {:induction false} MixesMapped(c: Control, source: Entry, target: Entry, e: Entry, srcs: seq<string>, no: set<string>)
    requires Mixes(source, target, e, no)
    ensures Mixes(source, target, InheritMapped(c, source, e, srcs, no), no)
    decreases |srcs|
  {
    if srcs != [] {
      if srcs[0] in source.fields {
        var targets := Targets(c.rules, source.kind, e.kind, srcs[0]);
        MixesTargets(source, target, e, srcs[0], targets, no);
        MixesMapped(c, source, target, InheritTargets(source, e, srcs[0], targets, no), srcs[1..], no);
      } else {
        MixesMapped(c, source, target, e, srcs[1..], no);
      }
    }
  }

  lemma {:induction false} MixesPlain(
    source: Entry, target: Entry, e: Entry, plain: set<string>, over: bool, srcs: seq<string>, no: set<string>)
    requires Mixes(source, target, e, no) && plain <= source.fields.Keys && plain !! no
    ensures Mixes(source, target, InheritPlain(source, e, plain, over, srcs), no)
    decreases |srcs|
  {
    if srcs != [] {
      if srcs[0] in plain && (over || srcs[0] !in e.fields) {
        MixesField(source, target, e, srcs[0], srcs[0], no);
        MixesPlain(source, target, InheritField(source, e, srcs[0], srcs[0]), plain, over, srcs[1..], no);
      } else {
        MixesPlain(source, target, e, plain, over, srcs[1..], no);
      }
    }
  }

  /**
   Inheriting removes no field, invents no value, and leaves the fields the child refuses alone: each
   field keeps the child's value or takes one of the parent's.
   */
  lemma InheritFromMixes(c: Control, source: Entry, target: Entry, xdata: bool)
    ensures Mixes(source, target, InheritFrom(c, source, target, xdata), c.noinherit(target))
  {
    var no := c.noinherit(target);
    var srcs := c.order(RuleSources(c.rules, source.kind, target.kind));
    MixesMapped(c, source, target, target, srcs, no);
    var mapped := if xdata then target else InheritMapped(c, source, target, srcs, no);
    var over := xdata || Setting(c, "override_target", source.kind, target.kind, false);
    MixesPlain(source, target, mapped, PlainFields(c, source, target.kind, xdata, no), over, c.order(source.fields.Keys), no);
  }

  /** What copying `srcs` under their own names leaves in field `f`. */
  lemma {:induction false} PlainField(source: Entry, target: Entry, plain: set<string>, over: bool, srcs: seq<string>, f: string)
    requires plain <= source.fields.Keys
    ensures var e := InheritPlain(source, target, plain, over, srcs);
            if f in srcs && f in plain && (over || f !in target.fields)
            then f in e.fields && e.fields[f] == source.fields[f]
            else (f in e.fields <==> f in target.fields) && (f in e.fields ==> e.fields[f] == target.fields[f])
    decreases |srcs|
  {
    if srcs != [] {
      var g, rest := srcs[0], srcs[1..];
      assert f in srcs <==> f == g || f in rest;
      var takes := g in plain && (over || g !in target.fields);
      PlainField(source, if takes then InheritField(source, target, g, g) else target, plain, over, rest, f);
    }
  }

  /** XDATA overwrites: every known field of the parent but `xdata` and `ids`, unless refused, has the parent's value; all others the child's. */
  lemma XdataOverwrites(c: Control, source: Entry, target: Entry, f: string)
    requires forall keys: set<string>, k :: k in c.order(keys) <==> k in keys
    ensures var e := InheritFrom(c, source, target, true);
            if f in source.fields && f in c.fields && f != "xdata" && f != "ids" && f !in c.noinherit(target)
            then f in e.fields && e.fields[f] == source.fields[f]
            else (f in e.fields <==> f in target.fields) && (f in e.fields ==> e.fields[f] == target.fields[f])
  {
    var srcs := c.order(source.fields.Keys);
    PlainField(source, target, PlainFields(c, source, target.kind, true, c.noinherit(target)), true, srcs, f);
    assert f in srcs <==> f in source.fields.Keys;
  }

  // ----- CROSSREF without overriding -----

  /** No rule for the two kinds lets a source field overwrite. */
  ghost predicate NoOverride(rules: seq<Rule>, source: string, target: string) {
    forall src, t :: t in Targets(rules, source, target, src) ==> !t.over
  }

  /** Some rule sends a field of the parent with the value of `e` to `f`, and the child does not refuse it. */
  ghost predicate MappedTo(rules: seq<Rule>, source: Entry, e: Entry, f: string, no: set<string>)
    requires f in e.fields
  {
    f !in no && exists src, t :: src in source.fields && t in Targets(rules, source.kind, e.kind, src)
                                 && t.field == Some(f) && e.fields[f] == source.fields[src]
  }

  /** `e` is the child with fields added that rules send there. */
  ghost predicate AddsMapped(rules: seq<Rule>, source: Entry, target: Entry, e: Entry, no: set<string>) {
    && e.kind == target.kind
    && (forall f :: f in target.fields ==> f in e.fields && e.fields[f] == target.fields[f])
    && (forall f :: f in e.fields && f !in target.fields ==> MappedTo(rules, source, e, f, no))
  }

  lemma AddsMappedField(
    rules: seq<Rule>, source: Entry, target: Entry, e: Entry, src: string, t: Target, no: set<string>)
    requires AddsMapped(rules, source, target, e, no) && src in source.fields
    requires t in Targets(rules, source.kind, target.kind, src)
    requires t.field.Some? && t.field.value !in no && t.field.value !in e.fields
    ensures AddsMapped(rules, source, target, InheritField(source, e, src, t.field.value), no)
  {
    var e' := InheritField(source, e, src, t.field.value);
    forall f | f in e'.fields && f !in target.fields ensures MappedTo(rules, source, e', f, no) {
      if f != t.field.value {
        assert MappedTo(rules, source, e, f, no);
      }
    }
  }

  lemma {:induction false} AddsMappedTargets(
    rules: seq<Rule>, source: Entry, target: Entry, e: Entry, src: string, targets: seq<Target>, no: set<string>)
    requires AddsMapped(rules, source, target, e, no) && src in source.fields
    requires forall t :: t in targets ==> t in Targets(rules, source.kind, target.kind, src) && !t.over
    ensures AddsMapped(rules, source, target, InheritTargets(source, e, src, targets, no), no)
    decreases |targets|
  {
    if targets != [] {
      var t := targets[0];
      if t.field.Some? && t.field.value !in no && t.field.value !in e.fields {
        AddsMappedField(rules, source, target, e, src, t, no);
        AddsMappedTargets(rules, source, target, InheritField(source, e, src, t.field.value), src, targets[1..], no);
      } else {
        AddsMappedTargets(rules, source, target, e, src, targets[1..], no);
      }
    }
  }

  lemma {:induction false} AddsMappedAll(
    c: Control, source: Entry, target: Entry, e: Entry, srcs: seq<string>, no: set<string>)
    requires AddsMapped(c.rules, source, target, e, no) && NoOverride(c.rules, source.kind, target.kind)
    ensures AddsMapped(c.rules, source, target, InheritMapped(c, source, e, srcs, no), no)
    decreases |srcs|
  {
    if srcs != [] {
      if srcs[0] in source.fields {
        var targets := Targets(c.rules, source.kind, e.kind, srcs[0]);
        AddsMappedTargets(c.rules, source, target, e, srcs[0], targets, no);
        AddsMappedAll(c, source, target, InheritTargets(source, e, srcs[0], targets, no), srcs[1..], no);
      } else {
        AddsMappedAll(c, source, target, e, srcs[1..], no);
      }
    }
  }

  /** The child with what rules send to it, before fields are copied under their own names. */
  function MappedChild(c: Control, source: Entry, target: Entry): (e: Entry)
    ensures e.key == target.key && e.kind == target.kind && e.warnings == target.warnings
  {
    InheritMapped(c, source, target, c.order(RuleSources(c.rules, source.kind, target.kind)), c.noinherit(target))
  }

  /**
   CROSSREF without an overriding setting or rule: every field of the child keeps its value; each place a
   rule fills has the value the rule sends there; and every other field comes from the parent under its
   own name, exactly if all fields are inherited and it is known, not refused and not processed.
   */
  lemma CrossrefAdds(c: Control, source: Entry, target: Entry, f: string)
    requires forall keys: set<string>, k :: k in c.order(keys) <==> k in keys
    requires !Setting(c, "override_target", source.kind, target.kind, false)
    requires NoOverride(c.rules, source.kind, target.kind)
    ensures var e, mapped, no := InheritFrom(c, source, target, false), MappedChild(c, source, target), c.noinherit(target);
            var all := Setting(c, "inherit_all", source.kind, target.kind, true);
            && AddsMapped(c.rules, source, target, mapped, no)
            && if f in mapped.fields then f in e.fields && e.fields[f] == mapped.fields[f]
               else if all && f in PlainFields(c, source, target.kind, false, no) then
                 f in e.fields && e.fields[f] == source.fields[f]
               else f !in e.fields
  {
    var mapped, no := MappedChild(c, source, target), c.noinherit(target);
    var srcs := c.order(source.fields.Keys);
    AddsMappedAll(c, source, target, target, c.order(RuleSources(c.rules, source.kind, target.kind)), no);
    PlainField(source, mapped, PlainFields(c, source, target.kind, false, no), false, srcs, f);
    assert f in srcs <==> f in source.fields.Keys;
  }

  // ----- References -----

  /** A field that refers, and one key it refers to. */
  type Reference = (string, string)

  function FieldReferences(e: Entry, field: string): (refs: seq<Reference>)
    ensures forall r :: r in refs ==> r.0 == field
  {
    if field in e.fields then
      var keys := SplitList(e.fields[field], ",");
      seq(|keys|, i requires 0 <= i < |keys| => (field, keys[i]))
    else []
  }

  /** The references of an entry in the order they are followed. */
  function References(e: Entry): seq<Reference> {
    FieldReferences(e, "xdata") + FieldReferences(e, "crossref") + FieldReferences(e, "xref")
  }

  function Warn(e: Entry, text: string): Entry {
    e.(warnings := e.warnings + [text])
  }

  function XdataWarning(e: Entry, key: string, reason: string): Entry {
    Warn(e, e.kind + " entry '" + e.key + "' references XDATA entry '" + key + "' " + reason + ", not resolving")
  }

  /** What one reference does to the entry that holds it, given the resolved parent. */
  function Step(c: Control, e: Entry, r: Reference, parent: Option<Entry>): (e': Entry)
    ensures e'.key == e.key && e'.kind == e.kind
  {
    match parent
    case None => if r.0 == "xdata" then XdataWarning(e, r.1, "which does not exist") else e
    case Some(source) =>
      if r.0 == "xref" then e
      else if r.0 == "xdata" && source.kind != "xdata" then XdataWarning(e, r.1, "which is not an XDATA entry")
      else InheritFrom(c, source, e, r.0 == "xdata")
  }

  function Done(e: Entry): Entry {
    e.(fields := e.fields - {"xdata"})
  }

  // ----- The graph -----

  type Index = map<string, nat>

  ghost predicate IndexInto(index: Index, n: nat) {
    forall k :: k in index ==> index[k] < n
  }

  /** The entries that each entry refers to. */
  function Parents(index: Index, entries: seq<Entry>): (g: Graph)
    ensures |g| == |entries|
    ensures forall i, j :: 0 <= i < |g| ==>
              (j in g[i] <==> exists r :: r in References(entries[i]) && r.1 in index && index[r.1] == j)
  {
    seq(|entries|, i requires 0 <= i < |entries| =>
      set r | r in References(entries[i]) && r.1 in index :: index[r.1])
  }

  /** A rank exists exactly when no closed walk leads through the references. */
  lemma RankedIffAcyclic(index: Index, entries: seq<Entry>)
    requires IndexInto(index, |entries|)
    ensures (exists rank :: IsRank(index, entries, rank)) <==> Acyclic(Parents(index, entries))
  {
    var g := Parents(index, entries);
    RankIffAcyclic(g);
    if rank :| IsRank(index, entries, rank) {
      RankFalls(index, entries, rank);
    }
    if rank :| Falls(g, rank) {
      RankFalls(index, entries, rank);
    }
  }

  lemma RankFalls(index: Index, entries: seq<Entry>, rank: seq<nat>)
    requires IndexInto(index, |entries|)
    ensures IsRank(index, entries, rank) <==> Falls(Parents(index, entries), rank)
  {
    var g := Parents(index, entries);
    if Falls(g, rank) {
      forall i, r | 0 <= i < |entries| && r in References(entries[i]) && r.1 in index
        ensures rank[index[r.1]] < rank[i]
      {
        assert index[r.1] in g[i];
      }
    }
  }

  /** `rank` falls along every reference. */
  ghost predicate IsRank(index: Index, entries: seq<Entry>, rank: seq<nat>) {
    && IndexInto(index, |entries|) && |rank| == |entries|
    && forall i, r :: 0 <= i < |entries| && r in References(entries[i]) && r.1 in index ==> rank[index[r.1]] < rank[i]
  }

  /** The entry as it is once its parents are resolved, and theirs before them. */
  ghost function Resolve(c: Control, index: Index, entries: seq<Entry>, rank: seq<nat>, i: nat): (e: Entry)
    requires IsRank(index, entries, rank) && i < |entries|
    ensures e.key == entries[i].key && e.kind == entries[i].kind
    decreases rank[i], 1, 0
  {
    Done(Follow(c, index, entries, rank, i, entries[i], References(entries[i])))
  }

  ghost function Follow(
    c: Control, index: Index, entries: seq<Entry>, rank: seq<nat>, i: nat, e: Entry, refs: seq<Reference>): (e': Entry)
    requires IsRank(index, entries, rank) && i < |entries|
    requires forall r :: r in refs ==> r in References(entries[i])
    ensures e'.key == e.key && e'.kind == e.kind
    decreases rank[i], 0, |refs|
  {
    if refs == [] then e
    else
      assert refs[0] in References(entries[i]);
      Follow(c, index, entries, rank, i, Step(c, e, refs[0], Parent(c, index, entries, rank, i, refs[0])), refs[1..])
  }

  ghost function Parent(c: Control, index: Index, entries: seq<Entry>, rank: seq<nat>, i: nat, r: Reference): Option<Entry>
    requires IsRank(index, entries, rank) && i < |entries|
    requires r.1 in index ==> rank[index[r.1]] < rank[i]
    decreases rank[i], 0, 0
  {
    if r.1 in index then Some(Resolve(c, index, entries, rank, index[r.1])) else None
  }

  /** The resolution does not depend on how the acyclic graph is ranked. */
  lemma {:induction false} RankIrrelevant(c: Control, index: Index, entries: seq<Entry>, rank: seq<nat>, rank': seq<nat>, i: nat)
    requires IsRank(index, entries, rank) && IsRank(index, entries, rank') && i < |entries|
    ensures Resolve(c, index, entries, rank, i) == Resolve(c, index, entries, rank', i)
    decreases rank[i], 1, 0
  {
    FollowRankIrrelevant(c, index, entries, rank, rank', i, entries[i], References(entries[i]));
  }

  lemma {:induction false} FollowRankIrrelevant(
    c: Control, index: Index, entries: seq<Entry>, rank: seq<nat>, rank': seq<nat>, i: nat, e: Entry, refs: seq<Reference>)
    requires IsRank(index, entries, rank) && IsRank(index, entries, rank') && i < |entries|
    requires forall r :: r in refs ==> r in References(entries[i])
    ensures Follow(c, index, entries, rank, i, e, refs) == Follow(c, index, entries, rank', i, e, refs)
    decreases rank[i], 0, |refs|
  {
    if refs != [] {
      var r := refs[0];
      assert r in References(entries[i]);
      if r.1 in index {
        RankIrrelevant(c, index, entries, rank, rank', index[r.1]);
      }
      FollowRankIrrelevant(c, index, entries, rank, rank', i, Step(c, e, r, Parent(c, index, entries, rank, i, r)), refs[1..]);
    }
  }
}

/**
 What an entry inherits, field by field (`inherit` and `inherit_datafield`, crates/tex-biber/src/bib.rs): the
 offers that the rules and the fields of the parent make to a field of the child, which of them are taken,
 and what becomes of an entry with any number of parents.
 */
module InheritedFields {
  import opened Wrappers
  import opened Inheritance

  // ----- Offers -----

  /** A field of the parent, offered to a field of the child, and whether it may replace a value there. */
  datatype Offer = Offer(src: string, over: bool)

  /** One of the pairs of kinds of the rule is that of parent and child, `*` standing for every kind. */
  ghost predicate Covers(rule: Rule, source: string, target: string) {
    exists i :: 0 <= i < |rule.types| && rule.types[i].0 in {"*", source} && rule.types[i].1 in {"*", target}
  }

  function FieldOffers(
    fields: seq<(string, Option<string>)>, overrides: set<(string, string)>, src: string, f: string): seq<Offer>
  {
    if fields == [] then []
    else
      (if fields[0] == (src, Some(f)) then [Offer(src, (src, f) in overrides)] else [])
      + FieldOffers(fields[1..], overrides, src, f)
  }

  ghost function RuleOffers(rules: seq<Rule>, source: string, target: string, src: string, f: string): seq<Offer> {
    if rules == [] then []
    else
      (if Covers(rules[0], source, target) then FieldOffers(rules[0].fields, rules[0].overrides, src, f) else [])
      + RuleOffers(rules[1..], source, target, src, f)
  }

  /** What the fields of the parent that are listed offer by rules, in order. */
  ghost function MappedOffers(c: Control, source: Entry, target: string, srcs: seq<string>, f: string): seq<Offer>
    decreases |srcs|
  {
    if srcs == [] then []
    else
      (if srcs[0] in source.fields then RuleOffers(c.rules, source.kind, target, srcs[0], f) else [])
      + MappedOffers(c, source, target, srcs[1..], f)
  }

  /** The fields that rules for the two kinds are about. */
  ghost function RuledFields(c: Control, source: string, target: string): set<string> {
    set rule, p | rule in c.rules && p in rule.fields && Covers(rule, source, target) :: p.0
  }

  /** The first setting there is, from the most particular to the most general. */
  function FirstSetting(options: map<(string, string, string), string>, keys: seq<(string, string, string)>): Option<string> {
    if keys == [] then None
    else if keys[0] in options then Some(options[keys[0]])
    else FirstSetting(options, keys[1..])
  }

  function IsOn(c: Control, name: string, source: string, target: string, fallback: bool): bool {
    match FirstSetting(c.options, [(name, source, target), (name, source, "*"), (name, "*", target), (name, "*", "*")])
    case None => fallback
    case Some(value) => value in {"1", "true"}
  }

  /** Some rule for the two kinds drops the field, or sends it to a place the child does not refuse. */
  ghost predicate Ruled(c: Control, source: string, target: string, f: string, no: set<string>) {
    exists rule, to :: rule in c.rules && Covers(rule, source, target) && (f, to) in rule.fields
                       && (to == None || to.value !in no)
  }

  /** The offer of the parent's field of the same name. */
  ghost function OwnOffer(c: Control, source: Entry, target: Entry, xdata: bool, f: string): seq<Offer> {
    if f in source.fields && f in c.fields && f !in {"xdata", "ids"}
       && (xdata || (IsOn(c, "inherit_all", source.kind, target.kind, true)
                     && !Ruled(c, source.kind, target.kind, f, c.noinherit(target))))
    then [Offer(f, xdata || IsOn(c, "override_target", source.kind, target.kind, false))]
    else []
  }

  /** All that is offered to field `f`, which the child does not refuse. */
  ghost function Offers(c: Control, source: Entry, target: Entry, xdata: bool, f: string): seq<Offer> {
    if f in c.noinherit(target) then []
    else
      (if xdata then []
       else MappedOffers(c, source, target.kind, c.order(RuledFields(c, source.kind, target.kind)), f))
      + OwnOffer(c, source, target, xdata, f)
  }

  /** The offers taken: the first, if there is no value, and all that may replace a value. */
  function Taken(offers: seq<Offer>, had: bool): seq<string> {
    if offers == [] then []
    else if offers[0].over || !had then [offers[0].src] + Taken(offers[1..], true)
    else Taken(offers[1..], had)
  }

  /** What the last field of `taken` that has a value in `m` has there. */
  function LastIn<V>(taken: seq<string>, m: map<string, V>): Option<V> {
    if taken == [] then None
    else
      var last := taken[|taken| - 1];
      if last in m then Some(m[last]) else LastIn(taken[..|taken| - 1], m)
  }

  function At<V>(m: map<string, V>, f: string): Option<V> {
    if f in m then Some(m[f]) else None
  }

  function Else<V>(a: Option<V>, b: Option<V>): Option<V> {
    if a.Some? then a else b
  }

  /** Field `f`, with all that has been parsed of it, is that of the last offer taken, or as it was. */
  predicate FieldIs(source: Entry, before: Entry, e: Entry, f: string, taken: seq<string>) {
    && At(e.fields, f) == Else(LastIn(taken, source.fields), At(before.fields, f))
    && At(e.names, f) == Else(LastIn(taken, source.names), At(before.names, f))
    && At(e.lists, f) == Else(LastIn(taken, source.lists), At(before.lists, f))
    && At(e.ranges, f) == Else(LastIn(taken, source.ranges), At(before.ranges, f))
  }

  // ----- Taking offers -----

  lemma {:induction false} TakenAppend(a: seq<Offer>, b: seq<Offer>, had: bool)
    ensures Taken(a + b, had) == Taken(a, had) + Taken(b, had || Taken(a, had) != [])
    decreases |a|
  {
    if a == [] {
      assert a + b == b;
    } else {
      assert (a + b)[1..] == a[1..] + b;
      TakenAppend(a[1..], b, a[0].over || !had || had);
      if !(a[0].over || !had) {
        TakenAppend(a[1..], b, had);
      }
    }
  }

  lemma {:induction false} LastInAppend<V>(a: seq<string>, b: seq<string>, m: map<string, V>)
    ensures LastIn(a + b, m) == Else(LastIn(b, m), LastIn(a, m))
    decreases |b|
  {
    if b == [] {
      assert a + b == a;
    } else {
      var front := b[..|b| - 1];
      assert (a + b)[..|a + b| - 1] == a + front;
      LastInAppend(a, front, m);
    }
  }

  /** After `taken`, all of it fields of the parent, field `f` is there if it was or something was taken. */
  ghost predicate After(source: Entry, before: Entry, e: Entry, f: string, taken: seq<string>) {
    && FieldIs(source, before, e, f, taken)
    && (f in e.fields <==> f in before.fields || taken != [])
  }

  lemma AfterNothing(source: Entry, e: Entry, f: string)
    ensures After(source, e, e, f, [])
  {
  }

  lemma AfterBoth(source: Entry, e0: Entry, e1: Entry, e2: Entry, f: string, a: seq<string>, b: seq<string>)
    requires After(source, e0, e1, f, a) && After(source, e1, e2, f, b)
    ensures After(source, e0, e2, f, a + b)
  {
    LastInAppend(a, b, source.fields);
    LastInAppend(a, b, source.names);
    LastInAppend(a, b, source.lists);
    LastInAppend(a, b, source.ranges);
  }

  lemma AfterField(source: Entry, e: Entry, src: string, f: string)
    requires src in source.fields
    ensures After(source, e, InheritField(source, e, src, f), f, [src])
  {
    assert [src][..0] == [];
  }

  lemma AfterOther(source: Entry, e: Entry, src: string, dst: string, f: string)
    requires src in source.fields && dst != f
    ensures After(source, e, InheritField(source, e, src, dst), f, [])
  {
  }

  /** The offers that targets make to `f`. */
  function TargetOffers(targets: seq<Target>, src: string, f: string, no: set<string>): seq<Offer> {
    if targets == [] then []
    else
      (if targets[0].field == Some(f) && f !in no then [Offer(src, targets[0].over)] else [])
      + TargetOffers(targets[1..], src, f, no)
  }

  lemma {:induction false} TargetsTaken(
    source: Entry, e: Entry, src: string, targets: seq<Target>, no: set<string>, f: string)
    requires src in source.fields
    ensures After(source, e, InheritTargets(source, e, src, targets, no), f,
              Taken(TargetOffers(targets, src, f, no), f in e.fields))
    decreases |targets|
  {
    if targets == [] {
      AfterNothing(source, e, f);
    } else {
      var t, rest := targets[0], TargetOffers(targets[1..], src, f, no);
      var takes := t.field.Some? && t.field.value !in no && (t.over || t.field.value !in e.fields);
      var next := if takes then InheritField(source, e, src, t.field.value) else e;
      TargetsTaken(source, next, src, targets[1..], no, f);
      var first := if t.field == Some(f) && f !in no then [Offer(src, t.over)] else [];
      TakenAppend(first, rest, f in e.fields);
      FirstTaken(source, e, next, src, t, no, f);
      AfterBoth(source, e, next, InheritTargets(source, next, src, targets[1..], no), f,
        Taken(first, f in e.fields), Taken(rest, f in next.fields));
    }
  }

  lemma FirstTaken(source: Entry, e: Entry, next: Entry, src: string, t: Target, no: set<string>, f: string)
    requires src in source.fields
    requires next == if t.field.Some? && t.field.value !in no && (t.over || t.field.value !in e.fields)
                     then InheritField(source, e, src, t.field.value) else e
    ensures var first := if t.field == Some(f) && f !in no then [Offer(src, t.over)] else [];
            After(source, e, next, f, Taken(first, f in e.fields))
  {
    if t.field == Some(f) && f !in no {
      assert [Offer(src, t.over)][1..] == [];
      assert [src] + Taken([], true) == [src];
    }
    if next == e {
      AfterNothing(source, e, f);
    } else if t.field == Some(f) {
      AfterField(source, e, src, f);
    } else {
      AfterOther(source, e, src, t.field.value, f);
    }
  }

  lemma AppliesCovers(rule: Rule, source: string, target: string)
    ensures Applies(rule, source, target) <==> Covers(rule, source, target)
  {
    if t :| t in rule.types && (t.0 == "*" || t.0 == source) && (t.1 == "*" || t.1 == target) {
      var i :| 0 <= i < |rule.types| && rule.types[i] == t;
      assert rule.types[i].0 in {"*", source} && rule.types[i].1 in {"*", target};
    }
    if i :| 0 <= i < |rule.types| && rule.types[i].0 in {"*", source} && rule.types[i].1 in {"*", target} {
      assert rule.types[i] in rule.types;
    }
  }

  lemma {:induction false} TargetOffersAppend(a: seq<Target>, b: seq<Target>, src: string, f: string, no: set<string>)
    ensures TargetOffers(a + b, src, f, no) == TargetOffers(a, src, f, no) + TargetOffers(b, src, f, no)
    decreases |a|
  {
    if a == [] {
      assert a + b == b;
    } else {
      assert (a + b)[1..] == a[1..] + b;
      TargetOffersAppend(a[1..], b, src, f, no);
    }
  }

  lemma {:induction false} RuleTargetsOffer(
    rule: Rule, fields: seq<(string, Option<string>)>, src: string, f: string, no: set<string>)
    requires f !in no
    ensures TargetOffers(RuleTargets(rule, fields, src), src, f, no) == FieldOffers(fields, rule.overrides, src, f)
    decreases |fields|
  {
    if fields != [] {
      var (s, t) := fields[0];
      var first := if s == src then [Target(t, t.Some? && (s, t.value) in rule.overrides)] else [];
      RuleTargetsOffer(rule, fields[1..], src, f, no);
      TargetOffersAppend(first, RuleTargets(rule, fields[1..], src), src, f, no);
      OneTarget(first, src, f, no);
    }
  }

  lemma OneTarget(first: seq<Target>, src: string, f: string, no: set<string>)
    requires |first| <= 1 && f !in no
    ensures TargetOffers(first, src, f, no)
            == if first != [] && first[0].field == Some(f) then [Offer(src, first[0].over)] else []
  {
  }

  lemma {:induction false} TargetsOffer(
    rules: seq<Rule>, source: string, target: string, src: string, f: string, no: set<string>)
    requires f !in no
    ensures TargetOffers(Targets(rules, source, target, src), src, f, no) == RuleOffers(rules, source, target, src, f)
    decreases |rules|
  {
    if rules != [] {
      AppliesCovers(rules[0], source, target);
      var first := if Applies(rules[0], source, target) then RuleTargets(rules[0], rules[0].fields, src) else [];
      TargetsOffer(rules[1..], source, target, src, f, no);
      RuleTargetsOffer(rules[0], rules[0].fields, src, f, no);
      TargetOffersAppend(first, Targets(rules[1..], source, target, src), src, f, no);
    }
  }

  lemma {:induction false} RefusedTargets(targets: seq<Target>, src: string, f: string, no: set<string>)
    requires f in no
    ensures TargetOffers(targets, src, f, no) == []
  {
    if targets != [] {
      RefusedTargets(targets[1..], src, f, no);
    }
  }

  lemma {:induction false} MappedTaken(c: Control, source: Entry, e: Entry, srcs: seq<string>, no: set<string>, f: string)
    ensures After(source, e, InheritMapped(c, source, e, srcs, no), f,
              Taken(if f in no then [] else MappedOffers(c, source, e.kind, srcs, f), f in e.fields))
    decreases |srcs|
  {
    if srcs == [] {
      AfterNothing(source, e, f);
    } else {
      var targets := Targets(c.rules, source.kind, e.kind, srcs[0]);
      var next := if srcs[0] in source.fields then InheritTargets(source, e, srcs[0], targets, no) else e;
      var first := if srcs[0] in source.fields then TargetOffers(targets, srcs[0], f, no) else [];
      var rest := if f in no then [] else MappedOffers(c, source, e.kind, srcs[1..], f);
      if srcs[0] in source.fields {
        TargetsTaken(source, e, srcs[0], targets, no, f);
      } else {
        AfterNothing(source, e, f);
      }
      if f in no {
        RefusedTargets(targets, srcs[0], f, no);
        assert first + rest == [];
      } else {
        TargetsOffer(c.rules, source.kind, e.kind, srcs[0], f, no);
      }
      MappedTaken(c, source, next, srcs[1..], no, f);
      TakenAppend(first, rest, f in e.fields);
      AfterBoth(source, e, next, InheritMapped(c, source, next, srcs[1..], no), f,
        Taken(first, f in e.fields), Taken(rest, f in next.fields));
    }
  }

  // ----- Fields of the same name -----

  lemma {:induction false} PlainUntouched(
    source: Entry, e: Entry, plain: set<string>, over: bool, srcs: seq<string>, f: string)
    requires plain <= source.fields.Keys && !(f in srcs && f in plain && (over || f !in e.fields))
    ensures After(source, e, InheritPlain(source, e, plain, over, srcs), f, [])
    decreases |srcs|
  {
    if srcs == [] {
      AfterNothing(source, e, f);
    } else {
      var g := srcs[0];
      assert f in srcs <==> f == g || f in srcs[1..];
      var takes := g in plain && (over || g !in e.fields);
      var next := if takes then InheritField(source, e, g, g) else e;
      if takes {
        AfterOther(source, e, g, g, f);
      } else {
        AfterNothing(source, e, f);
      }
      PlainUntouched(source, next, plain, over, srcs[1..], f);
      AfterBoth(source, e, next, InheritPlain(source, next, plain, over, srcs[1..]), f, [], []);
    }
  }

  lemma AfterTwice(source: Entry, e0: Entry, e1: Entry, e2: Entry, f: string)
    requires f in source.fields && After(source, e0, e1, f, [f]) && After(source, e1, e2, f, [f])
    ensures After(source, e0, e2, f, [f])
  {
    assert [f][..0] == [];
  }

  lemma {:induction false} PlainTaken(
    source: Entry, e: Entry, plain: set<string>, over: bool, srcs: seq<string>, f: string)
    requires plain <= source.fields.Keys && f in srcs && f in plain && (over || f !in e.fields)
    ensures After(source, e, InheritPlain(source, e, plain, over, srcs), f, [f])
    decreases |srcs|
  {
    var g := srcs[0];
    var takes := g in plain && (over || g !in e.fields);
    var next := if takes then InheritField(source, e, g, g) else e;
    var r := InheritPlain(source, next, plain, over, srcs[1..]);
    assert f in srcs <==> f == g || f in srcs[1..];
    if g == f {
      AfterField(source, e, f, f);
      if f in srcs[1..] && over {
        PlainTaken(source, next, plain, over, srcs[1..], f);
        AfterTwice(source, e, next, r, f);
      } else {
        PlainUntouched(source, next, plain, over, srcs[1..], f);
        AfterBoth(source, e, next, r, f, [f], []);
        assert [f] + [] == [f];
      }
    } else {
      if takes {
        AfterOther(source, e, g, g, f);
      } else {
        AfterNothing(source, e, f);
      }
      PlainTaken(source, next, plain, over, srcs[1..], f);
      AfterBoth(source, e, next, r, f, [], [f]);
      assert [] + [f] == [f];
    }
  }

  lemma SettingIs(c: Control, name: string, source: string, target: string, fallback: bool)
    ensures Setting(c, name, source, target, fallback) == IsOn(c, name, source, target, fallback)
  {
    var a, b, d, e := (name, source, target), (name, source, "*"), (name, "*", target), (name, "*", "*");
    var keys := [a, b, d, e];
    assert keys[1..] == [b, d, e] && keys[1..][1..] == [d, e] && keys[1..][1..][1..] == [e];
    assert keys[1..][1..][1..][1..] == [];
    assert FirstSetting(c.options, keys)
        == if a in c.options then Some(c.options[a]) else FirstSetting(c.options, [b, d, e]);
    assert FirstSetting(c.options, [b, d, e])
        == if b in c.options then Some(c.options[b]) else FirstSetting(c.options, [d, e]);
    assert FirstSetting(c.options, [d, e])
        == if d in c.options then Some(c.options[d]) else FirstSetting(c.options, [e]);
    assert FirstSetting(c.options, [e]) == if e in c.options then Some(c.options[e]) else None;
    var first := FirstSetting(c.options, keys);
    assert Setting(c, name, source, target, fallback) == if first.None? then fallback else first.value in {"1", "true"};
  }

  lemma {:induction false} TargetsFrom(rules: seq<Rule>, source: string, target: string, src: string, to: Option<string>)
    ensures (exists t :: t in Targets(rules, source, target, src) && t.field == to)
            <==> exists rule :: rule in rules && Covers(rule, source, target) && (src, to) in rule.fields
    decreases |rules|
  {
    if rules != [] {
      AppliesCovers(rules[0], source, target);
      TargetsFrom(rules[1..], source, target, src, to);
      RuleTargetsFrom(rules[0], rules[0].fields, src, to);
      var all, first := Targets(rules, source, target, src), RuleTargets(rules[0], rules[0].fields, src);
      assert forall rule :: rule in rules <==> rule == rules[0] || rule in rules[1..];
      if Applies(rules[0], source, target) {
        assert all == first + Targets(rules[1..], source, target, src);
      } else {
        assert all == [] + Targets(rules[1..], source, target, src);
      }
    }
  }

  lemma {:induction false} RuleTargetsFrom(
    rule: Rule, fields: seq<(string, Option<string>)>, src: string, to: Option<string>)
    ensures (exists t :: t in RuleTargets(rule, fields, src) && t.field == to) <==> (src, to) in fields
    decreases |fields|
  {
    if fields != [] {
      RuleTargetsFrom(rule, fields[1..], src, to);
      var (s, t) := fields[0];
      var first := if s == src then [Target(t, t.Some? && (s, t.value) in rule.overrides)] else [];
      var rest := RuleTargets(rule, fields[1..], src);
      assert RuleTargets(rule, fields, src) == first + rest;
      assert (src, to) in fields <==> fields[0] == (src, to) || (src, to) in fields[1..];
      if fields[0] == (src, to) {
        assert first[0] in first + rest;
      }
    }
  }

  lemma ProcessedIs(c: Control, source: string, target: string, f: string, no: set<string>)
    ensures Processed(Targets(c.rules, source, target, f), no) <==> Ruled(c, source, target, f, no)
  {
    var targets := Targets(c.rules, source, target, f);
    if t :| t in targets && (t.field.None? || t.field.value !in no) {
      TargetsFrom(c.rules, source, target, f, t.field);
      var rule :| rule in c.rules && Covers(rule, source, target) && (f, t.field) in rule.fields;
      assert Ruled(c, source, target, f, no);
    }
    if rule, to :| rule in c.rules && Covers(rule, source, target) && (f, to) in rule.fields
                   && (to == None || to.value !in no)
    {
      TargetsFrom(c.rules, source, target, f, to);
      var t :| t in targets && t.field == to;
    }
  }

  lemma RuledFieldsIs(c: Control, source: string, target: string)
    ensures RuleSources(c.rules, source, target) == RuledFields(c, source, target)
  {
    forall rule | rule in c.rules ensures Applies(rule, source, target) <==> Covers(rule, source, target) {
      AppliesCovers(rule, source, target);
    }
  }

  lemma OwnTaken(c: Control, source: Entry, target: Entry, mapped: Entry, xdata: bool, f: string)
    requires forall keys: set<string>, k :: k in c.order(keys) <==> k in keys
    ensures var all := xdata || IsOn(c, "inherit_all", source.kind, target.kind, true);
            var over := xdata || IsOn(c, "override_target", source.kind, target.kind, false);
            var no := c.noinherit(target);
            var e := if all then InheritPlain(source, mapped, PlainFields(c, source, target.kind, xdata, no), over,
                                   c.order(source.fields.Keys)) else mapped;
            After(source, mapped, e, f,
              Taken(if f in no then [] else OwnOffer(c, source, target, xdata, f), f in mapped.fields))
  {
    var all := xdata || IsOn(c, "inherit_all", source.kind, target.kind, true);
    var over := xdata || IsOn(c, "override_target", source.kind, target.kind, false);
    var no := c.noinherit(target);
    var plain, srcs := PlainFields(c, source, target.kind, xdata, no), c.order(source.fields.Keys);
    ProcessedIs(c, source.kind, target.kind, f, no);
    var offer := if f in no then [] else OwnOffer(c, source, target, xdata, f);
    assert offer == if all && f in plain then [Offer(f, over)] else [];
    assert [Offer(f, over)][1..] == [] && [f] + Taken([], true) == [f];
    assert f in srcs <==> f in source.fields;
    if !all {
      AfterNothing(source, mapped, f);
    } else if f in plain && (over || f !in mapped.fields) {
      PlainTaken(source, mapped, plain, over, srcs, f);
    } else {
      PlainUntouched(source, mapped, plain, over, srcs, f);
    }
  }

  /** Each field of the child is that of the last offer taken, or as it was. */
  lemma InheritFromExact(c: Control, source: Entry, target: Entry, xdata: bool, f: string)
    requires forall keys: set<string>, k :: k in c.order(keys) <==> k in keys
    ensures FieldIs(source, target, InheritFrom(c, source, target, xdata), f,
              Taken(Offers(c, source, target, xdata, f), f in target.fields))
  {
    var no := c.noinherit(target);
    var srcs := c.order(RuleSources(c.rules, source.kind, target.kind));
    var mapped := if xdata then target else InheritMapped(c, source, target, srcs, no);
    var first := if xdata || f in no then [] else MappedOffers(c, source, target.kind, srcs, f);
    var own := if f in no then [] else OwnOffer(c, source, target, xdata, f);
    RuledFieldsIs(c, source.kind, target.kind);
    SettingIs(c, "inherit_all", source.kind, target.kind, true);
    SettingIs(c, "override_target", source.kind, target.kind, false);
    if xdata {
      AfterNothing(source, target, f);
    } else {
      MappedTaken(c, source, target, srcs, no, f);
    }
    OwnTaken(c, source, target, mapped, xdata, f);
    TakenAppend(first, own, f in target.fields);
    AfterBoth(source, target, mapped, InheritFrom(c, source, target, xdata), f,
      Taken(first, f in target.fields), Taken(own, f in mapped.fields));
    assert first + own == Offers(c, source, target, xdata, f);
  }
}

/**
 Multi-level sort keys (`Collator::key`, crates/tex-biber/src/collation.rs; section 7 of UTS 10):
 comparing two flat keys compares the levels one after another.
 */
module SortKeys {
  import opened Lexicographic

  /** Four weights, and the code point of a variable element. */
  datatype Element = Element(w1: nat, w2: nat, w3: nat, w4: nat, variable: nat) {
    function Weight(level: nat): nat
      requires level < 4
    {
      if level == 0 then w1 else if level == 1 then w2 else if level == 2 then w3 else w4
    }
  }

  datatype Variable = NonIgnorable | Blanked | Shifted | ShiftTrimmed

  /** The options of a collator that its keys depend on; `backwards` tells which levels are reversed. */
  datatype Options = Options(
    level: nat, backwards: nat -> bool, upperFirst: bool, katakanaFirst: bool, ignoreSecondary: bool,
    variable: Variable, identical: bool, version: nat)
  {
    predicate Valid() { level <= 4 }
  }

  // ----- Weights of an element -----

  function UpperFirst(w: nat): nat {
    if 2 <= w <= 6 then w + 6 else if 8 <= w <= 12 then w - 6 else if w == 0x1c then 0x1d else if w == 0x1d then 0x1c else w
  }

  function KatakanaFirst(w: nat): nat {
    if 0xf <= w <= 0x13 then w - 2 else if 0xd <= w <= 0xe then w + 5 else w
  }

  /** An element with a secondary but no primary weight, when secondary weights are ignored. */
  function WithoutSecondary(o: Options, e: Element): Element {
    if o.ignoreSecondary && e.w1 == 0 && e.w2 != 0 then e.(w2 := 0, w3 := 0) else e
  }

  function FourthShifted(o: Options, e: Element): nat {
    if e.w1 == 1 then 1
    else if o.version >= 36 && e.w2 == 0 && e.w3 == 0 then 0
    else if e.w1 != 0 || e.w2 != 0 || e.w3 != 0 then 0xffff
    else 0
  }

  /** A variable element keeps at most its primary weight, as the fourth. */
  function VariableElement(o: Options, e: Element): Element {
    Element(0, 0, 0, if o.variable.Shifted? || o.variable.ShiftTrimmed? then e.w1 else e.w4, e.variable)
  }

  function FixedElement(o: Options, e: Element): Element {
    match o.variable
    case Shifted => e.(w4 := FourthShifted(o, e))
    case ShiftTrimmed => e.(w4 := 0)
    case _ => e
  }

  /** An ignorable element after a variable one is dropped. */
  predicate Dropped(o: Options, afterVariable: bool, e: Element) {
    !o.variable.NonIgnorable? && e.variable == 0 && e.w1 == 0 && afterVariable && o.version >= 9
  }

  predicate AfterVariable(o: Options, afterVariable: bool, e: Element) {
    if o.variable.NonIgnorable? then afterVariable
    else if e.variable != 0 then true
    else afterVariable && e.w1 == 0
  }

  function Cased(o: Options, e: Element): Element {
    var upper := if o.upperFirst then e.(w3 := UpperFirst(e.w3)) else e;
    if o.katakanaFirst then upper.(w3 := KatakanaFirst(upper.w3)) else upper
  }

  function Adjusted(o: Options, e: Element): Element {
    Cased(o, if o.variable.NonIgnorable? then e else if e.variable != 0 then VariableElement(o, e) else FixedElement(o, e))
  }

  /** The weights of one level: those of the elements kept that are not zero, in order. */
  function LevelWeights(o: Options, elements: seq<Element>, level: nat, afterVariable: bool): (weights: seq<nat>)
    requires level < 4
    ensures forall w :: w in weights ==> w != 0
    decreases |elements|
  {
    if elements == [] then []
    else
      var e := WithoutSecondary(o, elements[0]);
      var rest := LevelWeights(o, elements[1..], level, AfterVariable(o, afterVariable, e));
      if Dropped(o, afterVariable, e) || level >= o.level || Adjusted(o, e).Weight(level) == 0 then rest
      else [Adjusted(o, e).Weight(level)] + rest
  }

  function Reversed(s: seq<nat>): (r: seq<nat>)
    ensures |r| == |s| && forall i :: 0 <= i < |s| ==> r[i] == s[|s| - 1 - i]
  {
    if s == [] then [] else Reversed(s[1..]) + [s[0]]
  }

  /** A level as it is compared. */
  function Level(o: Options, elements: seq<Element>, level: nat): (weights: seq<nat>)
    requires level < 4
  {
    var weights := LevelWeights(o, elements, level, false);
    if o.backwards(level + 1) then Reversed(weights) else weights
  }

  /** The code points, each as two 16-bit halves. */
  function Halves(text: seq<nat>): seq<nat> {
    if text == [] then [] else [text[0] / 0x1_0000, text[0] % 0x1_0000] + Halves(text[1..])
  }

  function KeyTail(o: Options, text: seq<nat>): seq<nat> {
    if o.identical then [0] + Halves(text) else if o.version >= 26 && o.level == 4 then [0] else []
  }

  /** The flat key: four levels with zeros between, and the identical level. */
  function Key(o: Options, elements: seq<Element>, text: seq<nat>): seq<nat> {
    Level(o, elements, 0) + [0] + Level(o, elements, 1) + [0] + Level(o, elements, 2) + [0] + Level(o, elements, 3)
    + KeyTail(o, text)
  }

  // ----- The order of keys -----

  predicate NonZero(s: seq<nat>) {
    forall i :: 0 <= i < |s| ==> s[i] != 0
  }

  lemma LevelNonZero(o: Options, elements: seq<Element>, level: nat)
    requires level < 4
    ensures NonZero(Level(o, elements, level))
  {
    var weights := LevelWeights(o, elements, level, false);
    assert forall i :: 0 <= i < |weights| ==> weights[i] in weights;
  }

  /** A zero after weights that are not zero keeps the weights apart from what follows. */
  lemma {:induction false} SeparatorKeepsOrder(a: seq<nat>, b: seq<nat>, u: seq<nat>, v: seq<nat>)
    requires NonZero(a) && NonZero(b)
    ensures Compare(a + [0] + u, b + [0] + v) == Compare(a, b).Then(Compare(u, v))
    decreases |a|
  {
    assert a == [] ==> (a + [0] + u)[0] == 0 && (a + [0] + u)[1..] == u;
    assert b == [] ==> (b + [0] + v)[0] == 0 && (b + [0] + v)[1..] == v;
    if a != [] && b != [] {
      assert (a + [0] + u)[1..] == a[1..] + [0] + u && (b + [0] + v)[1..] == b[1..] + [0] + v;
      SeparatorKeepsOrder(a[1..], b[1..], u, v);
    }
  }

  /** Equal code points have equal halves, and smaller ones smaller halves. */
  lemma {:induction false} HalvesKeepOrder(a: seq<nat>, b: seq<nat>)
    ensures Compare(Halves(a), Halves(b)) == Compare(a, b)
    decreases |a|
  {
    if a != [] && b != [] {
      HalvesKeepOrder(a[1..], b[1..]);
      var p, q := Halves(a), Halves(b);
      assert p[1..][1..] == Halves(a[1..]) && q[1..][1..] == Halves(b[1..]);
      assert Compare(p, q) == CompareNat(p[0], q[0]).Then(CompareNat(p[1], q[1]).Then(Compare(p[1..][1..], q[1..][1..])));
    }
  }

  /** The order of the levels, one after another, and at last of the texts if the identical level is on. */
  function CompareLevels(
    o: Options, a: seq<Element>, aText: seq<nat>, b: seq<Element>, bText: seq<nat>, level: nat): Ordering
    requires level <= 4
    decreases 4 - level
  {
    if level == 4 then if o.identical then Compare(aText, bText) else Equal
    else
      Compare(Level(o, a, level), Level(o, b, level)).Then(CompareLevels(o, a, aText, b, bText, level + 1))
  }

  lemma TailKeepsOrder(o: Options, a: seq<nat>, aText: seq<nat>, b: seq<nat>, bText: seq<nat>)
    requires NonZero(a) && NonZero(b)
    ensures Compare(a + KeyTail(o, aText), b + KeyTail(o, bText))
            == Compare(a, b).Then(if o.identical then Compare(aText, bText) else Equal)
  {
    if o.identical {
      HalvesKeepOrder(aText, bText);
      SeparatorKeepsOrder(a, b, Halves(aText), Halves(bText));
      assert a + ([0] + Halves(aText)) == a + [0] + Halves(aText);
      assert b + ([0] + Halves(bText)) == b + [0] + Halves(bText);
    } else {
      SeparatorKeepsOrder(a, b, [], []);
      assert a + [0] + [] == a + [0] && b + [0] + [] == b + [0];
      assert a + [] == a && b + [] == b;
    }
  }

  /** Flat keys compare as their levels do, whatever the options. */
  lemma KeysOrderAsLevels(o: Options, a: seq<Element>, aText: seq<nat>, b: seq<Element>, bText: seq<nat>)
    ensures Compare(Key(o, a, aText), Key(o, b, bText)) == CompareLevels(o, a, aText, b, bText, 0)
  {
    var a0, a1, a2, a3 := Level(o, a, 0), Level(o, a, 1), Level(o, a, 2), Level(o, a, 3);
    var b0, b1, b2, b3 := Level(o, b, 0), Level(o, b, 1), Level(o, b, 2), Level(o, b, 3);
    LevelsNonZero(o, a);
    LevelsNonZero(o, b);
    var s, t := KeyTail(o, aText), KeyTail(o, bText);
    TailKeepsOrder(o, a3, aText, b3, bText);
    SeparatorKeepsOrder(a2, b2, a3 + s, b3 + t);
    SeparatorKeepsOrder(a1, b1, a2 + [0] + (a3 + s), b2 + [0] + (b3 + t));
    SeparatorKeepsOrder(a0, b0, a1 + [0] + (a2 + [0] + (a3 + s)), b1 + [0] + (b2 + [0] + (b3 + t)));
    Nested(a0, a1, a2, a3, s);
    Nested(b0, b1, b2, b3, t);
    LevelsUnfold(o, a, aText, b, bText);
  }

  lemma LevelsNonZero(o: Options, elements: seq<Element>)
    ensures forall l :: 0 <= l < 4 ==> NonZero(Level(o, elements, l))
  {
    forall l | 0 <= l < 4 ensures NonZero(Level(o, elements, l)) {
      LevelNonZero(o, elements, l);
    }
  }

  lemma Nested(a: seq<nat>, b: seq<nat>, c: seq<nat>, d: seq<nat>, s: seq<nat>)
    ensures a + [0] + b + [0] + c + [0] + d + s == a + [0] + (b + [0] + (c + [0] + (d + s)))
  {
  }

  lemma LevelsUnfold(o: Options, a: seq<Element>, aText: seq<nat>, b: seq<Element>, bText: seq<nat>)
    ensures CompareLevels(o, a, aText, b, bText, 0)
            == Compare(Level(o, a, 0), Level(o, b, 0)).Then(
                 Compare(Level(o, a, 1), Level(o, b, 1)).Then(
                   Compare(Level(o, a, 2), Level(o, b, 2)).Then(
                     Compare(Level(o, a, 3), Level(o, b, 3)).Then(
                       if o.identical then Compare(aText, bText) else Equal))))
  {
    assert CompareLevels(o, a, aText, b, bText, 3)
        == Compare(Level(o, a, 3), Level(o, b, 3)).Then(if o.identical then Compare(aText, bText) else Equal);
  }

  /** Equal keys are equal levels, and equal texts if the identical level is on. */
  lemma EqualKeys(o: Options, a: seq<Element>, aText: seq<nat>, b: seq<Element>, bText: seq<nat>)
    ensures Key(o, a, aText) == Key(o, b, bText)
            <==> (forall l :: 0 <= l < 4 ==> Level(o, a, l) == Level(o, b, l)) && (o.identical ==> aText == bText)
  {
    KeysOrderAsLevels(o, a, aText, b, bText);
    CompareEqual(Key(o, a, aText), Key(o, b, bText));
    LevelsUnfold(o, a, aText, b, bText);
    CompareEqual(Level(o, a, 0), Level(o, b, 0));
    CompareEqual(Level(o, a, 1), Level(o, b, 1));
    CompareEqual(Level(o, a, 2), Level(o, b, 2));
    CompareEqual(Level(o, a, 3), Level(o, b, 3));
    CompareEqual(aText, bText);
  }

  // ----- The loop that builds a key -----

  /** `levels` hold the weights of the elements seen; `rest` are still to come. */
  ghost predicate Gathered(o: Options, elements: seq<Element>, levels: seq<seq<nat>>, rest: seq<Element>, after: bool) {
    && |levels| == 4
    && forall l: nat :: l < 4 ==> levels[l] + LevelWeights(o, rest, l, after) == LevelWeights(o, elements, l, false)
  }

  method PushWeights(o: Options, e: Element, levels: seq<seq<nat>>) returns (pushed: seq<seq<nat>>)
    requires |levels| == 4 && o.Valid()
    ensures |pushed| == 4
    ensures forall l: nat :: l < 4 ==>
              pushed[l] == if l < o.level && e.Weight(l) != 0 then levels[l] + [e.Weight(l)] else levels[l]
  {
    pushed := levels;
    for l := 0 to o.level
      invariant |pushed| == 4
      invariant forall k: nat :: k < 4 ==>
                  pushed[k] == if k < l && e.Weight(k) != 0 then levels[k] + [e.Weight(k)] else levels[k]
    {
      if e.Weight(l) != 0 {
        pushed := pushed[l := pushed[l] + [e.Weight(l)]];
      }
    }
  }

  /** The weight of the first element moves to the weights gathered. */
  lemma FirstWeight(
    o: Options, rest: seq<Element>, level: nat, after: bool, before: seq<nat>, gathered: seq<nat>)
    requires rest != [] && level < 4
    requires var e := WithoutSecondary(o, rest[0]);
             gathered == if Dropped(o, after, e) || level >= o.level || Adjusted(o, e).Weight(level) == 0 then before
                         else before + [Adjusted(o, e).Weight(level)]
    ensures var e := WithoutSecondary(o, rest[0]);
            before + LevelWeights(o, rest, level, after)
            == gathered + LevelWeights(o, rest[1..], level, AfterVariable(o, after, e))
  {
  }

  method Gather(o: Options, elements: seq<Element>) returns (levels: seq<seq<nat>>)
    requires o.Valid()
    ensures |levels| == 4 && forall l: nat :: l < 4 ==> levels[l] == LevelWeights(o, elements, l, false)
  {
    levels := [[], [], [], []];
    var afterVariable := false;
    for n := 0 to |elements|
      invariant Gathered(o, elements, levels, elements[n..], afterVariable)
    {
      var e := WithoutSecondary(o, elements[n]);
      ghost var before, after := levels, afterVariable;
      var dropped := Dropped(o, afterVariable, e);
      afterVariable := AfterVariable(o, afterVariable, e);
      if !dropped {
        levels := PushWeights(o, Adjusted(o, e), levels);
      }
      assert elements[n..][1..] == elements[n + 1..];
      forall l: nat | l < 4
        ensures levels[l] + LevelWeights(o, elements[n + 1..], l, afterVariable) == LevelWeights(o, elements, l, false)
      {
        FirstWeight(o, elements[n..], l, after, before[l], levels[l]);
      }
    }
    assert elements[|elements|..] == [];
  }

  method BuildKey(o: Options, elements: seq<Element>, text: seq<nat>) returns (key: seq<nat>)
    requires o.Valid()
    ensures key == Key(o, elements, text)
  {
    var levels := Gather(o, elements);
    key := [];
    for l := 0 to 4
      invariant key == KeyFront(o, elements, l)
    {
      var weights := if o.backwards(l + 1) then Reversed(levels[l]) else levels[l];
      key := key + weights;
      if l < 3 {
        key := key + [0];
      }
    }
    FrontWhole(o, elements);
    key := key + KeyTail(o, text);
  }

  lemma FrontWhole(o: Options, elements: seq<Element>)
    ensures KeyFront(o, elements, 4)
            == Level(o, elements, 0) + [0] + Level(o, elements, 1) + [0] + Level(o, elements, 2) + [0]
               + Level(o, elements, 3)
  {
    assert KeyFront(o, elements, 1) == Level(o, elements, 0) + [0];
    assert KeyFront(o, elements, 2) == Level(o, elements, 0) + [0] + Level(o, elements, 1) + [0];
    assert KeyFront(o, elements, 4) == KeyFront(o, elements, 3) + Level(o, elements, 3);
  }

  function KeyFront(o: Options, elements: seq<Element>, levels: nat): seq<nat>
    requires levels <= 4
  {
    if levels == 0 then []
    else
      KeyFront(o, elements, levels - 1) + Level(o, elements, levels - 1) + if levels < 4 then [0] else []
  }
}

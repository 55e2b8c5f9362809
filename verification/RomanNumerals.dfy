/**
 Roman numerals (`roman`, crates/tex-biber/src/collation_numeric.rs): which strings of capital letters
 are read as numbers, what number each gives, and which of them are the numeral of that number.
 */
module RomanNumerals {
  import opened Wrappers

  // ----- What is accepted -----

  predicate IsLetter(c: char) {
    c == 'I' || c == 'V' || c == 'X' || c == 'L' || c == 'C' || c == 'D' || c == 'M'
  }

  predicate AllLetters(s: string) {
    forall i :: 0 <= i < |s| ==> IsLetter(s[i])
  }

  /** V, L and D stand alone; the others come in runs of up to three. */
  function MaxRun(c: char): nat {
    if c == 'V' || c == 'L' || c == 'D' then 1 else 3
  }

  /** The letter at `i` is not one too many of its kind. */
  predicate RunEnds(s: string, i: nat)
    requires i < |s|
  {
    if MaxRun(s[i]) == 1 then i == 0 || s[i - 1] != s[i]
    else i < 3 || s[i - 1] != s[i] || s[i - 2] != s[i] || s[i - 3] != s[i]
  }

  /** `a` must not stand on both sides of `b`. */
  predicate Clashes(a: char, b: char) {
    match a
    case 'I' => b == 'V' || b == 'X'
    case 'V' => b == 'I' || b == 'X'
    case 'X' => b == 'V' || b == 'L' || b == 'C'
    case 'L' => b == 'X' || b == 'C'
    case 'C' => b == 'L' || b == 'D' || b == 'M'
    case 'D' => b == 'C' || b == 'M'
    case 'M' => b == 'D'
    case _ => false
  }

  predicate Between(s: string, i: nat)
    requires i < |s|
  {
    i >= 2 && s[i - 2] == s[i] && Clashes(s[i], s[i - 1])
  }

  predicate RunsFit(s: string) {
    forall i :: 0 <= i < |s| ==> RunEnds(s, i)
  }

  predicate NoneBetween(s: string) {
    forall i :: 0 <= i < |s| ==> !Between(s, i)
  }

  predicate IsRoman(s: string) {
    s != [] && AllLetters(s) && RunsFit(s) && NoneBetween(s)
  }

  // ----- The value -----

  function LetterValue(c: char): nat {
    match c
    case 'I' => 1
    case 'V' => 5
    case 'X' => 10
    case 'L' => 50
    case 'C' => 100
    case 'D' => 500
    case 'M' => 1000
    case _ => 0
  }

  /** The value of a pair that subtracts, or 0. */
  function PairValue(a: char, b: char): nat {
    if a == 'I' && b == 'V' then 4
    else if a == 'I' && b == 'X' then 9
    else if a == 'X' && b == 'L' then 40
    else if a == 'X' && b == 'C' then 90
    else if a == 'C' && b == 'D' then 400
    else if a == 'C' && b == 'M' then 900
    else 0
  }

  /** Whether `s` begins with a pair that subtracts. */
  predicate BeginsPaired(s: string) {
    |s| >= 2 && PairValue(s[0], s[1]) > 0
  }

  function FirstValue(s: string): nat
    requires s != []
  {
    if BeginsPaired(s) then PairValue(s[0], s[1]) else LetterValue(s[0])
  }

  function FirstLength(s: string): (n: nat)
    requires s != []
    ensures 0 < n <= |s|
  {
    if BeginsPaired(s) then 2 else 1
  }

  /** Pairs are taken from the left as they come. */
  function Value(s: string): nat {
    if s == [] then 0 else FirstValue(s) + Value(s[FirstLength(s)..])
  }

  // ----- The code -----

  /** How many equal letters `s[..n]` ends with. */
  predicate EndsRun(s: string, n: nat, count: nat)
    requires 0 < n <= |s|
  {
    && 0 < count <= n && (forall k :: n - count <= k < n ==> s[k] == s[n - 1])
    && (count < n ==> s[n - count - 1] != s[n - 1])
  }

  method RunsChecked(s: string) returns (fit: bool)
    ensures fit == RunsFit(s)
  {
    var count := 0;
    for n := 0 to |s|
      invariant n > 0 ==> EndsRun(s, n, count) && count <= MaxRun(s[n - 1])
      invariant forall i :: 0 <= i < n ==> RunEnds(s, i)
    {
      count := if n > 0 && s[n] == s[n - 1] then count + 1 else 1;
      assert EndsRun(s, n + 1, count);
      if count > MaxRun(s[n]) {
        assert !RunEnds(s, n);
        return false;
      }
      assert RunEnds(s, n);
    }
    fit := true;
  }

  method Roman(s: string) returns (r: Option<nat>)
    ensures r == if IsRoman(s) then Some(Value(s)) else None
  {
    if s == [] {
      return None;
    }
    for n := 0 to |s|
      invariant forall i :: 0 <= i < n ==> IsLetter(s[i])
    {
      if !IsLetter(s[n]) {
        return None;
      }
    }
    var fit := RunsChecked(s);
    if !fit {
      return None;
    }
    for n := 0 to |s|
      invariant forall i :: 0 <= i < n ==> !Between(s, i)
    {
      if Between(s, n) {
        return None;
      }
    }
    var value := ValueOf(s);
    r := Some(value);
  }

  method ValueOf(s: string) returns (value: nat)
    ensures value == Value(s)
  {
    value := 0;
    var i := 0;
    assert s[0..] == s;
    while i < |s|
      invariant 0 <= i <= |s| && value + Value(s[i..]) == Value(s)
    {
      var n := FirstLength(s[i..]);
      assert s[i..][n..] == s[i + n..];
      value := value + FirstValue(s[i..]);
      i := i + n;
    }
  }

  // ----- Numerals -----

  /** The largest of the thirteen values that one letter or pair has, up to `n`. */
  function Top(n: nat): (v: nat)
    requires n > 0
    ensures 0 < v <= n
  {
    if n >= 1000 then 1000 else if n >= 900 then 900 else if n >= 500 then 500 else if n >= 400 then 400
    else if n >= 100 then 100 else if n >= 90 then 90 else if n >= 50 then 50 else if n >= 40 then 40
    else if n >= 10 then 10 else if n >= 9 then 9 else if n >= 5 then 5 else if n >= 4 then 4 else 1
  }

  predicate IsTop(v: nat) {
    || v == 1 || v == 4 || v == 5 || v == 9 || v == 10 || v == 40 || v == 50 || v == 90
    || v == 100 || v == 400 || v == 500 || v == 900 || v == 1000
  }

  function Text(v: nat): (s: string)
    ensures 0 < |s| <= 2
  {
    if v == 1 then "I" else if v == 4 then "IV" else if v == 5 then "V" else if v == 9 then "IX"
    else if v == 10 then "X" else if v == 40 then "XL" else if v == 50 then "L" else if v == 90 then "XC"
    else if v == 100 then "C" else if v == 400 then "CD" else if v == 500 then "D" else if v == 900 then "CM"
    else "M"
  }

  /** The Roman numeral of `n`. */
  function Numeral(n: nat): string {
    if n == 0 then [] else Text(Top(n)) + Numeral(n - Top(n))
  }

  lemma NumeralStarts(n: nat)
    requires n > 0
    ensures var s, v := Numeral(n), Top(n);
            && s != [] && s[0] == Text(v)[0] && s[|Text(v)|..] == Numeral(n - v)
            && (|Text(v)| == 2 ==> |s| >= 2 && s[1] == Text(v)[1])
            && (|Text(v)| == 1 && |s| >= 2 ==> s[1] == Numeral(n - v)[0] && n > v)
            && LetterValue(s[0]) <= n
  {
  }

  lemma PairGrows(a: char, b: char)
    ensures PairValue(a, b) > 0 ==> LetterValue(b) >= 5 * LetterValue(a)
  {
  }

  /** A largest value of one letter makes no pair with what follows. */
  lemma NoPair(n: nat, b: char)
    requires n > 0 && |Text(Top(n))| == 1 && LetterValue(b) <= n - Top(n)
    ensures PairValue(Text(Top(n))[0], b) == 0
  {
    PairGrows(Text(Top(n))[0], b);
  }

  lemma TextValue(n: nat)
    requires n > 0
    ensures var v := Top(n);
            if |Text(v)| == 2 then PairValue(Text(v)[0], Text(v)[1]) == v else LetterValue(Text(v)[0]) == v
  {
  }

  lemma FirstPaired(n: nat)
    requires n > 0
    ensures BeginsPaired(Numeral(n)) <==> |Text(Top(n))| == 2
  {
    NumeralStarts(n);
    TextValue(n);
    if |Text(Top(n))| == 1 && n > Top(n) {
      NumeralStarts(n - Top(n));
      NoPair(n, Numeral(n - Top(n))[0]);
    }
  }

  /** The first letter or pair of a numeral is its largest value. */
  lemma NumeralFirst(n: nat)
    requires n > 0
    ensures Numeral(n) != [] && FirstValue(Numeral(n)) == Top(n)
    ensures Numeral(n)[FirstLength(Numeral(n))..] == Numeral(n - Top(n))
  {
    NumeralStarts(n);
    TextValue(n);
    FirstPaired(n);
  }

  /** A numeral has the value it is the numeral of. */
  lemma {:induction false} NumeralValue(n: nat)
    ensures Value(Numeral(n)) == n
  {
    if n > 0 {
      NumeralFirst(n);
      NumeralValue(n - Top(n));
    } else {
      assert Numeral(0) == [];
    }
  }

  // ----- Numerals are accepted -----

  predicate Fits(s: string) {
    AllLetters(s) && RunsFit(s) && NoneBetween(s)
  }

  /** `a` may stand before `s`. */
  predicate MayPrecede(a: char, s: string) {
    && (s != [] && MaxRun(s[0]) == 1 ==> s[0] != a)
    && (|s| >= 3 ==> !(s[0] == a && s[1] == a && s[2] == a))
    && (|s| >= 2 ==> !(s[1] == a && Clashes(a, s[0])))
  }

  lemma PrependFits(a: char, s: string)
    requires IsLetter(a) && Fits(s) && MayPrecede(a, s)
    ensures Fits([a] + s)
  {
    var r := [a] + s;
    forall i | 0 <= i < |r| ensures RunEnds(r, i) && !Between(r, i) {
      if i > 0 {
        assert RunEnds(s, i - 1) && !Between(s, i - 1);
        assert forall k :: 0 < k < |r| ==> r[k] == s[k - 1];
      }
    }
  }

  /** The largest value of a letter of the numeral of `n`. */
  function Reach(n: nat): nat {
    if n < 4 then 1 else if n < 9 then 5 else if n < 40 then 10 else if n < 90 then 50
    else if n < 400 then 100 else if n < 900 then 500 else 1000
  }

  lemma {:induction false} NumeralReach(n: nat)
    ensures forall i :: 0 <= i < |Numeral(n)| ==> IsLetter(Numeral(n)[i]) && LetterValue(Numeral(n)[i]) <= Reach(n)
  {
    if n > 0 {
      var v := Top(n);
      NumeralReach(n - v);
      assert Reach(n - v) <= Reach(n);
      assert forall i :: 0 <= i < |Text(v)| ==> IsLetter(Text(v)[i]) && LetterValue(Text(v)[i]) <= Reach(n);
    }
  }

  /** The value of which `a` is the letter. */
  predicate IsUnit(v: nat) {
    v == 1 || v == 10 || v == 100 || v == 1000
  }

  /** A numeral that begins with the letter of a unit, and is below four of it, has the unit first. */
  lemma UnitFirst(r: nat, a: char)
    requires r > 0 && IsUnit(LetterValue(a)) && IsLetter(a) && r < 4 * LetterValue(a) && Numeral(r)[0] == a
    ensures Top(r) == LetterValue(a) && Numeral(r)[1..] == Numeral(r - LetterValue(a))
  {
    NumeralStarts(r);
  }

  lemma NoFourth(r: nat, a: char)
    requires IsUnit(LetterValue(a)) && IsLetter(a) && r < 3 * LetterValue(a)
    ensures var s := Numeral(r); |s| >= 3 ==> !(s[0] == a && s[1] == a && s[2] == a)
  {
    var s, k := Numeral(r), LetterValue(a);
    if |s| >= 3 && s[0] == a && s[1] == a && s[2] == a {
      UnitFirst(r, a);
      UnitFirst(r - k, a);
      assert s[1..][1..][0] == a;
      NumeralStarts(r - k - k);
    }
  }

  /** A letter that clashes with the unit `a` and stands first in the numeral is followed by lower letters. */
  lemma NoClash(r: nat, a: char)
    requires IsUnit(LetterValue(a)) && IsLetter(a) && r < 3 * LetterValue(a)
    ensures var s := Numeral(r); |s| >= 2 ==> !(s[1] == a && Clashes(a, s[0]))
  {
    var s := Numeral(r);
    NumeralReach(r);
    if |s| >= 2 && s[1] == a && Clashes(a, s[0]) {
      NumeralStarts(r);
    }
  }

  lemma UnitMayPrecede(n: nat)
    requires 0 < n < 4000 && IsUnit(Top(n))
    ensures MayPrecede(Text(Top(n))[0], Numeral(n - Top(n)))
  {
    var a, r := Text(Top(n))[0], n - Top(n);
    NoFourth(r, a);
    NoClash(r, a);
  }

  /** A letter above all those of `s` may precede it. */
  lemma HigherMayPrecede(a: char, s: string)
    requires forall i :: 0 <= i < |s| ==> s[i] != a
    ensures MayPrecede(a, s)
  {
  }

  lemma FiveMayPrecede(n: nat)
    requires n > 0 && |Text(Top(n))| == 1 && !IsUnit(Top(n))
    ensures MayPrecede(Text(Top(n))[0], Numeral(n - Top(n)))
  {
    NumeralReach(n - Top(n));
    HigherMayPrecede(Text(Top(n))[0], Numeral(n - Top(n)));
  }

  lemma SecondMayPrecede(n: nat)
    requires n > 0 && |Text(Top(n))| == 2
    ensures MayPrecede(Text(Top(n))[1], Numeral(n - Top(n)))
  {
    NumeralReach(n - Top(n));
    HigherMayPrecede(Text(Top(n))[1], Numeral(n - Top(n)));
  }

  lemma FirstMayPrecede(n: nat)
    requires n > 0 && |Text(Top(n))| == 2
    ensures MayPrecede(Text(Top(n))[0], [Text(Top(n))[1]] + Numeral(n - Top(n)))
  {
    var r := n - Top(n);
    if r > 0 {
      NumeralStarts(r);
    }
  }

  lemma TextLetters(n: nat)
    requires n > 0
    ensures AllLetters(Text(Top(n))) && (|Text(Top(n))| == 1 ==> Text(Top(n)) == [Text(Top(n))[0]])
    ensures |Text(Top(n))| == 2 ==> Text(Top(n)) == [Text(Top(n))[0]] + [Text(Top(n))[1]]
  {
  }

  lemma {:induction false} NumeralFits(n: nat)
    requires n < 4000
    ensures Fits(Numeral(n))
  {
    if n > 0 {
      var text, rest := Text(Top(n)), Numeral(n - Top(n));
      NumeralFits(n - Top(n));
      TextLetters(n);
      if |text| == 2 {
        SecondMayPrecede(n);
        PrependFits(text[1], rest);
        FirstMayPrecede(n);
        PrependFits(text[0], [text[1]] + rest);
        assert [text[0]] + ([text[1]] + rest) == text + rest;
      } else {
        if IsUnit(Top(n)) {
          UnitMayPrecede(n);
        } else {
          FiveMayPrecede(n);
        }
        PrependFits(text[0], rest);
      }
    }
  }

  lemma FourThousand(n: nat)
    requires n >= 4000
    ensures var s := Numeral(n); |s| > 3 && s[0] == 'M' && s[1] == 'M' && s[2] == 'M' && s[3] == 'M'
  {
    var m := Numeral(n - 1000 - 1000 - 1000 - 1000);
    assert Numeral(n - 1000 - 1000 - 1000) == "M" + m;
    assert Numeral(n - 1000 - 1000) == "M" + ("M" + m);
    assert Numeral(n - 1000) == "M" + ("M" + ("M" + m));
  }

  /** Exactly the numerals of 1 to 3999 are accepted, and each gives the number it is the numeral of. */
  lemma NumeralRead(n: nat)
    ensures IsRoman(Numeral(n)) <==> 0 < n < 4000
    ensures Value(Numeral(n)) == n
  {
    NumeralValue(n);
    if n >= 4000 {
      FourThousand(n);
      assert !RunEnds(Numeral(n), 3);
    } else {
      NumeralFits(n);
    }
  }

  // ----- Which accepted strings are numerals -----

  /** The largest value that may stand behind one of value `v` in a numeral. */
  function NextMost(v: nat): nat {
    if v == 4 || v == 9 then 0 else if v == 5 then 1
    else if v == 40 || v == 90 then 9 else if v == 50 then 10
    else if v == 400 || v == 900 then 90 else if v == 500 then 100 else v
  }

  /** The letters and pairs of `s` come in the order of a numeral. */
  predicate InOrder(s: string) {
    s == [] || var rest := s[FirstLength(s)..];
               (rest == [] || FirstValue(rest) <= NextMost(FirstValue(s))) && InOrder(rest)
  }

  lemma {:induction false} NumeralInOrder(n: nat)
    ensures InOrder(Numeral(n))
  {
    if n > 0 {
      var r := n - Top(n);
      NumeralFirst(n);
      NumeralInOrder(r);
      if r > 0 {
        NumeralFirst(r);
      }
    }
  }

  /** The value above `v` among those of one letter or pair. */
  function Up(v: nat): nat {
    if v == 1 then 4 else if v == 4 then 5 else if v == 5 then 9 else if v == 9 then 10
    else if v == 10 then 40 else if v == 40 then 50 else if v == 50 then 90 else if v == 90 then 100
    else if v == 100 then 400 else if v == 400 then 500 else if v == 500 then 900 else 1000
  }

  /** How often `s` begins with the unit `k`. */
  function Units(s: string, k: nat): nat {
    if s == [] || FirstValue(s) != k then 0 else 1 + Units(s[FirstLength(s)..], k)
  }

  lemma FitsBehind(s: string, n: nat)
    requires Fits(s) && n <= |s|
    ensures Fits(s[n..])
  {
    var r := s[n..];
    forall i | 0 <= i < |r| ensures RunEnds(r, i) && !Between(r, i) {
      assert RunEnds(s, n + i) && !Between(s, n + i);
      assert forall k :: 0 <= k < |r| ==> r[k] == s[n + k];
    }
  }

  lemma UnitLetter(s: string, k: nat)
    requires s != [] && AllLetters(s) && IsUnit(k) && FirstValue(s) == k
    ensures FirstLength(s) == 1 && LetterValue(s[0]) == k
  {
  }

  lemma {:induction false} UnitsLetters(s: string, k: nat, j: nat)
    requires AllLetters(s) && IsUnit(k) && j < Units(s, k)
    ensures j < |s| && LetterValue(s[j]) == k
    decreases j
  {
    UnitLetter(s, k);
    if j > 0 {
      UnitsLetters(s[1..], k, j - 1);
    }
  }

  lemma UnitsAtMost(s: string, k: nat)
    requires Fits(s) && IsUnit(k)
    ensures Units(s, k) <= 3
  {
    assert |s| > 3 ==> RunEnds(s, 3);
    if Units(s, k) > 3 {
      UnitsLetters(s, k, 0);
      UnitsLetters(s, k, 1);
      UnitsLetters(s, k, 2);
      UnitsLetters(s, k, 3);
    }
  }

  lemma FirstIsTop(s: string)
    requires s != [] && AllLetters(s)
    ensures IsTop(FirstValue(s))
  {
  }

  /** Three units and what follows them stay below the next unit. */
  lemma {:induction false} BelowUnits(s: string, k: nat)
    requires Fits(s) && InOrder(s) && IsUnit(k) && (s != [] ==> FirstValue(s) <= k)
    ensures Value(s) < Units(s, k) * k + k
    decreases |s|, k, 0
  {
    if s != [] {
      FirstIsTop(s);
      var rest := s[FirstLength(s)..];
      FitsBehind(s, FirstLength(s));
      if FirstValue(s) == k {
        BelowUnits(rest, k);
        assert Units(s, k) * k == k + Units(rest, k) * k;
      } else {
        BelowUp(s);
        assert Units(s, k) * k == 0;
      }
    }
  }

  /** In an accepted string in order, what begins with `v` is below the next value. */
  lemma {:induction false} BelowUp(s: string)
    requires s != [] && Fits(s) && InOrder(s) && FirstValue(s) < 1000
    ensures Value(s) < Up(FirstValue(s))
    decreases |s|, FirstValue(s), 1
  {
    var v, rest := FirstValue(s), s[FirstLength(s)..];
    FirstIsTop(s);
    FitsBehind(s, FirstLength(s));
    if IsUnit(v) {
      BelowUnits(s, v);
      UnitsAtMost(s, v);
    } else if v == 5 || v == 50 || v == 500 {
      var k := v / 5;
      BelowUnits(rest, k);
      UnitsAtMost(rest, k);
    } else if rest != [] {
      FirstIsTop(rest);
      BelowUp(rest);
    }
  }

  lemma TopOfFirst(s: string)
    requires s != [] && Fits(s) && InOrder(s)
    ensures 0 < FirstValue(s) <= Value(s) && Top(Value(s)) == FirstValue(s)
  {
    FirstIsTop(s);
    if FirstValue(s) < 1000 {
      BelowUp(s);
    }
  }

  lemma TextOfFirst(s: string)
    requires s != [] && AllLetters(s)
    ensures Text(FirstValue(s)) == s[..FirstLength(s)]
  {
  }

  lemma {:induction false} OrderedIsNumeral(s: string)
    requires Fits(s) && InOrder(s)
    ensures s == Numeral(Value(s))
    decreases |s|
  {
    if s != [] {
      var n := FirstLength(s);
      TopOfFirst(s);
      TextOfFirst(s);
      FitsBehind(s, n);
      OrderedIsNumeral(s[n..]);
      assert s == s[..n] + s[n..];
    }
  }

  /** An accepted string is the numeral of its value exactly if its letters and pairs are in order. */
  lemma NumeralExact(s: string)
    requires IsRoman(s)
    ensures s == Numeral(Value(s)) <==> InOrder(s)
  {
    if InOrder(s) {
      OrderedIsNumeral(s);
    }
    NumeralInOrder(Value(s));
  }

  /** A string out of order that is accepted, and has the value of another. */
  lemma OutOfOrder()
    ensures IsRoman("VX") && IsRoman("XV") && Value("VX") == Value("XV") == 15 && !InOrder("VX")
  {
    assert "VX"[1..] == "X" && "XV"[1..] == "V";
    assert Value("X"[1..]) == 0 && Value("V"[1..]) == 0;
    assert Value("X") == 10 && Value("V") == 5;
  }
}

/**
 What Roman numerals and digits stand for (crates/tex-biber/src/collation_numeric.rs), told of the texts alone: the
 strings that must not occur, the letters and pairs taken from the left, and the places of digits.
 */
module NumeralTexts {
  import opened Bytes
  import Romans = RomanNumerals
  import Numbers = NumericSort

  // ----- What is accepted -----

  const LETTERS: set<char> := {'I', 'V', 'X', 'L', 'C', 'D', 'M'}

  /** Four of a letter, two of V, L or D, and a letter on both sides of one it clashes with. */
  const REFUSED: set<string> := {
    "IIII", "XXXX", "CCCC", "MMMM", "VV", "LL", "DD",
    "IXI", "XCX", "CMC", "IVI", "VIV", "VXV", "XVX", "XLX", "LXL", "LCL", "CLC", "CDC", "DCD", "DMD", "MDM"}

  predicate OccursAt(t: string, s: string, i: nat) {
    i + |t| <= |s| && s[i..i + |t|] == t
  }

  lemma TwoAt(s: string, i: nat, a: char, b: char)
    requires i + 2 <= |s|
    ensures OccursAt([a, b], s, i) <==> s[i] == a && s[i + 1] == b
  {
    assert s[i..i + 2] == [s[i], s[i + 1]];
  }

  lemma ThreeAt(s: string, i: nat, a: char, b: char, c: char)
    requires i + 3 <= |s|
    ensures OccursAt([a, b, c], s, i) <==> s[i] == a && s[i + 1] == b && s[i + 2] == c
  {
    assert s[i..i + 3] == [s[i], s[i + 1], s[i + 2]];
  }

  lemma FourAt(s: string, i: nat, a: char, b: char, c: char, d: char)
    requires i + 4 <= |s|
    ensures OccursAt([a, b, c, d], s, i) <==> s[i] == a && s[i + 1] == b && s[i + 2] == c && s[i + 3] == d
  {
    assert s[i..i + 4] == [s[i], s[i + 1], s[i + 2], s[i + 3]];
  }

  /** One letter too many at `i` ends a refused string there. */
  lemma RunRefused(s: string, i: nat) returns (t: string, from: nat)
    requires Romans.AllLetters(s) && i < |s| && !Romans.RunEnds(s, i)
    ensures t in REFUSED && OccursAt(t, s, from)
  {
    if Romans.MaxRun(s[i]) == 1 {
      t, from := [s[i], s[i]], i - 1;
      TwoAt(s, from, s[i], s[i]);
    } else {
      t, from := [s[i], s[i], s[i], s[i]], i - 3;
      FourAt(s, from, s[i], s[i], s[i], s[i]);
    }
  }

  lemma ClashRefused(s: string, i: nat) returns (t: string, from: nat)
    requires Romans.AllLetters(s) && i < |s| && Romans.Between(s, i)
    ensures t in REFUSED && OccursAt(t, s, from)
  {
    t, from := [s[i], s[i - 1], s[i]], i - 2;
    ThreeAt(s, from, s[i], s[i - 1], s[i]);
  }

  lemma RefusedFour(s: string, i: nat, t: string)
    requires t in REFUSED && |t| == 4 && OccursAt(t, s, i)
    ensures !Romans.RunEnds(s, i + 3)
  {
    FourAt(s, i, t[0], t[1], t[2], t[3]);
    assert t == [t[0], t[1], t[2], t[3]];
  }

  lemma RefusedTwo(s: string, i: nat, t: string)
    requires t in REFUSED && |t| == 2 && OccursAt(t, s, i)
    ensures !Romans.RunEnds(s, i + 1)
  {
    TwoAt(s, i, t[0], t[1]);
    assert t == [t[0], t[1]];
  }

  lemma RefusedThree(s: string, i: nat, t: string)
    requires t in REFUSED && |t| == 3 && OccursAt(t, s, i)
    ensures Romans.Between(s, i + 2)
  {
    ThreeAt(s, i, t[0], t[1], t[2]);
    assert t == [t[0], t[1], t[2]];
  }

  lemma LettersExact(s: string)
    ensures Romans.AllLetters(s) <==> forall c :: c in s ==> c in LETTERS
  {
    assert forall i :: 0 <= i < |s| ==> (Romans.IsLetter(s[i]) <==> s[i] in LETTERS);
  }

  /** A string of the letters is refused exactly if it is empty or one of these occurs in it. */
  lemma RomanExact(s: string)
    ensures Romans.IsRoman(s) <==>
            && s != [] && (forall c :: c in s ==> c in LETTERS)
            && forall t, i: nat :: t in REFUSED ==> !OccursAt(t, s, i)
  {
    LettersExact(s);
    if s != [] && Romans.AllLetters(s) {
      if i :| 0 <= i < |s| && !Romans.RunEnds(s, i) {
        var t, from := RunRefused(s, i);
      } else if i :| 0 <= i < |s| && Romans.Between(s, i) {
        var t, from := ClashRefused(s, i);
      } else if t, i: nat :| t in REFUSED && OccursAt(t, s, i) {
        if |t| == 4 {
          RefusedFour(s, i, t);
        } else if |t| == 3 {
          RefusedThree(s, i, t);
        } else {
          RefusedTwo(s, i, t);
        }
      }
    }
  }

  // ----- The value -----

  /** The letters and the pairs that subtract. */
  const WORTH: map<string, nat> := map[
    "I" := 1, "V" := 5, "X" := 10, "L" := 50, "C" := 100, "D" := 500, "M" := 1000,
    "IV" := 4, "IX" := 9, "XL" := 40, "XC" := 90, "CD" := 400, "CM" := 900]

  /** `s` cut into letters and pairs from the left, a pair wherever one stands. */
  predicate Cut(s: string, parts: seq<string>) {
    if parts == [] then s == []
    else
      && parts[0] in WORTH && parts[0] <= s && (|parts[0]| == 1 && |s| >= 2 ==> s[..2] !in WORTH)
      && Cut(s[|parts[0]|..], parts[1..])
  }

  function Sum(parts: seq<string>): nat
    requires forall i :: 0 <= i < |parts| ==> parts[i] in WORTH
  {
    if parts == [] then 0 else WORTH[parts[0]] + Sum(parts[1..])
  }

  lemma PairWorth(a: char, b: char)
    ensures Romans.PairValue(a, b) > 0 <==> [a, b] in WORTH
    ensures [a, b] in WORTH ==> WORTH[[a, b]] == Romans.PairValue(a, b)
  {
    assert [a, b][0] == a && [a, b][1] == b;
  }

  lemma LetterWorth(c: char)
    ensures [c] in WORTH <==> c in LETTERS
    ensures c in LETTERS ==> WORTH[[c]] == Romans.LetterValue(c)
  {
    assert [c][0] == c;
  }

  lemma CutOnce(s: string, parts: seq<string>)
    requires parts != [] && Cut(s, parts)
    ensures s != [] && |parts[0]| == Romans.FirstLength(s) && WORTH[parts[0]] == Romans.FirstValue(s)
  {
    var t := parts[0];
    assert |t| == 1 || |t| == 2;
    assert t == s[..|t|];
    if |s| >= 2 {
      PairWorth(s[0], s[1]);
      assert s[..2] == [s[0], s[1]];
    }
    LetterWorth(s[0]);
    assert s[..1] == [s[0]];
  }

  lemma {:induction false} CutWorth(s: string, parts: seq<string>)
    requires Cut(s, parts)
    ensures (forall i :: 0 <= i < |parts| ==> parts[i] in WORTH) && Romans.Value(s) == Sum(parts)
    decreases |parts|
  {
    if parts != [] {
      CutOnce(s, parts);
      CutWorth(s[|parts[0]|..], parts[1..]);
    }
  }

  lemma {:induction false} CutExists(s: string) returns (parts: seq<string>)
    requires forall c :: c in s ==> c in LETTERS
    ensures Cut(s, parts)
    decreases |s|
  {
    if s == [] {
      parts := [];
    } else {
      var n := Romans.FirstLength(s);
      var rest := CutExists(s[n..]);
      parts := [s[..n]] + rest;
      LetterWorth(s[0]);
      assert s[..1] == [s[0]];
      if |s| >= 2 {
        PairWorth(s[0], s[1]);
        assert s[..2] == [s[0], s[1]];
      }
    }
  }

  /** A string of the letters is worth the sum of its letters and pairs, cut from the left. */
  lemma ValueExact(s: string) returns (parts: seq<string>)
    requires forall c :: c in s ==> c in LETTERS
    ensures Cut(s, parts) && (forall i :: 0 <= i < |parts| ==> parts[i] in WORTH)
    ensures Romans.Value(s) == Sum(parts)
  {
    parts := CutExists(s);
    CutWorth(s, parts);
  }

  // ----- Digits -----

  lemma DigitWorth(zero: nat, c: nat)
    requires zero <= c <= zero + 9
    ensures Numbers.DigitsTotal(zero, [c]) == c - zero
  {
    assert [c][..0] == [];
  }

  lemma Tenfold(p: nat, v: nat, low: nat)
    ensures 10 * (p * v + low) == 10 * p * v + 10 * low
  {
  }

  /** Digits in front count by the power of ten of how many follow. */
  lemma {:induction false} DigitsJoin(zero: nat, a: seq<nat>, b: seq<nat>)
    requires Numbers.DigitsFrom(zero, a) && Numbers.DigitsFrom(zero, b)
    ensures Numbers.DigitsTotal(zero, a + b)
         == Power(10, |b|) * Numbers.DigitsTotal(zero, a) + Numbers.DigitsTotal(zero, b)
    decreases |b|
  {
    if b == [] {
      assert a + b == a && Power(10, 0) == 1;
    } else {
      var front := b[..|b| - 1];
      DigitsJoin(zero, a, front);
      assert (a + b)[..|a + b| - 1] == a + front;
      Tenfold(Power(10, |front|), Numbers.DigitsTotal(zero, a), Numbers.DigitsTotal(zero, front));
      assert Power(10, |b|) == 10 * Power(10, |front|);
    }
  }

  /** Digits of one script are worth their number, exactly below 2 to the 64; a text with another character is left. */
  lemma DigitsExact(zero: nat, text: seq<nat>)
    ensures var others := exists c :: c in text && !(0 <= c - zero < 10);
            match Numbers.DigitsValue(zero, text)
            case Unchanged => others
            case Exact(n) => !others && n == Numbers.DigitsTotal(zero, text) && n <= 0xffff_ffff_ffff_ffff
            case Rounded => !others && Numbers.DigitsTotal(zero, text) > 0xffff_ffff_ffff_ffff
  {
    if Numbers.DigitsFrom(zero, text) {
      assert forall c :: c in text ==> 0 <= c - zero < 10;
    } else {
      var i :| 0 <= i < |text| && !(zero <= text[i] <= zero + 9);
      assert text[i] in text && !(0 <= text[i] - zero < 10);
    }
  }
}

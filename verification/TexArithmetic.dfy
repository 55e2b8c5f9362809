/**
 The fixed-point arithmetic of scripts/bundle_packages.py: TeX's conversion of a decimal number of
 points to scaled points (tex.web section 102), and pdfTeX's `divide_scaled` remainder.
 */
module TexArithmetic {
  import opened Wrappers
  import opened Bytes

  const UNITY_TWICE := 131072 // two in tex.web's scaled arithmetic
  const MAX_DIGITS := 17

  /** `a / b` rounded to the nearest integer, half up. */
  function RoundHalfUp(a: nat, b: nat): nat
    requires b > 0
  {
    (2 * a + b) / (2 * b)
  }

  /** The rounded quotient is the one integer within half a unit of the quotient, and above it on a tie. */
  lemma RoundHalfUpNearest(a: nat, b: nat, q: nat)
    requires b > 0
    ensures q == RoundHalfUp(a, b) <==> 2 * b * q <= 2 * a + b < 2 * b * (q + 1)
  {
    DivBounds(2 * a + b, 2 * b);
    if 2 * b * q <= 2 * a + b < 2 * b * (q + 1) {
      DivUnique(2 * a + b, 2 * b, q);
    }
  }

  lemma DivBounds(x: nat, b: nat)
    requires b > 0
    ensures b * (x / b) <= x < b * (x / b + 1)
  {
  }

  lemma DivUnique(x: nat, b: nat, q: nat)
    requires b > 0 && b * q <= x < b * (q + 1)
    ensures x / b == q
  {
    var d := x / b;
    DivBounds(x, b);
    if d < q {
      MulMonotone(b, d + 1, q);
    } else if d > q {
      MulMonotone(b, q + 1, d);
    }
  }

  lemma MulMonotone(b: nat, x: nat, y: nat)
    requires x <= y
    ensures b * x <= b * y
  {
  }

  lemma DivDiv(x: nat, a: nat, b: nat)
    requires a > 0 && b > 0
    ensures a * b > 0 && x / a / b == x / (a * b)
  {
    var y, q := x / a, x / a / b;
    DivBounds(x, a);
    DivBounds(y, b);
    MulMonotone(a, b * q, y);
    MulMonotone(a, y + 1, b * (q + 1));
    assert a * (b * q) == a * b * q && a * (b * (q + 1)) == a * b * (q + 1);
    DivUnique(x, a * b, q);
  }

  lemma DivShift(x: nat, c: nat, p: nat)
    requires p > 0
    ensures (x + c * p) / p == x / p + c
  {
    var q := x / p;
    DivBounds(x, p);
    assert p * (q + c) == p * q + c * p;
    assert p * (q + c + 1) == p * (q + 1) + c * p;
    DivUnique(x + c * p, p, q + c);
  }

  // ----- Decimal fractions -----

  lemma PushDigit(v: nat, p: nat, w: nat, d: nat)
    ensures (v * p + w) * 10 + d == v * (10 * p) + (w * 10 + d)
  {
  }

  lemma {:induction false} NumeralAppend(a: string, b: string)
    requires AllDigits(a) && AllDigits(b)
    ensures AllDigits(a + b)
    ensures NumeralValue(a + b) == NumeralValue(a) * Power(10, |b|) + NumeralValue(b)
    decreases |b|
  {
    if b == [] {
      assert a + b == a;
      assert Power(10, 0) == 1;
    } else {
      var front := b[..|b| - 1];
      NumeralAppend(a, front);
      assert (a + b)[..|a + b| - 1] == a + front;
      var v, w, p, d := NumeralValue(a), NumeralValue(front), Power(10, |front|), DigitValue(b[|b| - 1]);
      PushDigit(v, p, w, d);
    }
  }

  lemma {:induction false} NumeralBelow(s: string)
    requires AllDigits(s)
    ensures NumeralValue(s) < Power(10, |s|)
  {
    if s == [] {
      assert Power(10, 0) == 1;
    } else {
      NumeralBelow(s[..|s| - 1]);
    }
  }

  /** The loop of `round_decimals` on a string of digits: twice the fraction, in scaled units, rounded down. */
  function TwiceFraction(digits: string): nat
    requires AllDigits(digits)
  {
    if digits == [] then 0
    else (TwiceFraction(digits[1..]) + DigitValue(digits[0]) * UNITY_TWICE) / 10
  }

  /** The repeated rounding of the loop loses nothing against one rounding at the end. */
  lemma {:induction false} TwiceFractionExact(digits: string)
    requires AllDigits(digits)
    ensures TwiceFraction(digits) == UNITY_TWICE * NumeralValue(digits) / Power(10, |digits|)
  {
    if digits == [] {
      assert Power(10, 0) == 1;
    } else {
      var rest, d, p := digits[1..], DigitValue(digits[0]), Power(10, |digits| - 1);
      TwiceFractionExact(rest);
      assert digits == [digits[0]] + rest;
      NumeralAppend([digits[0]], rest);
      assert [digits[0]][..0] == [];
      FractionStep(NumeralValue(rest), d, p, TwiceFraction(rest), NumeralValue(digits), Power(10, |digits|));
    }
  }

  lemma FractionStep(v: nat, d: nat, p: nat, twice: nat, total: nat, q: nat)
    requires p > 0 && q == 10 * p && total == d * p + v && twice == UNITY_TWICE * v / p
    ensures (twice + d * UNITY_TWICE) / 10 == UNITY_TWICE * total / q
  {
    var x, c := UNITY_TWICE * v, d * UNITY_TWICE;
    DivShift(x, c, p);
    assert c * p == UNITY_TWICE * (d * p);
    DivDiv(x + c * p, p, 10);
    assert p * 10 == 10 * p;
  }

  lemma {:induction false} PowerSplit(k: nat)
    ensures Power(10, k) == Power(2, k) * Power(5, k)
  {
    if k > 0 {
      PowerSplit(k - 1);
      var a, b := Power(2, k - 1), Power(5, k - 1);
      assert 10 * (a * b) == 2 * a * (5 * b);
    }
  }

  lemma {:induction false} PowerSum(b: nat, j: nat, k: nat)
    ensures Power(b, j + k) == Power(b, j) * Power(b, k)
  {
    if j > 0 {
      PowerSum(b, j - 1, k);
      assert b * (Power(b, j - 1) * Power(b, k)) == b * Power(b, j - 1) * Power(b, k);
    } else {
      assert Power(b, 0) == 1;
    }
  }

  lemma PowerTwoSeventeen()
    ensures Power(2, MAX_DIGITS) == UNITY_TWICE
  {
    assert Power(2, 0) == 1;
    assert Power(2, 4) == 16;
    assert Power(2, 8) == 256;
    assert Power(2, 12) == 4096;
    assert Power(2, 17) == 131072;
  }

  /** A common factor cancels in a rounded quotient. */
  lemma DivCancel(c: nat, x: nat, b: nat)
    requires c > 0 && b > 0
    ensures c * b > 0 && c * x / (c * b) == x / b
  {
    var q := x / b;
    DivBounds(x, b);
    assert c * b > 0;
    CancelBounds(c, x, b, q);
    DivUnique(c * x, c * b, q);
  }

  lemma CancelBounds(c: nat, x: nat, b: nat, q: nat)
    requires c > 0 && b * q <= x < b * (q + 1)
    ensures c * b * q <= c * x < c * b * (q + 1)
  {
    var lo, hi := b * q, b * (q + 1);
    MulMonotone(c, lo, x);
    MulMonotone(c, x + 1, hi);
    assert c * (x + 1) == c * x + c;
    assert c * lo == c * b * q && c * hi == c * b * (q + 1);
  }

  lemma DivScaled(p: nat, f: nat, r: nat, b: nat)
    requires p > 0 && b > 0 && r < p
    ensures p * b > 0 && (f * p + r) / (p * b) == f / b
  {
    DivShift(r, f, p);
    DivUnique(r, p, 0);
    DivDiv(f * p + r, p, b);
  }

  /** Digits after the 17th never change the result: two in scaled arithmetic is 2 to the 17th. */
  lemma DroppedDigits(digits: string)
    requires AllDigits(digits) && |digits| >= MAX_DIGITS
    ensures TwiceFraction(digits) == TwiceFraction(digits[..MAX_DIGITS])
  {
    var kept, dropped := digits[..MAX_DIGITS], digits[MAX_DIGITS..];
    assert digits == kept + dropped;
    TwiceFractionExact(digits);
    TwiceFractionExact(kept);
    NumeralAppend(kept, dropped);
    NumeralBelow(dropped);
    PowerSplit(MAX_DIGITS);
    PowerTwoSeventeen();
    PowerSum(10, MAX_DIGITS, |dropped|);
    CancelTwos(NumeralValue(kept), NumeralValue(dropped), Power(10, |dropped|), Power(5, MAX_DIGITS));
  }

  lemma CancelTwos(f: nat, r: nat, p: nat, five: nat)
    requires p > 0 && five > 0 && r < p
    ensures UNITY_TWICE * five > 0 && UNITY_TWICE * five * p > 0
    ensures UNITY_TWICE * (f * p + r) / (UNITY_TWICE * five * p) == UNITY_TWICE * f / (UNITY_TWICE * five)
  {
    DivScaled(p, f, r, five);
    DivCancel(UNITY_TWICE, f * p + r, p * five);
    DivCancel(UNITY_TWICE, f, five);
    assert UNITY_TWICE * (p * five) == UNITY_TWICE * five * p;
  }

  // ----- Points to scaled points -----

  /** The text before the first point and the text after it. */
  function Partition(text: string): (parts: (string, string))
    ensures '.' !in parts.0
    ensures text == parts.0 || text == parts.0 + "." + parts.1
    ensures text == parts.0 ==> parts.1 == []
  {
    if text == [] then ([], [])
    else if text[0] == '.' then ([], text[1..])
    else
      var (whole, frac) := Partition(text[1..]);
      ([text[0]] + whole, frac)
  }

  /** A decimal text: digits, and after an optional point more digits. */
  predicate IsDecimal(text: string) {
    var (whole, frac) := Partition(text);
    whole != [] && AllDigits(whole) && AllDigits(frac)
  }

  predicate DigitsAndPoints(text: string) {
    forall c :: c in text ==> IsDigit(c) || c == '.'
  }

  /** The decimal is `Numerator / 10 ^ Places`. */
  function Numerator(text: string): nat
    requires IsDecimal(text)
  {
    var (whole, frac) := Partition(text);
    NumeralValue(whole + frac)
  }

  function Places(text: string): nat {
    |Partition(text).1|
  }

  lemma RoundParts(whole: nat, frac: nat, p: nat)
    requires p > 0
    ensures whole * 65536 + (UNITY_TWICE * frac / p + 1) / 2 == RoundHalfUp(65536 * (whole * p + frac), p)
  {
    var x := UNITY_TWICE * frac;
    DivShift(x, 1, p);
    assert x + 1 * p == x + p;
    DivDiv(x + p, p, 2);
    DivShift(x + p, whole * 65536, p * 2);
    assert whole * 65536 * (p * 2) + (x + p) == 2 * (65536 * (whole * p + frac)) + p;
  }

  lemma RoundTotal(whole: nat, frac: nat, p: nat, twice: nat, total: nat)
    requires p > 0 && twice == UNITY_TWICE * frac / p && total == whole * p + frac
    ensures whole * 65536 + (twice + 1) / 2 == RoundHalfUp(65536 * total, p)
  {
    RoundParts(whole, frac, p);
  }

  lemma FractionDigits(frac: string)
    requires AllDigits(frac)
    ensures AllDigits(First(frac, MAX_DIGITS))
    ensures TwiceFraction(First(frac, MAX_DIGITS)) == UNITY_TWICE * NumeralValue(frac) / Power(10, |frac|)
  {
    TwiceFractionExact(frac);
    if |frac| >= MAX_DIGITS {
      DroppedDigits(frac);
      assert First(frac, MAX_DIGITS) == frac[..MAX_DIGITS];
    }
  }

  /** Python's `int`, of a text and of one character; what it accepts beyond ASCII depends on Unicode tables. */
  datatype Reader = Reader(number: string -> Option<int>, digit: char -> Option<nat>) {

    /** ASCII digits give their number, one character a digit, and a text with a point nothing. */
    ghost predicate Valid() {
      && (forall c :: IsDigit(c) ==> digit(c) == Some(DigitValue(c)))
      && (forall c :: digit(c).Some? ==> digit(c).value <= 9 && c != '.')
      && (forall s :: AllDigits(s) && s != [] ==> number(s) == Some(NumeralValue(s)))
      && (forall s :: s == [] || '.' in s ==> number(s).None?)
    }

    predicate Reads(s: string) {
      forall i :: 0 <= i < |s| ==> digit(s[i]).Some?
    }

    /** The ASCII digit that a character is taken for. */
    function DigitFor(c: char): (d: char)
      ensures IsDigit(d)
    {
      if digit(c).Some? && digit(c).value <= 9 then Digit(digit(c).value) else '0'
    }

    function DigitsOf(s: string): (digits: string)
      ensures |digits| == |s| && AllDigits(digits)
    {
      if s == [] then [] else [DigitFor(s[0])] + DigitsOf(s[1..])
    }

    lemma {:induction false} OwnDigits(s: string)
      requires Valid() && AllDigits(s)
      ensures Reads(s) && DigitsOf(s) == s
    {
      if s != [] {
        OwnDigits(s[1..]);
        assert s[0] in s && DigitFor(s[0]) == s[0];
        assert s == [s[0]] + s[1..];
        forall i | 0 <= i < |s| ensures digit(s[i]).Some? {
          assert s[i] in s;
        }
      }
    }
  }

  /** What a text is worth: the whole part as a number, at most 17 characters of the fraction as digits. */
  function PointsRead(reader: Reader, text: string): Option<int> {
    var (whole, frac) := Partition(text);
    var digits := First(frac, MAX_DIGITS);
    if reader.number(whole).Some? && reader.Reads(digits)
    then Some(reader.number(whole).value * 65536 + (TwiceFraction(reader.DigitsOf(digits)) + 1) / 2) else None
  }

  /**
   Scaled points of a number of points, for every text. A decimal of any length gives its exact value
   rounded half up; a text of digits and points is an error if it has no whole digits, or a second point
   among the digits read.
   */
  method TexPtSp(reader: Reader, text: string) returns (r: Result<int, string>)
    requires reader.Valid()
    ensures if PointsRead(reader, text).Some? then r == Ok(PointsRead(reader, text).value) else r.Err?
    ensures IsDecimal(text) ==>
              r == Ok(RoundHalfUp(65536 * Numerator(text), Power(10, Places(text))))
    ensures DigitsAndPoints(text) ==>
              (r.Err? <==> Partition(text).0 == [] || '.' in First(Partition(text).1, MAX_DIGITS))
  {
    DigitsOrPoint(reader, text);
    DecimalPoints(reader, text);
    var points := ReadPoints(reader, text);
    r := if points.Some? then Ok(points.value) else Err("invalid literal for int()");
  }

  method ReadPoints(reader: Reader, text: string) returns (points: Option<int>)
    requires reader.Valid()
    ensures points == PointsRead(reader, text)
  {
    var (whole, frac) := Partition(text);
    var fraction := ReadFraction(reader, First(frac, MAX_DIGITS));
    var number := reader.number(whole);
    if fraction.None? || number.None? {
      return None;
    }
    points := Some(number.value * 65536 + (fraction.value + 1) / 2);
  }

  /** A decimal is read whole, and its scaled points are its exact value rounded half up. */
  lemma DecimalPoints(reader: Reader, text: string)
    requires reader.Valid()
    ensures IsDecimal(text) ==>
              PointsRead(reader, text) == Some(RoundHalfUp(65536 * Numerator(text), Power(10, Places(text))))
  {
    if IsDecimal(text) {
      var (whole, frac) := Partition(text);
      DecimalRead(reader, whole, frac);
      WholeAndFraction(whole, frac);
    }
  }

  lemma DecimalRead(reader: Reader, whole: string, frac: string)
    requires reader.Valid() && whole != [] && AllDigits(whole) && AllDigits(frac)
    ensures reader.number(whole) == Some(NumeralValue(whole))
    ensures reader.Reads(First(frac, MAX_DIGITS))
    ensures reader.DigitsOf(First(frac, MAX_DIGITS)) == First(frac, MAX_DIGITS)
  {
    assert forall c :: c in First(frac, MAX_DIGITS) ==> c in frac;
    reader.OwnDigits(First(frac, MAX_DIGITS));
  }

  /** For every text that is read, the fraction is its at most 17 digits rounded half up. */
  lemma PointsRounded(reader: Reader, text: string)
    requires reader.Valid() && PointsRead(reader, text).Some?
    ensures var (whole, frac) := Partition(text);
            var digits := reader.DigitsOf(First(frac, MAX_DIGITS));
            PointsRead(reader, text).value
            == reader.number(whole).value * 65536 + RoundHalfUp(65536 * NumeralValue(digits), Power(10, |digits|))
  {
    FractionRounded(reader.DigitsOf(First(Partition(text).1, MAX_DIGITS)));
  }

  lemma FractionRounded(frac: string)
    requires AllDigits(frac)
    ensures (TwiceFraction(frac) + 1) / 2 == RoundHalfUp(65536 * NumeralValue(frac), Power(10, |frac|))
  {
    TwiceFractionExact(frac);
    RoundTotal(0, NumeralValue(frac), Power(10, |frac|), TwiceFraction(frac), NumeralValue(frac));
  }

  /** Of texts of digits and points, what is an error. */
  lemma DigitsOrPoint(reader: Reader, text: string)
    requires reader.Valid()
    ensures DigitsAndPoints(text) ==>
              (PointsRead(reader, text).None?
               <==> Partition(text).0 == [] || '.' in First(Partition(text).1, MAX_DIGITS))
  {
    var (whole, frac) := Partition(text);
    var digits := First(frac, MAX_DIGITS);
    if DigitsAndPoints(text) {
      assert forall c :: c in digits ==> c in frac;
      if '.' !in digits {
        reader.OwnDigits(digits);
      }
    }
  }

  lemma WholeAndFraction(whole: string, frac: string)
    requires AllDigits(whole) && AllDigits(frac)
    ensures AllDigits(First(frac, MAX_DIGITS)) && AllDigits(whole + frac)
    ensures NumeralValue(whole) * 65536 + (TwiceFraction(First(frac, MAX_DIGITS)) + 1) / 2
         == RoundHalfUp(65536 * NumeralValue(whole + frac), Power(10, |frac|))
  {
    FractionDigits(frac);
    NumeralAppend(whole, frac);
    RoundTotal(NumeralValue(whole), NumeralValue(frac), Power(10, |frac|), TwiceFraction(First(frac, MAX_DIGITS)),
      NumeralValue(whole + frac));
  }

  /** The loop over the digits, last to first; it stops at a character that is none. */
  method ReadFraction(reader: Reader, digits: string) returns (a: Option<nat>)
    requires reader.Valid()
    ensures a == if reader.Reads(digits) then Some(TwiceFraction(reader.DigitsOf(digits))) else None
  {
    var sum: nat := 0;
    var i: nat := |digits|;
    while i > 0
      invariant i <= |digits|
      invariant reader.Reads(digits[i..]) && sum == TwiceFraction(reader.DigitsOf(digits[i..]))
    {
      i := i - 1;
      var digit := reader.digit(digits[i]);
      if digit.None? {
        return None;
      }
      FractionBefore(reader, digits, i);
      sum := (sum + digit.value * UNITY_TWICE) / 10;
    }
    assert digits[0..] == digits;
    a := Some(sum);
  }

  lemma FractionBefore(reader: Reader, digits: string, i: nat)
    requires i < |digits| && reader.digit(digits[i]).Some? && reader.digit(digits[i]).value <= 9
    requires reader.Reads(digits[i + 1..])
    ensures reader.Reads(digits[i..])
    ensures TwiceFraction(reader.DigitsOf(digits[i..]))
         == (TwiceFraction(reader.DigitsOf(digits[i + 1..])) + reader.digit(digits[i]).value * UNITY_TWICE) / 10
  {
    var s, rest := digits[i..], digits[i + 1..];
    assert s[0] == digits[i] && s[1..] == rest;
    assert forall k :: 0 < k < |s| ==> s[k] == rest[k - 1];
    var d := reader.DigitsOf(s);
    assert d[0] == reader.DigitFor(s[0]) && d[1..] == reader.DigitsOf(rest);
  }

  // ----- divide_scaled -----

  /** Division of a signed integer that truncates toward zero. */
  function TruncatedDiv(r: int, p: int): int
    requires p > 0
  {
    if r >= 0 then r / p else -((-r) / p)
  }

  lemma TruncatedDivBounds(r: int, p: int)
    requires p > 0
    ensures var t := TruncatedDiv(r, p);
            if r >= 0 then 0 <= r - t * p < p else -p < r - t * p <= 0
  {
    if r >= 0 {
      DivBounds(r, p);
    } else {
      DivBounds(-r, p);
    }
  }

  /** `s` in units of 10 to the -`dd`. */
  function Scaled(s: nat, dd: nat): nat {
    if dd == 0 then s else 10 * Scaled(s, dd - 1)
  }

  lemma {:induction false} ScaledIsProduct(s: nat, dd: nat)
    ensures Scaled(s, dd) == s * Power(10, dd)
  {
    if dd == 0 {
      assert Power(10, 0) == 1;
    } else {
      ScaledIsProduct(s, dd - 1);
      TenTimes(s, Power(10, dd - 1));
    }
  }

  lemma TenTimes(s: nat, p: nat)
    ensures 10 * (s * p) == s * (10 * p)
  {
  }

  /** `out * p` is the multiple of `p` next to `v`: above it when `v` does not exceed `x`, below it when it does. */
  ghost predicate NextMultiple(out: int, p: int, v: int, x: int) {
    if v <= x then 0 <= out * p - v < p else -p < out * p - v <= 0
  }

  /**
   `scaled_out` for the quotient `q` of `s / m` with `dd` decimals, rounded half up: `q * m` in units
   of 10 to the -`dd`, rounded up when it does not exceed `s` and down when it does. So the result
   differs from that product by less than one unit.
   */
  method DivideScaledOut(s: nat, m: nat, dd: nat) returns (out: int)
    requires m > 0
    ensures NextMultiple(out, Power(10, dd), RoundHalfUp(Scaled(s, dd), m) * m, Scaled(s, dd))
  {
    var q: nat, r: nat := LongDivision(s, m, dd);
    RoundedQuotient(Scaled(s, dd), m, q, r);
    var signed: int := if 2 * r >= m then r - m else r;
    out := s - TruncatedDiv(signed, Power(10, dd));
    OutBounds(s, dd, signed, RoundHalfUp(Scaled(s, dd), m) * m);
  }

  method LongDivision(s: nat, m: nat, dd: nat) returns (q: nat, r: nat)
    requires m > 0
    ensures r < m && IsDivision(Scaled(s, dd), m, q, r)
  {
    q, r := DivMod(s, m);
    for n := 0 to dd
      invariant r < m && IsDivision(Scaled(s, n), m, q, r)
    {
      var digit: nat, rest: nat := DivMod(10 * r, m);
      LongDivisionStep(q, r, digit, rest, m, Scaled(s, n));
      q, r := 10 * q + digit, rest;
    }
  }

  method DivMod(x: nat, m: nat) returns (q: nat, r: nat)
    requires m > 0
    ensures r < m && IsDivision(x, m, q, r)
  {
    q, r := x / m, x % m;
  }

  ghost predicate IsDivision(x: int, m: int, q: int, r: int) {
    q * m + r == x
  }

  lemma OutBounds(s: nat, dd: nat, r: int, v: int)
    requires r == Scaled(s, dd) - v
    ensures NextMultiple(s - TruncatedDiv(r, Power(10, dd)), Power(10, dd), v, Scaled(s, dd))
  {
    var p := Power(10, dd);
    var t := TruncatedDiv(r, p);
    TruncatedDivBounds(r, p);
    ScaledIsProduct(s, dd);
    Distribute(s, t, p);
  }

  lemma Distribute(s: int, t: int, p: int)
    ensures (s - t) * p == s * p - t * p
  {
  }

  lemma LongDivisionStep(q: nat, r: nat, digit: nat, rest: nat, m: nat, x: int)
    requires IsDivision(x, m, q, r) && IsDivision(10 * r, m, digit, rest)
    ensures IsDivision(10 * x, m, 10 * q + digit, rest)
  {
    assert (10 * q + digit) * m == 10 * (q * m) + digit * m;
  }

  lemma RoundedQuotient(x: nat, m: nat, q: nat, r: nat)
    requires m > 0 && r < m && IsDivision(x, m, q, r)
    ensures var n := if 2 * r >= m then q + 1 else q;
            RoundHalfUp(x, m) == n && x - n * m == if 2 * r >= m then r - m else r
  {
    var n := if 2 * r >= m then q + 1 else q;
    assert n * m == if 2 * r >= m then q * m + m else q * m;
    assert 2 * m * n == 2 * (n * m);
    assert 2 * m * (n + 1) == 2 * (n * m) + 2 * m;
    DivUnique(2 * x + m, 2 * m, n);
  }
}

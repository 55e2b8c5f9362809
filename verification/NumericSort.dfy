/**
 Sort values of integer fields (`integer_sort_value`, crates/tex-biber/src/collation_numeric.rs): Roman
 numerals, lone numeric characters, and decimal digits of any script, accumulated exactly as long as 64
 bits hold the value.

 The tables of numeric characters and of upper case are parameters. The text of a fraction and of a value
 rounded beyond 64 bits is not part of this model.
 */
module NumericSort {
  import opened Wrappers
  import opened RomanNumerals

  const WORD_LIMIT := 0x1_0000_0000_0000_0000

  /** What a numeric character stands for. */
  datatype Number = Whole(value: nat) | Fraction

  /** The numeric characters; a decimal digit is one of ten in a row. */
  datatype Digits = Digits(number: nat -> Option<Number>, decimal: nat -> bool) {
    ghost predicate Valid() {
      forall c: nat :: decimal(c) ==>
        number(c).Some? && number(c).value.Whole? && number(c).value.value <= 9 && number(c).value.value <= c
    }
  }

  datatype SortValue = Unchanged | Exact(value: nat) | Rounded

  predicate DigitsFrom(zero: nat, text: seq<nat>) {
    forall i :: 0 <= i < |text| ==> zero <= text[i] <= zero + 9
  }

  /** The number that digits denote, the last being the lowest. */
  function DigitsTotal(zero: nat, text: seq<nat>): nat
    requires DigitsFrom(zero, text)
  {
    if text == [] then 0 else 10 * DigitsTotal(zero, text[..|text| - 1]) + (text[|text| - 1] - zero)
  }

  /** The digit of the ten from `zero` on. */
  function DigitOf(zero: nat, c: nat): Option<nat> {
    if zero <= c <= zero + 9 then Some(c - zero) else None
  }

  function Checked(n: nat): Option<nat> {
    if n < WORD_LIMIT then Some(n) else None
  }

  /** What a text of digits of one script is worth; another text is left as it is. */
  function DigitsValue(zero: nat, text: seq<nat>): SortValue {
    if !DigitsFrom(zero, text) then Unchanged
    else if DigitsTotal(zero, text) < WORD_LIMIT then Exact(DigitsTotal(zero, text))
    else Rounded
  }

  /**
   The sort value of a text, given its upper-case form. A Roman numeral gives its number, unless that is
   switched off; a lone numeric character gives what it stands for; digits of one script give their number,
   exactly if and only if it is below 2 to the 64; any other text is left as it is.
   */
  method IntegerSortValue(digits: Digits, text: seq<nat>, upper: string, noRoman: bool) returns (r: SortValue)
    requires digits.Valid()
    ensures !noRoman && IsRoman(upper) ==> r == Exact(Value(upper))
    ensures noRoman || !IsRoman(upper) ==>
              r == if text == [] || digits.number(text[0]).None? then Unchanged
                   else
                     var first := digits.number(text[0]).value;
                     if |text| == 1 then if first.Whole? then Exact(first.value) else Rounded
                     else if !digits.decimal(text[0]) then Unchanged
                     else DigitsValue(text[0] - first.value, text)
  {
    if !noRoman {
      var roman := Roman(upper);
      if roman.Some? {
        return Exact(roman.value);
      }
    }
    if text == [] || digits.number(text[0]).None? {
      return Unchanged;
    }
    var first := digits.number(text[0]).value;
    if |text| == 1 {
      return if first.Whole? then Exact(first.value) else Rounded;
    }
    if !digits.decimal(text[0]) {
      return Unchanged;
    }
    r := ReadDigits(text, first.value);
  }

  /** The loop over the digits; the first has the value given. */
  method ReadDigits(text: seq<nat>, first: nat) returns (r: SortValue)
    requires text != [] && first <= 9 && first <= text[0]
    ensures r == DigitsValue(text[0] - first, text)
  {
    var zero := text[0] - first;
    var exact := Some(first);
    assert text[..1][..0] == [];
    for n := 1 to |text|
      invariant DigitsFrom(zero, text[..n])
      invariant exact == Checked(DigitsTotal(zero, text[..n]))
    {
      var digit := DigitOf(zero, text[n]);
      if digit == None {
        assert !(zero <= text[n] <= zero + 9);
        return Unchanged;
      }
      assert text[..n + 1][..n] == text[..n];
      if exact.Some? {
        var scaled := Checked(exact.value * 10);
        exact := if scaled.Some? then Checked(scaled.value + digit.value) else None;
      }
    }
    assert text[..|text|] == text;
    r := match exact case Some(value) => Exact(value) case None => Rounded;
  }
}

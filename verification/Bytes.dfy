/** Bytes, slices that saturate, and decimal numerals. */
module Bytes {
  type byte = x: int | 0 <= x < 256

  /** The first `n` elements, or all of them: Python's `s[:n]` for `n >= 0`. */
  function First<T>(s: seq<T>, n: int): (r: seq<T>)
    ensures |r| == if n <= 0 then 0 else if n >= |s| then |s| else n
    ensures r <= s
  {
    if n <= 0 then [] else if n >= |s| then s else s[..n]
  }

  /** The last `n` elements, or all of them: Python's `s[-n:]` for `n > 0`. */
  function Last<T>(s: seq<T>, n: int): (r: seq<T>)
    ensures |r| == if n <= 0 then 0 else if n >= |s| then |s| else n
    ensures r == s[|s| - |r|..]
  {
    if n <= 0 then [] else if n >= |s| then s else s[|s| - n..]
  }

  function Flatten<T>(parts: seq<seq<T>>): seq<T> {
    if parts == [] then [] else parts[0] + Flatten(parts[1..])
  }

  lemma {:induction false} FlattenAppend<T>(a: seq<seq<T>>, b: seq<seq<T>>)
    ensures Flatten(a + b) == Flatten(a) + Flatten(b)
  {
    if a == [] {
      assert a + b == b;
    } else {
      assert (a + b)[1..] == a[1..] + b;
      FlattenAppend(a[1..], b);
    }
  }

  lemma FlattenOne<T>(p: seq<T>)
    ensures Flatten([p]) == p
  {
    assert [p][1..] == [];
  }

  function Repeat<T>(x: T, n: nat): (r: seq<T>)
    ensures |r| == n && forall i :: 0 <= i < n ==> r[i] == x
  {
    seq(n, _ => x)
  }

  // ----- Decimal numerals -----

  function Power(b: nat, e: nat): (p: nat)
    ensures b > 0 ==> p > 0
  {
    if e == 0 then 1 else b * Power(b, e - 1)
  }

  function Digit(n: nat): (c: char)
    requires n < 10
    ensures '0' <= c <= '9'
  {
    (n + '0' as int) as char
  }

  predicate IsDigit(c: char) {
    '0' <= c <= '9'
  }

  function DigitValue(c: char): (n: nat)
    requires IsDigit(c)
    ensures n < 10
  {
    c as int - '0' as int
  }

  predicate AllDigits(s: string) {
    forall c :: c in s ==> IsDigit(c)
  }

  /** The decimal numeral of `n`, without leading zeros. */
  function Numeral(n: nat): (s: string)
    ensures s != [] && AllDigits(s)
  {
    if n < 10 then [Digit(n)] else Numeral(n / 10) + [Digit(n % 10)]
  }

  /** The number a string of digits denotes. */
  function NumeralValue(s: string): nat
    requires AllDigits(s)
  {
    if s == [] then 0 else NumeralValue(s[..|s| - 1]) * 10 + DigitValue(s[|s| - 1])
  }

  /** A numeral has at most `k` digits exactly when its number is below 10 to the `k`. */
  lemma {:induction false} NumeralLength(n: nat, k: nat)
    requires k > 0
    ensures |Numeral(n)| <= k <==> n < Power(10, k)
    decreases n
  {
    assert Power(10, k) == 10 * Power(10, k - 1);
    if n >= 10 {
      if k == 1 {
        assert Power(10, 0) == 1;
      } else {
        NumeralLength(n / 10, k - 1);
      }
    } else {
      assert Power(10, k - 1) >= 1;
    }
  }

  predicate IsAscii(s: string) {
    forall c :: c in s ==> c as int < 128
  }

  function CharByte(s: string, i: nat): (b: byte)
    requires IsAscii(s) && i < |s|
    ensures b == s[i] as int
  {
    assert s[i] in s;
    s[i] as int
  }

  function Ascii(s: string): (b: seq<byte>)
    requires IsAscii(s)
    ensures |b| == |s|
    ensures forall i :: 0 <= i < |s| ==> b[i] == s[i] as int
  {
    seq<byte>(|s|, i requires 0 <= i < |s| && IsAscii(s) => CharByte(s, i))
  }

  function NumeralBytes(n: nat): (m: seq<byte>)
    ensures |m| == |Numeral(n)|
  {
    Ascii(Numeral(n))
  }
}

/** Fixed-width integers in either byte order, and where the parts of a concatenation lie. */
module Words {
  import opened Bytes

  datatype Order = Little | Big

  datatype Width = W8 | W16 | W32 | W64 {
    function Size(): (n: nat)
      ensures n > 0
    {
      match this
      case W8 => 1
      case W16 => 2
      case W32 => 4
      case W64 => 8
    }

    /** The numbers below it are the ones that fit. */
    function Limit(): nat {
      match this
      case W8 => 0x100
      case W16 => 0x1_0000
      case W32 => 0x1_0000_0000
      case W64 => 0x1_0000_0000_0000_0000
    }
  }

  function LittleEndian(v: nat, n: nat): (b: seq<byte>)
    ensures |b| == n
  {
    if n == 0 then [] else [v % 256] + LittleEndian(v / 256, n - 1)
  }

  function LittleValue(b: seq<byte>): nat {
    if b == [] then 0 else b[0] + 256 * LittleValue(b[1..])
  }

  function BigEndian(v: nat, n: nat): (b: seq<byte>)
    ensures |b| == n
  {
    if n == 0 then [] else BigEndian(v / 256, n - 1) + [v % 256]
  }

  function BigValue(b: seq<byte>): nat {
    if b == [] then 0 else 256 * BigValue(b[..|b| - 1]) + b[|b| - 1]
  }

  function Encode(order: Order, v: nat, w: Width): (b: seq<byte>)
    ensures |b| == w.Size()
  {
    if order == Little then LittleEndian(v, w.Size()) else BigEndian(v, w.Size())
  }

  function Decode(order: Order, b: seq<byte>): nat {
    if order == Little then LittleValue(b) else BigValue(b)
  }

  lemma {:induction false} LittleRoundTrip(v: nat, n: nat)
    requires v < Power(256, n)
    ensures LittleValue(LittleEndian(v, n)) == v
    decreases n
  {
    if n > 0 {
      assert Power(256, n) == 256 * Power(256, n - 1);
      LittleRoundTrip(v / 256, n - 1);
      assert LittleEndian(v, n)[1..] == LittleEndian(v / 256, n - 1);
    }
  }

  lemma {:induction false} BigRoundTrip(v: nat, n: nat)
    requires v < Power(256, n)
    ensures BigValue(BigEndian(v, n)) == v
    decreases n
  {
    if n > 0 {
      assert Power(256, n) == 256 * Power(256, n - 1);
      BigRoundTrip(v / 256, n - 1);
      assert BigEndian(v, n)[..n - 1] == BigEndian(v / 256, n - 1);
    }
  }

  lemma PowerDouble(b: nat, e: nat)
    ensures Power(b, e + 2) == b * (b * Power(b, e))
  {
    assert Power(b, e + 2) == b * Power(b, e + 1);
  }

  lemma LimitIsPower(w: Width)
    ensures Power(256, w.Size()) == w.Limit()
  {
    assert Power(256, 0) == 1 && Power(256, 1) == 0x100;
    PowerDouble(256, 0);
    PowerDouble(256, 2);
    PowerDouble(256, 4);
    PowerDouble(256, 6);
  }

  /** A number that fits its field is read back, in either byte order. */
  lemma EncodeDecode(order: Order, v: nat, w: Width)
    requires v < w.Limit()
    ensures Decode(order, Encode(order, v, w)) == v
  {
    LimitIsPower(w);
    LittleRoundTrip(v, w.Size());
    BigRoundTrip(v, w.Size());
  }

  lemma {:induction false} ZerosValue(order: Order, b: seq<byte>)
    requires forall i :: 0 <= i < |b| ==> b[i] == 0
    ensures Decode(order, b) == 0
    decreases |b|
  {
    if b != [] {
      ZerosValue(order, if order == Little then b[1..] else b[..|b| - 1]);
    }
  }

  /** The number in the field of width `w` at `at`. */
  function NumberAt(order: Order, w: Width, s: seq<byte>, at: nat): nat
    requires at + w.Size() <= |s|
  {
    Decode(order, s[at..at + w.Size()])
  }

  // ----- Concatenations -----

  ghost function Offset<T>(cells: seq<seq<T>>, i: nat): nat
    requires i <= |cells|
  {
    if i == 0 then 0 else Offset(cells, i - 1) + |cells[i - 1]|
  }

  lemma {:induction false} OffsetTail<T>(cells: seq<seq<T>>, i: nat)
    requires 0 < i <= |cells|
    ensures Offset(cells, i) == |cells[0]| + Offset(cells[1..], i - 1)
  {
    if i > 1 {
      OffsetTail(cells, i - 1);
      assert cells[1..][i - 2] == cells[i - 1];
    }
  }

  /** `part` lies at `at` in `s`. */
  ghost predicate LiesAt<T>(s: seq<T>, at: nat, part: seq<T>) {
    at + |part| <= |s| && s[at..at + |part|] == part
  }

  lemma {:induction false} FlattenLength<T>(cells: seq<seq<T>>)
    ensures |Flatten(cells)| == Offset(cells, |cells|)
  {
    if cells != [] {
      OffsetTail(cells, |cells|);
      FlattenLength(cells[1..]);
    }
  }

  lemma {:induction false} OffsetPrefix<T>(cells: seq<seq<T>>, n: nat, i: nat)
    requires i <= n <= |cells|
    ensures Offset(cells[..n], i) == Offset(cells, i)
  {
    if i > 0 {
      OffsetPrefix(cells, n, i - 1);
    }
  }

  lemma {:induction false} EvenOffset<T>(cells: seq<seq<T>>, size: nat, i: nat)
    requires i <= |cells| && forall k :: 0 <= k < |cells| ==> |cells[k]| == size
    ensures Offset(cells, i) == i * size
  {
    if i > 0 {
      EvenOffset(cells, size, i - 1);
      assert i * size == (i - 1) * size + size;
    }
  }

  lemma {:induction false} CellLies<T>(cells: seq<seq<T>>, i: nat)
    requires i < |cells|
    ensures LiesAt(Flatten(cells), Offset(cells, i), cells[i])
    decreases i
  {
    if i > 0 {
      OffsetTail(cells, i);
      CellLies(cells[1..], i - 1);
      LiesShifted(cells[0], Flatten(cells[1..]), Offset(cells[1..], i - 1), cells[1..][i - 1]);
    }
  }

  lemma LiesShifted<T>(a: seq<T>, s: seq<T>, at: nat, part: seq<T>)
    requires LiesAt(s, at, part)
    ensures LiesAt(a + s, |a| + at, part)
  {
    assert (a + s)[|a| + at..|a| + at + |part|] == s[at..at + |part|];
  }

  /** The field in cell `i` is read back at the cell's offset. */
  lemma FieldReads(order: Order, cells: seq<seq<byte>>, i: nat, v: nat, w: Width)
    requires i < |cells| && cells[i] == Encode(order, v, w) && v < w.Limit()
    ensures Offset(cells, i) + w.Size() <= |Flatten(cells)|
    ensures NumberAt(order, w, Flatten(cells), Offset(cells, i)) == v
  {
    CellLies(cells, i);
    EncodeDecode(order, v, w);
  }
}

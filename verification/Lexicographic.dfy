/** The order of slices: by the first difference, a proper prefix first. */
module Lexicographic {
  datatype Ordering = Less | Equal | Greater {
    function Reverse(): Ordering {
      match this
      case Less => Greater
      case Equal => Equal
      case Greater => Less
    }

    /** This unless equal, and then `next`. */
    function Then(next: Ordering): Ordering {
      if this == Equal then next else this
    }
  }

  function CompareNat(a: nat, b: nat): Ordering {
    if a < b then Less else if a == b then Equal else Greater
  }

  function Compare(a: seq<nat>, b: seq<nat>): Ordering {
    if a == [] then if b == [] then Equal else Less
    else if b == [] then Greater
    else CompareNat(a[0], b[0]).Then(Compare(a[1..], b[1..]))
  }

  lemma {:induction false} CompareEqual(a: seq<nat>, b: seq<nat>)
    ensures Compare(a, b) == Equal <==> a == b
    decreases |a|
  {
    if a != [] && b != [] {
      CompareEqual(a[1..], b[1..]);
      assert a == [a[0]] + a[1..] && b == [b[0]] + b[1..];
    }
  }

  lemma {:induction false} CompareReverse(a: seq<nat>, b: seq<nat>)
    ensures Compare(b, a) == Compare(a, b).Reverse()
    decreases |a|
  {
    if a != [] && b != [] {
      CompareReverse(a[1..], b[1..]);
    }
  }

  lemma {:induction false} CompareTransitive(a: seq<nat>, b: seq<nat>, c: seq<nat>)
    requires Compare(a, b) != Greater && Compare(b, c) != Greater
    ensures Compare(a, c) != Greater
    ensures Compare(a, b) == Less || Compare(b, c) == Less ==> Compare(a, c) == Less
    decreases |a|
  {
    if a != [] && b != [] && c != [] && a[0] == b[0] == c[0] {
      CompareTransitive(a[1..], b[1..], c[1..]);
    }
  }

  lemma {:induction false} CommonPrefix(p: seq<nat>, a: seq<nat>, b: seq<nat>)
    ensures Compare(p + a, p + b) == Compare(a, b)
    decreases |p|
  {
    if p == [] {
      assert p + a == a && p + b == b;
    } else {
      assert (p + a)[1..] == p[1..] + a && (p + b)[1..] == p[1..] + b;
      CommonPrefix(p[1..], a, b);
    }
  }

  /** At `k` the two first differ, `a` being smaller there or at its end. */
  ghost predicate SmallerAt(a: seq<nat>, b: seq<nat>, k: nat) {
    k <= |a| && k < |b| && a[..k] == b[..k] && (k == |a| || a[k] < b[k])
  }

  /** The smaller one is smaller at the first difference, or a proper prefix. */
  lemma {:induction false} CompareExact(a: seq<nat>, b: seq<nat>)
    ensures Compare(a, b) == Less <==> exists k: nat :: SmallerAt(a, b, k)
    decreases |a|
  {
    if a == [] || b == [] {
      if b != [] {
        assert SmallerAt(a, b, 0);
      }
    } else {
      CompareExact(a[1..], b[1..]);
      if a[0] < b[0] {
        assert SmallerAt(a, b, 0);
      } else if a[0] == b[0] {
        if k: nat :| SmallerAt(a[1..], b[1..], k) {
          assert a[..k + 1] == [a[0]] + a[1..][..k] && b[..k + 1] == [b[0]] + b[1..][..k];
          assert SmallerAt(a, b, k + 1);
        }
        if k: nat :| SmallerAt(a, b, k) {
          assert k > 0;
          assert a[1..][..k - 1] == a[..k][1..] && b[1..][..k - 1] == b[..k][1..];
          assert SmallerAt(a[1..], b[1..], k - 1);
        }
      } else if k: nat :| SmallerAt(a, b, k) {
        if k > 0 {
          assert a[..k][0] == b[..k][0];
        }
      }
    }
  }
}

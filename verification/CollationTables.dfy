/**
 Collation tables, sorted by sequence, and the searches in them (`find`, `max_len` and `prefix` of
 crates/tex-biber/src/collation.rs).
 */
module CollationTables {
  import opened Wrappers
  import opened Lexicographic
  import opened SortKeys

  datatype Row = Row(sequence: seq<nat>, elements: seq<Element>)

  type Table = seq<Row>

  ghost predicate Sorted(t: Table) {
    && (forall i :: 0 <= i < |t| ==> t[i].sequence != [])
    && forall i, j :: 0 <= i < j < |t| ==> Compare(t[i].sequence, t[j].sequence) == Less
  }

  /** The elements of the row of `s`. */
  function Lookup(t: Table, s: seq<nat>): Option<seq<Element>> {
    if t == [] then None
    else if t[0].sequence == s then Some(t[0].elements)
    else Lookup(t[1..], s)
  }

  /** The length of the longest row that starts with `cp`, or 1. */
  function MaxLen(t: Table, cp: nat): (n: nat)
    ensures n >= 1
  {
    if t == [] then 1
    else
      var rest := MaxLen(t[1..], cp);
      if t[0].sequence != [] && t[0].sequence[0] == cp && |t[0].sequence| > rest then |t[0].sequence| else rest
  }

  predicate Extends(row: seq<nat>, s: seq<nat>) {
    |row| > |s| && row[..|s|] == s
  }

  lemma {:induction false} LookupNone(t: Table, s: seq<nat>)
    ensures Lookup(t, s) == None <==> forall i :: 0 <= i < |t| ==> t[i].sequence != s
  {
    if t != [] {
      LookupNone(t[1..], s);
      assert forall i :: 0 < i < |t| ==> t[i] == t[1..][i - 1];
    }
  }

  lemma {:induction false} LookupRow(t: Table, i: nat)
    requires i < |t| && forall j :: 0 <= j < i ==> t[j].sequence != t[i].sequence
    ensures Lookup(t, t[i].sequence) == Some(t[i].elements)
  {
    if i > 0 {
      LookupRow(t[1..], i - 1);
    }
  }

  /** No row that starts with `cp` is longer, and unless it is 1 some row is that long. */
  lemma {:induction false} MaxLenExact(t: Table, cp: nat)
    ensures forall i :: 0 <= i < |t| && t[i].sequence != [] && t[i].sequence[0] == cp ==> |t[i].sequence| <= MaxLen(t, cp)
    ensures MaxLen(t, cp) > 1 ==>
              exists i :: 0 <= i < |t| && t[i].sequence != [] && t[i].sequence[0] == cp && |t[i].sequence| == MaxLen(t, cp)
  {
    if t != [] {
      MaxLenExact(t[1..], cp);
      assert forall i :: 0 < i < |t| ==> t[i] == t[1..][i - 1];
      if MaxLen(t, cp) > 1 && !(t[0].sequence != [] && t[0].sequence[0] == cp && |t[0].sequence| == MaxLen(t, cp)) {
        var i :| 0 <= i < |t[1..]| && t[1..][i].sequence != [] && t[1..][i].sequence[0] == cp
                 && |t[1..][i].sequence| == MaxLen(t[1..], cp);
        assert t[i + 1].sequence == t[1..][i].sequence;
      }
    }
  }

  // ----- Binary search -----

  /** The first row not below `s`. */
  method PartitionPoint(t: Table, s: seq<nat>) returns (k: nat)
    requires Sorted(t)
    ensures k <= |t|
    ensures forall i :: 0 <= i < k ==> Compare(t[i].sequence, s) == Less
    ensures forall i :: k <= i < |t| ==> Compare(t[i].sequence, s) != Less
  {
    var lo, hi := 0, |t|;
    while lo < hi
      invariant 0 <= lo <= hi <= |t|
      invariant forall i :: 0 <= i < lo ==> Compare(t[i].sequence, s) == Less
      invariant forall i :: hi <= i < |t| ==> Compare(t[i].sequence, s) != Less
    {
      var mid := lo + (hi - lo) / 2;
      if Compare(t[mid].sequence, s) == Less {
        forall i | 0 <= i <= mid ensures Compare(t[i].sequence, s) == Less {
          if i < mid {
            CompareTransitive(t[i].sequence, t[mid].sequence, s);
          }
        }
        lo := mid + 1;
      } else {
        forall i | mid <= i < |t| ensures Compare(t[i].sequence, s) != Less {
          if mid < i {
            StaysAbove(s, t[mid].sequence, t[i].sequence);
          }
        }
        hi := mid;
      }
    }
    k := lo;
  }

  lemma StaysAbove(s: seq<nat>, a: seq<nat>, b: seq<nat>)
    requires Compare(a, s) != Less && Compare(a, b) == Less
    ensures Compare(b, s) == Greater
  {
    CompareReverse(a, s);
    CompareTransitive(s, a, b);
    CompareReverse(s, b);
  }

  lemma StaysApart(s: seq<nat>, a: seq<nat>, b: seq<nat>)
    requires Compare(a, s) != Less && Compare(a, b) == Less
    ensures b != s
  {
    StaysAbove(s, a, b);
    CompareEqual(b, s);
  }

  method Search(t: Table, s: seq<nat>) returns (r: Option<seq<Element>>)
    requires Sorted(t)
    ensures r == Lookup(t, s)
  {
    var k := PartitionPoint(t, s);
    LookupNone(t, s);
    CompareEqual(s, s);
    if k < |t| && t[k].sequence == s {
      forall j | 0 <= j < k ensures t[j].sequence != s {
        CompareEqual(t[j].sequence, s);
      }
      LookupRow(t, k);
      r := Some(t[k].elements);
    } else {
      forall i | 0 <= i < |t| ensures t[i].sequence != s {
        if k < i {
          StaysApart(s, t[k].sequence, t[i].sequence);
        }
      }
      r := None;
    }
  }

  lemma BelowFirst(a: seq<nat>, cp: nat)
    requires a != []
    ensures Compare(a, [cp]) == Less <==> a[0] < cp
  {
    assert [cp][1..] == [];
  }

  lemma FirstsOrdered(a: seq<nat>, b: seq<nat>)
    requires a != [] && b != [] && Compare(a, b) == Less
    ensures a[0] <= b[0]
  {
  }

  /** The longest row of the run that starts with `cp`. */
  method LongestRow(t: Table, cp: nat) returns (n: nat)
    requires Sorted(t)
    ensures n == MaxLen(t, cp)
  {
    var k := PartitionPoint(t, [cp]);
    n := 1;
    forall i | 0 <= i < |t| ensures t[i].sequence[0] < cp <==> i < k {
      BelowFirst(t[i].sequence, cp);
    }
    ghost var start := k;
    while k < |t| && t[k].sequence[0] == cp
      invariant start <= k <= |t| && n >= 1
      invariant forall i :: start <= i < k ==> t[i].sequence[0] == cp && |t[i].sequence| <= n
      invariant n > 1 ==> exists i :: start <= i < k && |t[i].sequence| == n
      decreases |t| - k
    {
      if |t[k].sequence| > n {
        n := |t[k].sequence|;
      }
      k := k + 1;
    }
    forall i | k <= i < |t| ensures t[i].sequence[0] > cp {
      if k < i {
        FirstsOrdered(t[k].sequence, t[i].sequence);
      }
    }
    MaxLenExact(t, cp);
  }

  /**
   Whether the first row not below `s` extends it. That is so exactly when some row extends `s` and no
   row is `s` itself: a row `s` hides the rows that extend it.
   */
  method HasPrefix(t: Table, s: seq<nat>) returns (r: bool)
    requires Sorted(t)
    ensures r <==> Prefixes(t, s)
  {
    var k := PartitionPoint(t, s);
    LookupNone(t, s);
    r := k < |t| && Extends(t[k].sequence, s);
    CompareEqual(s, s);
    if r {
      forall i | 0 <= i < |t| ensures t[i].sequence != s {
        if k < i {
          StaysApart(s, t[k].sequence, t[i].sequence);
        }
      }
    } else if Lookup(t, s) == None {
      forall i | 0 <= i < |t| ensures !Extends(t[i].sequence, s) {
        if Extends(t[i].sequence, s) {
          ExtensionAbove(t[i].sequence, s);
          if k < i {
            Between(s, t[k].sequence, t[i].sequence);
          }
        }
      }
    }
  }

  predicate Prefixes(t: Table, s: seq<nat>) {
    Lookup(t, s) == None && Extended(t, s)
  }

  predicate Extended(t: Table, s: seq<nat>) {
    exists i :: 0 <= i < |t| && Extends(t[i].sequence, s)
  }

  /** A sorted table in which a row hides the row that extends it. */
  lemma RowHides()
    ensures var t := [Row([1], []), Row([1, 2], [])];
            Sorted(t) && Extended(t, [1]) && !Prefixes(t, [1])
  {
    var t := [Row([1], []), Row([1, 2], [])];
    assert Compare([1], [1, 2]) == Compare([1][1..], [1, 2][1..]);
    assert Extends(t[1].sequence, [1]);
    LookupRow(t, 0);
  }

  lemma ExtensionAbove(row: seq<nat>, s: seq<nat>)
    requires Extends(row, s)
    ensures Compare(row, s) == Greater
  {
    assert row == s + row[|s|..] && s == s + [];
    CommonPrefix(s, row[|s|..], []);
  }

  /** What lies between `s` and an extension of `s` is `s` or an extension. */
  lemma {:induction false} Between(s: seq<nat>, a: seq<nat>, b: seq<nat>)
    requires Extends(b, s) && Compare(a, s) != Less && Compare(a, b) == Less
    ensures a == s || Extends(a, s)
    decreases |s|
  {
    if s != [] {
      assert b[..|s|][0] == s[0];
      assert a[0] == s[0];
      assert b[1..][..|s| - 1] == b[..|s|][1..];
      Between(s[1..], a[1..], b[1..]);
      assert a == [a[0]] + a[1..] && s == [s[0]] + s[1..];
    }
  }
}

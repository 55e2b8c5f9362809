/**
 The canonical ordering algorithm (section 3.11 of the Unicode Standard, D109) over an
 arbitrary element type with a combining class per element.

 `Reorder` is the insertion the source runs in place. Its partner is an order-free
 description: `Keep` projects a sequence on its starters and the marks of one class, and a
 canonically ordered sequence is determined by its projections.
 */
module CanonicalOrder {

  /** No mark stands directly after a mark of a higher class. */
  ghost predicate Ordered<T>(cls: T -> nat, s: seq<T>) {
    forall i :: 0 < i < |s| ==> cls(s[i]) == 0 || cls(s[i - 1]) <= cls(s[i])
  }

  /** Move `x`, appended to `p`, left past the marks of a higher class. */
  function Insert<T>(cls: T -> nat, p: seq<T>, x: T): (r: seq<T>)
    ensures |r| == |p| + 1
  {
    if p == [] || cls(x) == 0 || cls(p[|p| - 1]) <= cls(x) then p + [x]
    else Insert(cls, p[..|p| - 1], x) + [p[|p| - 1]]
  }

  function Reorder<T>(cls: T -> nat, s: seq<T>): (r: seq<T>)
    ensures |r| == |s|
  {
    if s == [] then []
    else Insert(cls, Reorder(cls, s[..|s| - 1]), s[|s| - 1])
  }

  lemma ReorderStep<T>(cls: T -> nat, s: seq<T>, i: nat)
    requires i < |s|
    ensures Reorder(cls, s[..i + 1]) == Insert(cls, Reorder(cls, s[..i]), s[i])
  {
    assert s[..i + 1][..i] == s[..i];
  }

  /** The starters of `s` and its marks of class `k`, in order. */
  ghost function Keep<T>(cls: T -> nat, s: seq<T>, k: nat): seq<T> {
    if s == [] then []
    else
      var x := s[|s| - 1];
      Keep(cls, s[..|s| - 1], k) + (if cls(x) == 0 || cls(x) == k then [x] else [])
  }

  /** `s` and `t` have the same starters and, class by class, the same marks in the same order. */
  ghost predicate SameProjections<T>(cls: T -> nat, s: seq<T>, t: seq<T>) {
    forall k: nat :: Keep(cls, s, k) == Keep(cls, t, k)
  }

  lemma {:induction false} KeepAppend<T>(cls: T -> nat, s: seq<T>, t: seq<T>, k: nat)
    ensures Keep(cls, s + t, k) == Keep(cls, s, k) + Keep(cls, t, k)
    decreases |t|
  {
    if t == [] {
      assert s + t == s;
    } else {
      var front := t[..|t| - 1];
      assert (s + t)[..|s + t| - 1] == s + front;
      KeepAppend(cls, s, front, k);
    }
  }

  lemma KeepSingleton<T>(cls: T -> nat, x: T, k: nat)
    ensures Keep(cls, [x], k) == if cls(x) == 0 || cls(x) == k then [x] else []
  {
    assert [x][..0] == [];
  }

  lemma KeepLast<T>(cls: T -> nat, s: seq<T>, k: nat)
    requires s != [] && (cls(s[|s| - 1]) == 0 || cls(s[|s| - 1]) == k)
    ensures Keep(cls, s, k) != [] && Keep(cls, s, k)[|Keep(cls, s, k)| - 1] == s[|s| - 1]
  {
  }

  /** Marks of other classes only vanish from the projection. */
  lemma {:induction false} KeepNone<T>(cls: T -> nat, s: seq<T>, k: nat)
    requires forall x :: x in s ==> cls(x) != 0 && cls(x) != k
    ensures Keep(cls, s, k) == []
  {
    if s != [] {
      KeepNone(cls, s[..|s| - 1], k);
    }
  }

  // ----- What reordering keeps -----

  lemma {:induction false} InsertKeeps<T>(cls: T -> nat, p: seq<T>, x: T, k: nat)
    ensures Keep(cls, Insert(cls, p, x), k) == Keep(cls, p + [x], k)
  {
    if !(p == [] || cls(x) == 0 || cls(p[|p| - 1]) <= cls(x)) {
      var front, last := p[..|p| - 1], p[|p| - 1];
      InsertKeeps(cls, front, x, k);
      assert p == front + [last];
      KeepAppend(cls, Insert(cls, front, x), [last], k);
      KeepAppend(cls, front, [x], k);
      KeepAppend(cls, front, [last], k);
      KeepAppend(cls, p, [x], k);
      KeepSingleton(cls, x, k);
      KeepSingleton(cls, last, k);
    }
  }

  /** Insertion leaves alone what stands before marks it passes. */
  lemma {:induction false} InsertSplit<T>(cls: T -> nat, p: seq<T>, x: T, j: nat)
    requires j <= |p|
    requires cls(x) != 0 && forall n :: j <= n < |p| ==> cls(p[n]) > cls(x)
    ensures Insert(cls, p, x) == Insert(cls, p[..j], x) + p[j..]
  {
    if j == |p| {
      assert p[..j] == p;
    } else {
      var front, last := p[..|p| - 1], p[|p| - 1];
      InsertSplit(cls, front, x, j);
      assert front[..j] == p[..j];
      assert p[j..] == front[j..] + [last];
      assert Insert(cls, p, x) == Insert(cls, front, x) + [last];
    }
  }

  /** Reordering keeps every projection: the starters, and each class's marks in their order (stability). */
  lemma {:induction false} ReorderKeeps<T>(cls: T -> nat, s: seq<T>, k: nat)
    ensures Keep(cls, Reorder(cls, s), k) == Keep(cls, s, k)
  {
    if s != [] {
      var front, x := s[..|s| - 1], s[|s| - 1];
      assert s == front + [x];
      ReorderKeeps(cls, front, k);
      InsertKeeps(cls, Reorder(cls, front), x, k);
      KeepAppend(cls, Reorder(cls, front), [x], k);
      KeepAppend(cls, front, [x], k);
    }
  }

  lemma {:induction false} InsertPermutes<T>(cls: T -> nat, p: seq<T>, x: T)
    ensures multiset(Insert(cls, p, x)) == multiset(p) + multiset{x}
  {
    if !(p == [] || cls(x) == 0 || cls(p[|p| - 1]) <= cls(x)) {
      InsertPermutes(cls, p[..|p| - 1], x);
      assert p == p[..|p| - 1] + [p[|p| - 1]];
    }
  }

  lemma {:induction false} ReorderPermutes<T>(cls: T -> nat, s: seq<T>)
    ensures multiset(Reorder(cls, s)) == multiset(s)
  {
    if s != [] {
      ReorderPermutes(cls, s[..|s| - 1]);
      InsertPermutes(cls, Reorder(cls, s[..|s| - 1]), s[|s| - 1]);
      assert s == s[..|s| - 1] + [s[|s| - 1]];
    }
  }

  lemma {:induction false} InsertLast<T>(cls: T -> nat, p: seq<T>, x: T)
    requires p != []
    ensures var last := Insert(cls, p, x)[|p|];
            || (last == x && (cls(x) == 0 || cls(p[|p| - 1]) <= cls(x)))
            || (last == p[|p| - 1] && 0 < cls(x) < cls(last))
  {
  }

  lemma {:induction false} InsertOrdered<T>(cls: T -> nat, p: seq<T>, x: T)
    requires Ordered(cls, p)
    ensures Ordered(cls, Insert(cls, p, x))
  {
    if !(p == [] || cls(x) == 0 || cls(p[|p| - 1]) <= cls(x)) {
      var front, last := p[..|p| - 1], p[|p| - 1];
      InsertOrdered(cls, front, x);
      if front != [] {
        InsertLast(cls, front, x);
      }
    }
  }

  lemma {:induction false} ReorderOrdered<T>(cls: T -> nat, s: seq<T>)
    ensures Ordered(cls, Reorder(cls, s))
  {
    if s != [] {
      ReorderOrdered(cls, s[..|s| - 1]);
      InsertOrdered(cls, Reorder(cls, s[..|s| - 1]), s[|s| - 1]);
    }
  }

  lemma {:induction false} InsertStarters<T>(cls: T -> nat, p: seq<T>, x: T, i: nat)
    requires i <= |p|
    ensures var y := if i < |p| then p[i] else x;
            (cls(Insert(cls, p, x)[i]) == 0 <==> cls(y) == 0) &&
            (cls(y) == 0 ==> Insert(cls, p, x)[i] == y)
  {
    if !(p == [] || cls(x) == 0 || cls(p[|p| - 1]) <= cls(x)) && i < |p| {
      InsertStarters(cls, p[..|p| - 1], x, i);
    }
  }

  /** A starter keeps its position, and no mark takes the position of a starter. */
  lemma {:induction false} StartersStay<T>(cls: T -> nat, s: seq<T>, i: nat)
    requires i < |s|
    ensures cls(Reorder(cls, s)[i]) == 0 <==> cls(s[i]) == 0
    ensures cls(s[i]) == 0 ==> Reorder(cls, s)[i] == s[i]
  {
    var front := s[..|s| - 1];
    InsertStarters(cls, Reorder(cls, front), s[|s| - 1], i);
    if i < |front| {
      StartersStay(cls, front, i);
    }
  }

  // ----- Uniqueness -----

  /** Once the last mark of an ordered sequence is below class `k`, the projection on `k` ends in a starter. */
  lemma {:induction false} KeepEndsInStarter<T>(cls: T -> nat, v: seq<T>, k: nat)
    requires Ordered(cls, v) && v != []
    requires 0 < cls(v[|v| - 1]) < k
    ensures Keep(cls, v, k) == [] || cls(Keep(cls, v, k)[|Keep(cls, v, k)| - 1]) == 0
  {
    var front := v[..|v| - 1];
    if front != [] && cls(front[|front| - 1]) != 0 {
      KeepEndsInStarter(cls, front, k);
    } else if front != [] {
      assert Keep(cls, front, k) == Keep(cls, front[..|front| - 1], k) + [front[|front| - 1]];
    }
  }

  lemma {:induction false} SameLast<T>(cls: T -> nat, u: seq<T>, v: seq<T>)
    requires Ordered(cls, u) && Ordered(cls, v)
    requires SameProjections(cls, u, v)
    requires u != [] && v != []
    requires cls(v[|v| - 1]) == 0 || cls(v[|v| - 1]) <= cls(u[|u| - 1]) || cls(u[|u| - 1]) == 0
    ensures u[|u| - 1] == v[|v| - 1]
  {
    var x, y := u[|u| - 1], v[|v| - 1];
    if cls(x) == 0 {
      KeepLast(cls, u, cls(y));
      KeepLast(cls, v, cls(y));
      assert Keep(cls, u, cls(y)) == Keep(cls, v, cls(y));
    } else {
      KeepLast(cls, u, cls(x));
      assert Keep(cls, u, cls(x)) == Keep(cls, v, cls(x));
      if 0 < cls(y) < cls(x) {
        KeepEndsInStarter(cls, v, cls(x));
      } else {
        KeepLast(cls, v, cls(x));
      }
    }
  }

  /** A canonically ordered sequence is determined by its projections. */
  lemma {:induction false} OrderedUnique<T>(cls: T -> nat, u: seq<T>, v: seq<T>)
    requires Ordered(cls, u) && Ordered(cls, v)
    requires SameProjections(cls, u, v)
    ensures u == v
    decreases |u|
  {
    if u == [] && v != [] {
      var k := cls(v[|v| - 1]);
      KeepLast(cls, v, k);
    } else if u != [] && v == [] {
      var k := cls(u[|u| - 1]);
      KeepLast(cls, u, k);
    } else if u != [] {
      var x, y := u[|u| - 1], v[|v| - 1];
      if cls(y) == 0 || cls(y) <= cls(x) || cls(x) == 0 {
        SameLast(cls, u, v);
      } else {
        SameLast(cls, v, u);
      }
      var u', v' := u[..|u| - 1], v[..|v| - 1];
      forall k: nat ensures Keep(cls, u', k) == Keep(cls, v', k) {
        assert Keep(cls, u, k) == Keep(cls, v, k);
        var tail := if cls(x) == 0 || cls(x) == k then [x] else [];
        assert Keep(cls, u', k) + tail == Keep(cls, v', k) + tail;
        assert (Keep(cls, u', k) + tail)[..|Keep(cls, u', k)|] == Keep(cls, u', k);
      }
      OrderedUnique(cls, u', v');
      assert u == u' + [x] && v == v' + [y];
    }
  }

  /** Reordering computes the one ordered sequence with the projections of the input. */
  lemma ReorderUnique<T>(cls: T -> nat, s: seq<T>, t: seq<T>)
    ensures t == Reorder(cls, s) <==> Ordered(cls, t) && SameProjections(cls, s, t)
  {
    ReorderOrdered(cls, s);
    forall k: nat ensures Keep(cls, Reorder(cls, s), k) == Keep(cls, s, k) {
      ReorderKeeps(cls, s, k);
    }
    if Ordered(cls, t) && SameProjections(cls, s, t) {
      forall k: nat ensures Keep(cls, Reorder(cls, s), k) == Keep(cls, t, k) {
        assert Keep(cls, s, k) == Keep(cls, t, k);
      }
      OrderedUnique(cls, Reorder(cls, s), t);
    }
  }

  lemma OrderedFixed<T>(cls: T -> nat, s: seq<T>)
    ensures Ordered(cls, s) <==> Reorder(cls, s) == s
  {
    ReorderUnique(cls, s, s);
  }

  lemma SameProjectionsReorder<T>(cls: T -> nat, s: seq<T>, t: seq<T>)
    requires SameProjections(cls, s, t)
    ensures Reorder(cls, s) == Reorder(cls, t)
  {
    ReorderUnique(cls, t, Reorder(cls, t));
    forall k: nat ensures Keep(cls, s, k) == Keep(cls, Reorder(cls, t), k) {
      assert Keep(cls, s, k) == Keep(cls, t, k);
      assert Keep(cls, t, k) == Keep(cls, Reorder(cls, t), k);
    }
    ReorderUnique(cls, s, Reorder(cls, t));
  }

  // ----- Canonical equivalence as swaps of adjacent marks -----

  /** `t` is `s` with the two marks at `i`, of different nonzero classes, exchanged. */
  ghost predicate Swapped<T>(cls: T -> nat, s: seq<T>, t: seq<T>, i: nat) {
    && i + 1 < |s|
    && cls(s[i]) != 0 && cls(s[i + 1]) != 0 && cls(s[i]) != cls(s[i + 1])
    && t == s[..i] + [s[i + 1], s[i]] + s[i + 2..]
  }

  ghost predicate Adjacent<T>(cls: T -> nat, s: seq<T>, t: seq<T>) {
    exists i: nat :: Swapped(cls, s, t, i)
  }

  ghost predicate IsPath<T>(cls: T -> nat, path: seq<seq<T>>) {
    && path != []
    && forall n :: 0 <= n < |path| - 1 ==> Adjacent(cls, path[n], path[n + 1])
  }

  /** A run of such swaps leads from `s` to `t`. */
  ghost predicate Equivalent<T(!new)>(cls: T -> nat, s: seq<T>, t: seq<T>) {
    exists path: seq<seq<T>> :: IsPath(cls, path) && path[0] == s && path[|path| - 1] == t
  }

  lemma SwapKeeps<T>(cls: T -> nat, s: seq<T>, t: seq<T>, i: nat, k: nat)
    requires Swapped(cls, s, t, i)
    ensures Keep(cls, s, k) == Keep(cls, t, k)
  {
    var a, x, y, b := s[..i], s[i], s[i + 1], s[i + 2..];
    assert s == a + ([x] + [y]) + b;
    assert t == a + ([y] + [x]) + b;
    KeepAppend(cls, a + ([x] + [y]), b, k);
    KeepAppend(cls, a, [x] + [y], k);
    KeepAppend(cls, [x], [y], k);
    KeepAppend(cls, a + ([y] + [x]), b, k);
    KeepAppend(cls, a, [y] + [x], k);
    KeepAppend(cls, [y], [x], k);
    KeepSingleton(cls, x, k);
    KeepSingleton(cls, y, k);
  }

  lemma AdjacentReorder<T>(cls: T -> nat, s: seq<T>, t: seq<T>)
    requires Adjacent(cls, s, t)
    ensures Reorder(cls, s) == Reorder(cls, t)
  {
    var i: nat :| Swapped(cls, s, t, i);
    forall k: nat ensures Keep(cls, s, k) == Keep(cls, t, k) {
      SwapKeeps(cls, s, t, i, k);
    }
    SameProjectionsReorder(cls, s, t);
  }

  lemma {:induction false} PathReorder<T>(cls: T -> nat, path: seq<seq<T>>)
    requires IsPath(cls, path)
    ensures Reorder(cls, path[0]) == Reorder(cls, path[|path| - 1])
    decreases |path|
  {
    if |path| > 1 {
      assert Adjacent(cls, path[0], path[0 + 1]);
      AdjacentReorder(cls, path[0], path[1]);
      var rest := path[1..];
      forall n | 0 <= n < |rest| - 1 ensures Adjacent(cls, rest[n], rest[n + 1]) {
        var m := n + 1;
        assert Adjacent(cls, path[m], path[m + 1]);
      }
      PathReorder(cls, rest);
    }
  }

  lemma EquivalentTrans<T(!new)>(cls: T -> nat, s: seq<T>, t: seq<T>, u: seq<T>)
    requires Equivalent(cls, s, t) && Equivalent(cls, t, u)
    ensures Equivalent(cls, s, u)
  {
    var p: seq<seq<T>> :| IsPath(cls, p) && p[0] == s && p[|p| - 1] == t;
    var q: seq<seq<T>> :| IsPath(cls, q) && q[0] == t && q[|q| - 1] == u;
    var path := p + q[1..];
    forall n | 0 <= n < |path| - 1 ensures Adjacent(cls, path[n], path[n + 1]) {
      if n < |p| - 1 {
        assert path[n] == p[n] && path[n + 1] == p[n + 1];
      } else {
        var m := n - (|p| - 1);
        assert path[n] == q[m] && path[n + 1] == q[m + 1];
      }
    }
    assert IsPath(cls, path) && path[0] == s && path[|path| - 1] == u;
  }

  lemma AdjacentSymmetric<T>(cls: T -> nat, s: seq<T>, t: seq<T>)
    requires Adjacent(cls, s, t)
    ensures Adjacent(cls, t, s)
  {
    var i: nat :| Swapped(cls, s, t, i);
    assert s == t[..i] + [t[i + 1], t[i]] + t[i + 2..];
    assert Swapped(cls, t, s, i);
  }

  lemma EquivalentSymmetric<T(!new)>(cls: T -> nat, s: seq<T>, t: seq<T>)
    requires Equivalent(cls, s, t)
    ensures Equivalent(cls, t, s)
  {
    var p: seq<seq<T>> :| IsPath(cls, p) && p[0] == s && p[|p| - 1] == t;
    var q := seq(|p|, n requires 0 <= n < |p| => p[|p| - 1 - n]);
    forall n | 0 <= n < |q| - 1 ensures Adjacent(cls, q[n], q[n + 1]) {
      var m := |p| - 2 - n;
      assert Adjacent(cls, p[m], p[m + 1]);
      AdjacentSymmetric(cls, p[m], p[m + 1]);
    }
    assert IsPath(cls, q) && q[0] == t && q[|q| - 1] == s;
  }

  lemma AdjacentAppend<T>(cls: T -> nat, s: seq<T>, t: seq<T>, x: T)
    requires Adjacent(cls, s, t)
    ensures Adjacent(cls, s + [x], t + [x])
  {
    var i: nat :| Swapped(cls, s, t, i);
    var s' := s + [x];
    assert t + [x] == s'[..i] + [s'[i + 1], s'[i]] + s'[i + 2..];
    assert Swapped(cls, s', t + [x], i);
  }

  lemma EquivalentAppend<T(!new)>(cls: T -> nat, s: seq<T>, t: seq<T>, x: T)
    requires Equivalent(cls, s, t)
    ensures Equivalent(cls, s + [x], t + [x])
  {
    var p: seq<seq<T>> :| IsPath(cls, p) && p[0] == s && p[|p| - 1] == t;
    var q := seq(|p|, n requires 0 <= n < |p| => p[n] + [x]);
    forall n | 0 <= n < |q| - 1 ensures Adjacent(cls, q[n], q[n + 1]) {
      AdjacentAppend(cls, p[n], p[n + 1], x);
    }
    assert IsPath(cls, q) && q[0] == s + [x] && q[|q| - 1] == t + [x];
  }

  lemma EquivalentReflexive<T(!new)>(cls: T -> nat, s: seq<T>)
    ensures Equivalent(cls, s, s)
  {
    var p := [s];
    assert IsPath(cls, p) && p[0] == s && p[|p| - 1] == s;
  }

  lemma {:induction false} InsertEquivalent<T(!new)>(cls: T -> nat, p: seq<T>, x: T)
    ensures Equivalent(cls, p + [x], Insert(cls, p, x))
  {
    EquivalentReflexive(cls, p + [x]);
    if !(p == [] || cls(x) == 0 || cls(p[|p| - 1]) <= cls(x)) {
      var front, last := p[..|p| - 1], p[|p| - 1];
      InsertEquivalent(cls, front, x);
      EquivalentAppend(cls, front + [x], Insert(cls, front, x), last);
      var s, t := p + [x], front + [x] + [last];
      assert t == s[..|front|] + [s[|front| + 1], s[|front|]] + s[|front| + 2..];
      assert Swapped(cls, s, t, |front|);
      var path := [s, t];
      assert Adjacent(cls, path[0], path[1]);
      assert IsPath(cls, path) && path[0] == s && path[|path| - 1] == t;
      EquivalentTrans(cls, s, t, Insert(cls, p, x));
    }
  }

  lemma {:induction false} ReorderEquivalent<T(!new)>(cls: T -> nat, s: seq<T>)
    ensures Equivalent(cls, s, Reorder(cls, s))
  {
    EquivalentReflexive(cls, s);
    if s != [] {
      var front, x := s[..|s| - 1], s[|s| - 1];
      assert s == front + [x];
      ReorderEquivalent(cls, front);
      EquivalentAppend(cls, front, Reorder(cls, front), x);
      InsertEquivalent(cls, Reorder(cls, front), x);
      EquivalentTrans(cls, s, Reorder(cls, front) + [x], Reorder(cls, s));
    }
  }

  /** Two sequences reorder to the same result exactly when swaps of adjacent marks relate them. */
  lemma EquivalentIffReorder<T(!new)>(cls: T -> nat, s: seq<T>, t: seq<T>)
    ensures Equivalent(cls, s, t) <==> Reorder(cls, s) == Reorder(cls, t)
  {
    if Equivalent(cls, s, t) {
      var p: seq<seq<T>> :| IsPath(cls, p) && p[0] == s && p[|p| - 1] == t;
      PathReorder(cls, p);
    }
    if Reorder(cls, s) == Reorder(cls, t) {
      ReorderEquivalent(cls, s);
      ReorderEquivalent(cls, t);
      EquivalentSymmetric(cls, t, Reorder(cls, t));
      EquivalentTrans(cls, s, Reorder(cls, s), t);
    }
  }
}

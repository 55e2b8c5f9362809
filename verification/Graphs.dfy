/** Graphs of references: nodes are numbered, and each has the set of those it refers to. */
module Graphs {
  type Graph = seq<set<nat>>

  /** The numbers below `n`. */
  ghost function Upto(n: nat): (s: set<nat>)
    ensures forall i: nat :: i in s <==> i < n
  {
    if n == 0 then {} else Upto(n - 1) + {n - 1}
  }

  ghost predicate Within(g: Graph) {
    forall i, j :: 0 <= i < |g| && j in g[i] ==> j < |g|
  }

  /** `rank` falls along every reference. */
  ghost predicate Falls(g: Graph, rank: seq<nat>) {
    |rank| == |g| && forall i, j :: 0 <= i < |g| && j in g[i] && j < |g| ==> rank[j] < rank[i]
  }

  /** Each node of the walk, from the first to the last, refers to the next. */
  ghost predicate IsWalk(g: Graph, w: seq<nat>) {
    |w| >= 2 && w[0] < |g| && w[1] < |g| && w[1] in g[w[0]] && (|w| > 2 ==> IsWalk(g, w[1..]))
  }

  ghost predicate Joins(g: Graph, w: seq<nat>, i: nat, j: nat) {
    IsWalk(g, w) && w[0] == i && w[|w| - 1] == j
  }

  /** No walk leads back to where it starts. */
  ghost predicate Acyclic(g: Graph) {
    forall w :: IsWalk(g, w) ==> w[0] != w[|w| - 1]
  }

  ghost predicate Reaches(g: Graph, i: nat, j: nat) {
    exists w :: Joins(g, w, i, j)
  }

  ghost function Reached(g: Graph, i: nat): set<nat> {
    set j | j in Upto(|g|) && Reaches(g, i, j)
  }

  lemma ReachesFirst(g: Graph, i: nat, j: nat)
    requires i < |g| && j < |g| && j in g[i]
    ensures Reaches(g, i, j)
  {
    assert Joins(g, [i, j], i, j);
  }

  lemma ReachesThrough(g: Graph, i: nat, j: nat, k: nat)
    requires i < |g| && j < |g| && j in g[i] && Reaches(g, j, k)
    ensures Reaches(g, i, k)
  {
    var w :| Joins(g, w, j, k);
    assert ([i] + w)[1..] == w;
    assert Joins(g, [i] + w, i, k);
  }

  /** A node reaches more than those it refers to do, unless one of them reaches itself. */
  lemma ReachesMore(g: Graph, i: nat, j: nat)
    requires Acyclic(g) && i < |g| && j < |g| && j in g[i]
    ensures |Reached(g, j)| < |Reached(g, i)|
  {
    ReachesFirst(g, i, j);
    forall k | k in Reached(g, j) ensures k in Reached(g, i) {
      ReachesThrough(g, i, j, k);
    }
    assert j !in Reached(g, j);
    SmallerSubset(Reached(g, j), Reached(g, i), j);
  }

  lemma SmallerSubset(a: set<nat>, b: set<nat>, x: nat)
    requires a <= b && x in b && x !in a
    ensures |a| < |b|
  {
    SubsetSize(a, b - {x});
  }

  lemma {:induction false} SubsetSize<T>(a: set<T>, b: set<T>)
    requires a <= b
    ensures |a| <= |b|
  {
    if x :| x in a {
      SubsetSize(a - {x}, b - {x});
    }
  }

  lemma {:induction false} FallsAlong(g: Graph, rank: seq<nat>, w: seq<nat>)
    requires Falls(g, rank) && IsWalk(g, w)
    ensures w[|w| - 1] < |rank| && rank[w[|w| - 1]] < rank[w[0]]
    decreases |w|
  {
    if |w| > 2 {
      FallsAlong(g, rank, w[1..]);
    }
  }

  /** A rank exists exactly when no walk is closed. */
  lemma RankIffAcyclic(g: Graph)
    ensures (exists rank :: Falls(g, rank)) <==> Acyclic(g)
  {
    if rank :| Falls(g, rank) {
      forall w | IsWalk(g, w) ensures w[0] != w[|w| - 1] {
        FallsAlong(g, rank, w);
      }
    }
    if Acyclic(g) {
      var rank := seq(|g|, i requires 0 <= i < |g| => |Reached(g, i)|);
      forall i, j | 0 <= i < |g| && j in g[i] && j < |g| ensures rank[j] < rank[i] {
        ReachesMore(g, i, j);
      }
      assert Falls(g, rank);
    }
  }

  // ----- Rearrangements -----

  ghost function Members(s: seq<nat>): (members: set<nat>)
    ensures forall x :: x in members <==> x in s
    ensures |members| <= |s|
  {
    if s == [] then {} else Members(s[1..]) + {s[0]}
  }

  lemma {:induction false} UptoSize(n: nat)
    ensures |Upto(n)| == n
  {
    if n > 0 {
      UptoSize(n - 1);
    }
  }

  /** A sequence of length `n` that holds each number below `n` holds each once. */
  lemma OntoOnce(place: seq<nat>, i: nat, j: nat)
    requires forall k: nat :: k < |place| ==> k in place
    requires i < j < |place|
    ensures place[i] != place[j]
  {
    if place[i] == place[j] {
      var others := place[..j] + place[j + 1..];
      forall k: nat | k < |place| ensures k in others {
        assert k in place;
        var p :| 0 <= p < |place| && place[p] == k;
        assert others[if p < j then p else if p == j then i else p - 1] == k;
      }
      UptoSize(|place|);
      SubsetSize(Upto(|place|), Members(others));
      assert false;
    }
  }
}

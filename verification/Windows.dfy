/**
 Coalescing of font metadata ranges (`font_metadata_windows`, crates/tex-kpse/build.rs): the
 windows are the canonical form of the union of the ranges.
 */
module Windows {
  import opened Bytes

  type Span = (nat, nat)

  predicate LessEq(a: Span, b: Span) {
    a.0 < b.0 || (a.0 == b.0 && a.1 <= b.1)
  }

  predicate SortedSpans(s: seq<Span>) {
    forall i, j :: 0 <= i < j < |s| ==> LessEq(s[i], s[j])
  }

  /** Byte `b` lies in one of the spans. */
  ghost predicate Covers(spans: seq<Span>, b: nat) {
    exists k :: 0 <= k < |spans| && spans[k].0 <= b < spans[k].1
  }

  /** Nonempty spans in order, each separated from the next by an uncovered byte. */
  ghost predicate Canonical(spans: seq<Span>) {
    && (forall k :: 0 <= k < |spans| ==> spans[k].0 < spans[k].1)
    && (forall i, j :: 0 <= i < j < |spans| ==> spans[i].1 < spans[j].0)
  }

  // ----- Sorting -----

  function InsertSpan(s: seq<Span>, x: Span): seq<Span> {
    if s == [] || LessEq(s[|s| - 1], x) then s + [x]
    else InsertSpan(s[..|s| - 1], x) + [s[|s| - 1]]
  }

  function SortSpans(s: seq<Span>): seq<Span> {
    if s == [] then [] else InsertSpan(SortSpans(s[..|s| - 1]), s[|s| - 1])
  }

  lemma {:induction false} InsertSpanPermutes(s: seq<Span>, x: Span)
    ensures multiset(InsertSpan(s, x)) == multiset(s) + multiset{x}
  {
    if !(s == [] || LessEq(s[|s| - 1], x)) {
      InsertSpanPermutes(s[..|s| - 1], x);
      assert s == s[..|s| - 1] + [s[|s| - 1]];
    }
  }

  lemma {:induction false} InsertSpanBelow(s: seq<Span>, x: Span, last: Span)
    requires LessEq(x, last) && forall i :: 0 <= i < |s| ==> LessEq(s[i], last)
    ensures forall i :: 0 <= i < |InsertSpan(s, x)| ==> LessEq(InsertSpan(s, x)[i], last)
  {
    if !(s == [] || LessEq(s[|s| - 1], x)) {
      InsertSpanBelow(s[..|s| - 1], x, last);
    }
  }

  lemma {:induction false} InsertSpanSorted(s: seq<Span>, x: Span)
    requires SortedSpans(s)
    ensures SortedSpans(InsertSpan(s, x))
  {
    if !(s == [] || LessEq(s[|s| - 1], x)) {
      var front, last := s[..|s| - 1], s[|s| - 1];
      InsertSpanSorted(front, x);
      InsertSpanBelow(front, x, last);
    }
  }

  lemma {:induction false} SortSpansExact(s: seq<Span>)
    ensures SortedSpans(SortSpans(s)) && multiset(SortSpans(s)) == multiset(s)
  {
    if s != [] {
      var front, last := s[..|s| - 1], s[|s| - 1];
      SortSpansExact(front);
      InsertSpanSorted(SortSpans(front), last);
      InsertSpanPermutes(SortSpans(front), last);
      assert s == front + [last];
    }
  }

  lemma SortSpansMembers(s: seq<Span>, x: Span)
    ensures x in SortSpans(s) <==> x in s
  {
    SortSpansExact(s);
    assert x in multiset(s) <==> x in multiset(SortSpans(s));
  }

  // ----- Merging -----

  /** `merged` covers exactly what `done` covers, and holds each of its nonempty spans in one window. */
  ghost predicate Merges(merged: seq<Span>, done: seq<Span>) {
    && Canonical(merged)
    && (forall b: nat :: Covers(merged, b) <==> Covers(done, b))
    && (forall r :: r in done && r.0 < r.1 ==> Within(merged, r))
  }

  ghost predicate Within(merged: seq<Span>, r: Span) {
    exists k :: 0 <= k < |merged| && merged[k].0 <= r.0 && r.1 <= merged[k].1
  }

  lemma CoversPush(spans: seq<Span>, x: Span, b: nat)
    ensures Covers(spans + [x], b) <==> Covers(spans, b) || x.0 <= b < x.1
  {
    var all := spans + [x];
    if Covers(spans, b) {
      var k :| 0 <= k < |spans| && spans[k].0 <= b < spans[k].1;
      assert all[k] == spans[k];
    }
    if x.0 <= b < x.1 {
      assert all[|spans|] == x;
    }
  }

  lemma MergesPush(merged: seq<Span>, done: seq<Span>, x: Span)
    requires Merges(merged, done) && x.0 < x.1
    requires merged == [] || merged[|merged| - 1].1 < x.0
    ensures Merges(merged + [x], done + [x])
  {
    var merged', done' := merged + [x], done + [x];
    forall b: nat ensures Covers(merged', b) <==> Covers(done', b) {
      CoversPush(merged, x, b);
      CoversPush(done, x, b);
    }
    forall r | r in done' && r.0 < r.1 ensures Within(merged', r) {
      if r in done {
        var k :| 0 <= k < |merged| && merged[k].0 <= r.0 && r.1 <= merged[k].1;
        assert merged'[k] == merged[k];
      } else {
        assert merged'[|merged|] == r;
      }
    }
    forall i, j | 0 <= i < j < |merged'| ensures merged'[i].1 < merged'[j].0 {
      if j == |merged| && i < |merged| - 1 {
        assert merged[i].1 < merged[|merged| - 1].0;
      }
    }
  }

  function Wider(last: Span, x: Span): Span {
    (last.0, if last.1 > x.1 then last.1 else x.1)
  }

  lemma MergesExtend(merged: seq<Span>, done: seq<Span>, x: Span)
    requires Merges(merged, done) && x.0 < x.1 && merged != []
    requires merged[|merged| - 1].0 <= x.0 <= merged[|merged| - 1].1
    ensures var last := merged[|merged| - 1];
            Merges(merged[|merged| - 1 := Wider(last, x)], done + [x])
  {
    var n, last := |merged| - 1, merged[|merged| - 1];
    var merged', done' := merged[n := Wider(last, x)], done + [x];
    forall b: nat ensures Covers(merged', b) <==> Covers(done', b) {
      CoversPush(done, x, b);
      CoversWiden(merged, x, b);
    }
    forall r | r in done' && r.0 < r.1 ensures Within(merged', r) {
      if r in done {
        WithinWiden(merged, x, r);
      } else {
        assert merged'[n].0 <= r.0 && r.1 <= merged'[n].1;
      }
    }
  }

  /** Widening the last span to reach over an adjoining one covers both and nothing else. */
  lemma CoversWiden(merged: seq<Span>, x: Span, b: nat)
    requires merged != [] && merged[|merged| - 1].0 <= x.0 <= merged[|merged| - 1].1
    ensures Covers(merged[|merged| - 1 := Wider(merged[|merged| - 1], x)], b) <==> Covers(merged, b) || x.0 <= b < x.1
  {
    var n, last := |merged| - 1, merged[|merged| - 1];
    var front := merged[..n];
    assert merged == front + [last];
    assert merged[n := Wider(last, x)] == front + [Wider(last, x)];
    CoversPush(front, last, b);
    CoversPush(front, Wider(last, x), b);
  }

  lemma WithinWiden(merged: seq<Span>, x: Span, r: Span)
    requires merged != [] && Within(merged, r)
    ensures Within(merged[|merged| - 1 := Wider(merged[|merged| - 1], x)], r)
  {
    var merged' := merged[|merged| - 1 := Wider(merged[|merged| - 1], x)];
    var k :| 0 <= k < |merged| && merged[k].0 <= r.0 && r.1 <= merged[k].1;
    assert merged'[k].0 <= r.0 && r.1 <= merged'[k].1;
  }

  lemma MergesSkip(merged: seq<Span>, done: seq<Span>, x: Span)
    requires Merges(merged, done) && x.0 >= x.1
    ensures Merges(merged, done + [x])
  {
    forall b: nat ensures Covers(merged, b) <==> Covers(done + [x], b) {
      CoversPush(done, x, b);
    }
  }

  method MergeSpans(ranges: seq<Span>) returns (merged: seq<Span>)
    requires SortedSpans(ranges)
    ensures Merges(merged, ranges)
  {
    merged := [];
    for n := 0 to |ranges|
      invariant Merges(merged, ranges[..n])
      invariant merged != [] ==> n > 0 && merged[|merged| - 1].0 <= ranges[n - 1].0
    {
      var x := ranges[n];
      assert ranges[..n + 1] == ranges[..n] + [x];
      assert n > 0 ==> LessEq(ranges[n - 1], x);
      if x.0 >= x.1 {
        MergesSkip(merged, ranges[..n], x);
        continue;
      }
      if merged != [] {
        var last := merged[|merged| - 1];
        if x.0 <= last.1 {
          MergesExtend(merged, ranges[..n], x);
          merged := merged[|merged| - 1 := Wider(last, x)];
          continue;
        }
      }
      MergesPush(merged, ranges[..n], x);
      merged := merged + [x];
    }
    assert ranges[..|ranges|] == ranges;
  }

  // ----- The canonical form is unique -----

  lemma Apart(spans: seq<Span>, i: nat, j: nat)
    requires Canonical(spans) && i < |spans| && j < |spans|
    ensures i < j ==> spans[i].1 < spans[j].0
    ensures j < i ==> spans[j].1 < spans[i].0
    ensures spans[i].0 < spans[i].1 && spans[j].0 < spans[j].1
  {
  }

  /** The byte after a window is uncovered. */
  lemma GapAfter(spans: seq<Span>, k: nat)
    requires Canonical(spans) && k < |spans|
    ensures !Covers(spans, spans[k].1)
  {
    forall j | 0 <= j < |spans| ensures !(spans[j].0 <= spans[k].1 < spans[j].1) {
      Apart(spans, j, k);
    }
  }

  lemma CoveredRun(spans: seq<Span>, a: nat, b: nat, k: nat)
    requires Canonical(spans) && k < |spans|
    requires spans[k].0 <= a < spans[k].1 && a < b
    requires forall c: nat :: a <= c < b ==> Covers(spans, c)
    ensures b <= spans[k].1
  {
    GapAfter(spans, k);
  }

  lemma SpanIn(u: seq<Span>, v: seq<Span>, k: nat)
    requires Canonical(u) && Canonical(v) && k < |u|
    requires forall b: nat :: Covers(u, b) <==> Covers(v, b)
    ensures exists j :: 0 <= j < |v| && v[j].0 <= u[k].0 && u[k].1 <= v[j].1
  {
    assert Covers(u, u[k].0);
    var j :| 0 <= j < |v| && v[j].0 <= u[k].0 < v[j].1;
    forall c: nat | u[k].0 <= c < u[k].1 ensures Covers(v, c) {
      assert Covers(u, c);
    }
    CoveredRun(v, u[k].0, u[k].1, j);
  }

  lemma SpanShared(u: seq<Span>, v: seq<Span>, x: Span)
    requires Canonical(u) && Canonical(v)
    requires forall b: nat :: Covers(u, b) <==> Covers(v, b)
    requires x in u
    ensures x in v
  {
    var k :| 0 <= k < |u| && u[k] == x;
    SpanIn(u, v, k);
    var j :| 0 <= j < |v| && v[j].0 <= u[k].0 && u[k].1 <= v[j].1;
    SpanIn(v, u, j);
    var i :| 0 <= i < |u| && u[i].0 <= v[j].0 && v[j].1 <= u[i].1;
    Apart(u, i, k);
    assert v[j] == u[k];
  }

  /** One canonical list of windows covers a given set of bytes. */
  lemma {:induction false} CanonicalUnique(u: seq<Span>, v: seq<Span>)
    requires Canonical(u) && Canonical(v)
    requires forall b: nat :: Covers(u, b) <==> Covers(v, b)
    ensures u == v
    decreases |u|
  {
    if u == [] {
      if v != [] {
        SpanShared(v, u, v[0]);
      }
    } else {
      SpanShared(u, v, u[0]);
      SpanShared(v, u, v[0]);
      var u', v' := u[1..], v[1..];
      FirstSpans(u, v);
      forall b: nat ensures Covers(u', b) <==> Covers(v', b) {
        CoversTail(u, b);
        CoversTail(v, b);
      }
      CanonicalUnique(u', v');
      assert u == [u[0]] + u' && v == [v[0]] + v';
    }
  }

  lemma FirstSpans(u: seq<Span>, v: seq<Span>)
    requires Canonical(u) && Canonical(v) && u != [] && v != []
    requires u[0] in v && v[0] in u
    ensures u[0] == v[0]
  {
    var j :| 0 <= j < |v| && v[j] == u[0];
    var i :| 0 <= i < |u| && u[i] == v[0];
    FirstIsFirst(u[0], v[0], u, i, v, j);
  }

  lemma FirstIsFirst(a: Span, b: Span, u: seq<Span>, i: nat, v: seq<Span>, j: nat)
    requires Canonical(u) && Canonical(v) && i < |u| && j < |v|
    requires a == u[0] == v[j] && b == v[0] == u[i]
    ensures a == b
  {
    Apart(u, 0, i);
    if a.0 <= b.0 {
      Apart(v, 0, j);
    }
  }

  lemma CoversTail(u: seq<Span>, b: nat)
    requires Canonical(u) && u != []
    ensures Covers(u[1..], b) <==> Covers(u, b) && !(u[0].0 <= b < u[0].1)
  {
    if Covers(u[1..], b) {
      var k :| 0 <= k < |u[1..]| && u[1..][k].0 <= b < u[1..][k].1;
      assert u[k + 1].0 <= b < u[k + 1].1;
      assert u[0].1 < u[k + 1].0;
    }
    if Covers(u, b) && !(u[0].0 <= b < u[0].1) {
      var k :| 0 <= k < |u| && u[k].0 <= b < u[k].1;
      assert u[1..][k - 1] == u[k];
    }
  }

  // ----- Windows with their bytes -----

  type Window = (nat, seq<byte>)

  function SpanOf(w: Window): Span {
    (w.0, w.0 + |w.1|)
  }

  /** The bytes of a window are the data's. */
  ghost predicate Matches(data: seq<byte>, w: Window) {
    w.0 + |w.1| <= |data| && w.1 == data[w.0..w.0 + |w.1|]
  }

  lemma WindowsInBounds(merged: seq<Span>, ranges: seq<Span>, n: nat)
    requires Merges(merged, ranges)
    requires forall r :: r in ranges && r.0 < r.1 ==> r.1 <= n
    ensures forall k :: 0 <= k < |merged| ==> merged[k].0 < merged[k].1 <= n
  {
    forall k | 0 <= k < |merged| ensures merged[k].1 <= n {
      var b := merged[k].1 - 1;
      assert Covers(merged, b);
      var i :| 0 <= i < |ranges| && ranges[i].0 <= b < ranges[i].1;
      assert ranges[i] in ranges;
    }
  }

  lemma MergesSameMembers(merged: seq<Span>, s: seq<Span>, t: seq<Span>)
    requires Merges(merged, s)
    requires forall r :: r in s <==> r in t
    ensures Merges(merged, t)
  {
    forall b: nat ensures Covers(s, b) <==> Covers(t, b) {
      if Covers(s, b) {
        var k :| 0 <= k < |s| && s[k].0 <= b < s[k].1;
        assert s[k] in t;
      }
      if Covers(t, b) {
        var k :| 0 <= k < |t| && t[k].0 <= b < t[k].1;
        assert t[k] in s;
      }
    }
  }

  /**
   The windows of in-bounds ranges: in order, separated, covering exactly the bytes the ranges cover,
   each nonempty range within one of them, and each with its bytes of the data.
   */
  method FontMetadataWindows(data: seq<byte>, ranges: seq<Span>) returns (windows: seq<Window>)
    requires forall r :: r in ranges && r.0 < r.1 ==> r.1 <= |data|
    ensures forall k :: 0 <= k < |windows| ==> Matches(data, windows[k])
    ensures Merges(seq(|windows|, k requires 0 <= k < |windows| => SpanOf(windows[k])), ranges)
  {
    var sorted := SortSpans(ranges);
    SortSpansExact(ranges);
    var merged := MergeSpans(sorted);
    forall r ensures r in sorted <==> r in ranges {
      SortSpansMembers(ranges, r);
    }
    MergesSameMembers(merged, sorted, ranges);
    WindowsInBounds(merged, ranges, |data|);
    windows := [];
    for n := 0 to |merged|
      invariant |windows| == n
      invariant forall k :: 0 <= k < n ==> Matches(data, windows[k]) && SpanOf(windows[k]) == merged[k]
    {
      windows := windows + [(merged[n].0, data[merged[n].0..merged[n].1])];
    }
    assert seq(|windows|, k requires 0 <= k < |windows| => SpanOf(windows[k])) == merged;
  }
}

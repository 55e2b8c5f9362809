/**
 How members lie in the chunks of an archive (crates/tex-kpse/build.rs): in order and without gaps, and no chunk
 ends before it has to.
 */
module ChunkLayouts {
  import opened Bytes
  import opened Chunking

  // ----- The members kept -----

  predicate IsFirst(members: seq<Member>, i: nat)
    requires i < |members|
  {
    forall j :: 0 <= j < i ==> members[j].name != members[i].name
  }

  /** Of the first `n` members, those with a name that none before them has. */
  function Kept(members: seq<Member>, n: nat): seq<Member>
    requires n <= |members|
  {
    if n == 0 then []
    else Kept(members, n - 1) + if IsFirst(members, n - 1) then [members[n - 1]] else []
  }

  predicate HasName(order: seq<Member>, name: string) {
    exists n :: 0 <= n < |order| && order[n].name == name
  }

  /** The kept members have the names of all, and no two the same. */
  lemma {:induction false} KeptNames(members: seq<Member>, n: nat)
    requires n <= |members|
    ensures forall name :: HasName(Kept(members, n), name) <==> HasName(members[..n], name)
    ensures forall i, j :: 0 <= i < j < |Kept(members, n)| ==> Kept(members, n)[i].name != Kept(members, n)[j].name
  {
    if n > 0 {
      KeptNames(members, n - 1);
      var before, m := Kept(members, n - 1), members[n - 1];
      forall name ensures HasName(Kept(members, n), name) <==> HasName(members[..n], name) {
        NameBehind(members[..n - 1], m, name);
        assert members[..n] == members[..n - 1] + [m];
        NameBehind(before, m, name);
        if !IsFirst(members, n - 1) {
          var j :| 0 <= j < n - 1 && members[j].name == m.name;
          assert members[..n - 1][j].name == m.name;
          assert Kept(members, n) == before;
        }
      }
      if IsFirst(members, n - 1) {
        assert !HasName(members[..n - 1], m.name);
        assert !HasName(before, m.name);
      }
    }
  }

  lemma NameBehind(order: seq<Member>, m: Member, name: string)
    ensures HasName(order + [m], name) <==> HasName(order, name) || m.name == name
  {
    var all := order + [m];
    if HasName(order, name) {
      var n :| 0 <= n < |order| && order[n].name == name;
      assert all[n].name == name;
    }
    assert all[|order|] == m;
  }

  lemma {:induction false} FirstWinsNames(members: seq<Member>, n: nat)
    requires n <= |members|
    ensures forall name :: name in FirstWins(members[..n]) <==> HasName(members[..n], name)
  {
    if n > 0 {
      FirstWinsNames(members, n - 1);
      FirstWinsNext(members, n - 1);
      forall name ensures name in FirstWins(members[..n]) <==> HasName(members[..n], name) {
        NameBehind(members[..n - 1], members[n - 1], name);
      }
    }
  }

  /** Each name stands for the first member that has it. */
  lemma {:induction false} FirstWinsExact(members: seq<Member>, n: nat, i: nat)
    requires i < n <= |members| && IsFirst(members, i)
    ensures members[i].name in FirstWins(members[..n]) && FirstWins(members[..n])[members[i].name] == members[i].data
    decreases n
  {
    FirstWinsNext(members, n - 1);
    if i < n - 1 {
      FirstWinsExact(members, n - 1, i);
    } else {
      FirstWinsNames(members, i);
      FirstIsNew(members, i);
    }
  }

  lemma FirstWinsNext(members: seq<Member>, n: nat)
    requires n < |members|
    ensures members[..n + 1] == members[..n] + [members[n]]
    ensures var kept, m := FirstWins(members[..n]), members[n];
            FirstWins(members[..n + 1]) == if m.name in kept then kept else kept[m.name := m.data]
  {
    assert members[..n + 1][..n] == members[..n];
  }

  lemma FirstIsNew(members: seq<Member>, n: nat)
    requires n < |members|
    ensures IsFirst(members, n) <==> !HasName(members[..n], members[n].name)
  {
    if j :| 0 <= j < n && members[j].name == members[n].name {
      assert members[..n][j].name == members[n].name;
    }
  }

  // ----- Order -----

  function Datas(order: seq<Member>): (datas: seq<seq<byte>>)
    ensures |datas| == |order|
  {
    seq(|order|, i requires 0 <= i < |order| => order[i].data)
  }

  /** The bytes of the members, one behind another. */
  function BytesOf(order: seq<Member>): seq<byte> {
    Flatten(Datas(order))
  }

  lemma BytesPush(order: seq<Member>, m: Member)
    ensures BytesOf(order + [m]) == BytesOf(order) + m.data
  {
    assert Datas(order + [m]) == Datas(order) + [m.data];
    FlattenAppend(Datas(order), [m.data]);
    FlattenOne(m.data);
  }

  /** A member begins behind as many bytes as those before it have. */
  ghost predicate Located(order: seq<Member>, l: Layout, n: nat)
    requires n < |order|
  {
    && order[n].name in l.index
    && var p := l.index[order[n].name];
       && p.length == |order[n].data| && p.chunk <= |l.written|
       && |Flatten(l.written[..p.chunk])| + p.offset == |BytesOf(order[..n])|
  }

  /** The chunks are the bytes of the members in order, and each member begins where the ones before it end. */
  ghost predicate InOrder(order: seq<Member>, l: Layout) {
    && (forall name :: name in l.index <==> HasName(order, name))
    && Flatten(l.written) + l.open == BytesOf(order)
    && forall n :: 0 <= n < |order| ==> Located(order, l, n)
  }

  lemma CloseInOrder(order: seq<Member>, l: Layout)
    requires InOrder(order, l)
    ensures InOrder(order, Close(l))
  {
    if l.open != [] {
      FlattenAppend(l.written, [l.open]);
      FlattenOne(l.open);
      forall n | 0 <= n < |order| ensures Located(order, Close(l), n) {
        var p := l.index[order[n].name];
        assert Located(order, l, n);
        assert (l.written + [l.open])[..p.chunk] == l.written[..p.chunk];
      }
    }
  }

  /** A member is put behind the others, with `more` chunks and another open one. */
  lemma PutInOrder(order: seq<Member>, l: Layout, m: Member, more: seq<seq<byte>>, open: seq<byte>)
    requires InOrder(order, l) && m.name !in l.index
    requires Flatten(more) + open == l.open + m.data
    ensures InOrder(order + [m], Layout(l.written + more, open, l.index[m.name := Place(|l.written|, |l.open|, |m.data|)]))
  {
    var all, p := order + [m], Place(|l.written|, |l.open|, |m.data|);
    var next := Layout(l.written + more, open, l.index[m.name := p]);
    forall name ensures name in next.index <==> HasName(all, name) {
      NameBehind(order, m, name);
    }
    FlattenAppend(l.written, more);
    BytesPush(order, m);
    assert Flatten(l.written) + Flatten(more) + open == Flatten(l.written) + (Flatten(more) + open);
    assert Flatten(l.written) + (l.open + m.data) == Flatten(l.written) + l.open + m.data;
    forall n | 0 <= n < |all| ensures Located(all, next, n) {
      if n < |order| {
        assert Located(order, l, n) && order[n].name in l.index;
        var q := l.index[order[n].name];
        assert next.written[..q.chunk] == l.written[..q.chunk] && all[..n] == order[..n];
      } else {
        assert next.written[..p.chunk] == l.written && all[..n] == order;
      }
    }
  }

  lemma {:induction false} FramesJoin(data: seq<byte>)
    ensures Flatten(Frames(data)) == data
    decreases |data|
  {
    if |data| > LARGE_MEMBER_FRAME {
      FramesJoin(data[LARGE_MEMBER_FRAME..]);
      assert data == data[..LARGE_MEMBER_FRAME] + data[LARGE_MEMBER_FRAME..];
    } else if data != [] {
      FlattenOne(data);
    }
  }

  lemma PlaceInOrder(order: seq<Member>, l: Layout, m: Member)
    requires InOrder(order, l) && m.name !in l.index
    ensures InOrder(order + [m], PlaceMember(l, m))
  {
    var at := if l.open != [] && |l.open| + |m.data| > CHUNK_TARGET then Close(l) else l;
    CloseInOrder(order, l);
    if |m.data| > LARGE_MEMBER_FRAME {
      FramesJoin(m.data);
      PutInOrder(order, at, m, Frames(m.data), []);
    } else {
      PutInOrder(order, at, m, [], at.open + m.data);
      assert at.written + [] == at.written;
      CloseInOrder(order + [m], Layout(at.written, at.open + m.data, at.index[m.name := Place(|at.written|, |at.open|, |m.data|)]));
    }
  }

  lemma LayoutStep(members: seq<Member>, n: nat)
    requires n < |members|
    ensures LayoutOf(members[..n + 1]) == PlaceMember(LayoutOf(members[..n]), members[n])
    ensures Kept(members, n + 1) == if IsFirst(members, n) then Kept(members, n) + [members[n]] else Kept(members, n)
  {
    assert members[..n + 1][..n] == members[..n];
    assert Kept(members, n) + [] == Kept(members, n);
  }

  lemma {:induction false} LayoutInOrder(members: seq<Member>, n: nat)
    requires n <= |members|
    ensures InOrder(Kept(members, n), LayoutOf(members[..n]))
  {
    if n > 0 {
      LayoutInOrder(members, n - 1);
      NextInOrder(members, n);
    }
  }

  lemma NextInOrder(members: seq<Member>, n: nat)
    requires 0 < n <= |members| && InOrder(Kept(members, n - 1), LayoutOf(members[..n - 1]))
    ensures InOrder(Kept(members, n), LayoutOf(members[..n]))
  {
    var order, l, m := Kept(members, n - 1), LayoutOf(members[..n - 1]), members[n - 1];
    LayoutStep(members, n - 1);
    FirstIffUnplaced(members, n - 1);
    MoreInOrder(order, l, m, Kept(members, n), LayoutOf(members[..n]));
  }

  /** A member with a new name joins the others, another changes nothing. */
  lemma MoreInOrder(order: seq<Member>, l: Layout, m: Member, order': seq<Member>, l': Layout)
    requires InOrder(order, l) && l' == PlaceMember(l, m)
    requires order' == if m.name in l.index then order else order + [m]
    ensures InOrder(order', l')
  {
    if m.name !in l.index {
      PlaceInOrder(order, l, m);
    }
  }

  lemma FirstIffUnplaced(members: seq<Member>, n: nat)
    requires n < |members| && InOrder(Kept(members, n), LayoutOf(members[..n]))
    ensures IsFirst(members, n) <==> members[n].name !in LayoutOf(members[..n]).index
  {
    KeptNames(members, n);
    FirstIsNew(members, n);
  }

  /** The chunks of the whole archive hold the kept members in order, each behind the ones before it. */
  lemma ArchiveInOrder(members: seq<Member>)
    ensures var order, l := Kept(members, |members|), Close(LayoutOf(members));
            l.open == [] && InOrder(order, l) && Flatten(l.written) == BytesOf(order)
  {
    assert members[..|members|] == members;
    LayoutInOrder(members, |members|);
    CloseInOrder(Kept(members, |members|), LayoutOf(members));
    var l := Close(LayoutOf(members));
    assert Flatten(l.written) + [] == Flatten(l.written);
  }

  // ----- Frames -----

  /** All frames are full but the last, which has a byte. */
  predicate Framed(frames: seq<seq<byte>>) {
    forall i :: 0 <= i < |frames| ==>
      0 < |frames[i]| <= LARGE_MEMBER_FRAME && (i + 1 < |frames| ==> |frames[i]| == LARGE_MEMBER_FRAME)
  }

  lemma {:induction false} FramesFramed(data: seq<byte>)
    ensures Framed(Frames(data))
    decreases |data|
  {
    if |data| > LARGE_MEMBER_FRAME {
      FramesFramed(data[LARGE_MEMBER_FRAME..]);
    }
  }

  lemma {:induction false} FramedDecides(a: seq<seq<byte>>, b: seq<seq<byte>>)
    requires Framed(a) && Framed(b) && Flatten(a) == Flatten(b)
    ensures a == b
    decreases |a|
  {
    if a != [] && b != [] {
      var x, y := Flatten(a), Flatten(b);
      FirstFrame(a);
      FirstFrame(b);
      assert a[0] == First(x, LARGE_MEMBER_FRAME) == b[0];
      assert x[|a[0]|..] == Flatten(a[1..]) && y[|b[0]|..] == Flatten(b[1..]);
      FramedDecides(a[1..], b[1..]);
      assert a == [a[0]] + a[1..] && b == [b[0]] + b[1..];
    } else if a != [] {
      FirstFrame(a);
    } else if b != [] {
      FirstFrame(b);
    }
  }

  lemma FirstFrame(frames: seq<seq<byte>>)
    requires Framed(frames) && frames != []
    ensures Flatten(frames) != [] && frames[0] == First(Flatten(frames), LARGE_MEMBER_FRAME)
    ensures Framed(frames[1..])
  {
    if |frames| > 1 {
      assert |frames[0]| == LARGE_MEMBER_FRAME;
      assert Flatten(frames)[..LARGE_MEMBER_FRAME] == frames[0];
    } else {
      FlattenOne(frames[0]);
      assert frames == [frames[0]];
    }
  }

  /** A member is cut into full frames and a last one in one way. */
  lemma FramesExact(data: seq<byte>, frames: seq<seq<byte>>)
    ensures frames == Frames(data) <==> Framed(frames) && Flatten(frames) == data
  {
    FramesJoin(data);
    FramesFramed(data);
    if Framed(frames) && Flatten(frames) == data {
      FramedDecides(frames, Frames(data));
    }
  }

  // ----- Where chunks end -----

  /** Chunk `k` is a frame of a large member. */
  ghost predicate IsFrame(order: seq<Member>, index: Index, k: nat) {
    exists n :: 0 <= n < |order| && FrameOf(order[n], index, k)
  }

  predicate FrameOf(m: Member, index: Index, k: nat) {
    && m.name in index && |m.data| > LARGE_MEMBER_FRAME
    && index[m.name].chunk <= k < index[m.name].chunk + |Frames(m.data)|
  }

  /** The member begins chunk `k`. */
  predicate Begins(m: Member, index: Index, k: nat) {
    m.name in index && index[m.name] == Place(k, 0, |m.data|)
  }

  /** Chunk `k` had to end: it has the target size, or the member that begins the next would exceed it. */
  ghost predicate HadToEnd(order: seq<Member>, l: Layout, k: nat)
    requires k < |l.written|
  {
    || |l.written[k]| >= CHUNK_TARGET
    || IsFrame(order, l.index, k)
    || exists n :: 0 <= n < |order| && Begins(order[n], l.index, k + 1) && |l.written[k]| + |order[n].data| > CHUNK_TARGET
  }

  /** Chunk `k` exceeds the target size only if it holds one member, or a frame of one. */
  ghost predicate ExceedsAlone(order: seq<Member>, l: Layout, k: nat)
    requires k < |l.written|
  {
    || |l.written[k]| <= CHUNK_TARGET
    || IsFrame(order, l.index, k)
    || exists n :: 0 <= n < |order| && Begins(order[n], l.index, k) && l.written[k] == order[n].data
  }

  /** All this of the chunks before `ended`, and the open chunk is below the target size. */
  ghost predicate Greedy(order: seq<Member>, l: Layout, ended: nat) {
    && (forall n :: 0 <= n < |order| ==> order[n].name in l.index)
    && ended <= |l.written| && |l.open| < CHUNK_TARGET
    && (forall k :: 0 <= k < ended ==> HadToEnd(order, l, k))
    && forall k :: 0 <= k < |l.written| ==> ExceedsAlone(order, l, k)
  }

  lemma BeginsKept(m: Member, index: Index, other: string, p: Place, k: nat)
    requires m.name in index && other !in index
    ensures Begins(m, index, k) ==> Begins(m, index[other := p], k)
    ensures FrameOf(m, index, k) ==> FrameOf(m, index[other := p], k)
  {
  }

  ghost predicate Placing(order: seq<Member>, l: Layout, m: Member) {
    (forall n :: 0 <= n < |order| ==> order[n].name in l.index) && m.name !in l.index
  }

  lemma FrameKept(order: seq<Member>, l: Layout, m: Member, p: Place, k: nat)
    requires Placing(order, l, m) && IsFrame(order, l.index, k)
    ensures IsFrame(order + [m], l.index[m.name := p], k)
  {
    var n :| 0 <= n < |order| && FrameOf(order[n], l.index, k);
    BeginsKept(order[n], l.index, m.name, p, k);
    assert (order + [m])[n] == order[n];
  }

  /** A member more, and chunks more, leave what was said of the others. */
  lemma EndKept(order: seq<Member>, l: Layout, m: Member, p: Place, more: seq<seq<byte>>, open: seq<byte>, k: nat)
    requires Placing(order, l, m) && k < |l.written| && HadToEnd(order, l, k)
    ensures HadToEnd(order + [m], Layout(l.written + more, open, l.index[m.name := p]), k)
  {
    if IsFrame(order, l.index, k) {
      FrameKept(order, l, m, p, k);
    } else if |l.written[k]| < CHUNK_TARGET {
      var n :| 0 <= n < |order| && Begins(order[n], l.index, k + 1) && |l.written[k]| + |order[n].data| > CHUNK_TARGET;
      BeginsKept(order[n], l.index, m.name, p, k + 1);
      assert (order + [m])[n] == order[n];
    }
  }

  lemma AloneKept(order: seq<Member>, l: Layout, m: Member, p: Place, more: seq<seq<byte>>, open: seq<byte>, k: nat)
    requires Placing(order, l, m) && k < |l.written| && ExceedsAlone(order, l, k)
    ensures ExceedsAlone(order + [m], Layout(l.written + more, open, l.index[m.name := p]), k)
  {
    if IsFrame(order, l.index, k) {
      FrameKept(order, l, m, p, k);
    } else if |l.written[k]| > CHUNK_TARGET {
      var n :| 0 <= n < |order| && Begins(order[n], l.index, k) && l.written[k] == order[n].data;
      BeginsKept(order[n], l.index, m.name, p, k);
      assert (order + [m])[n] == order[n];
    }
  }

  lemma PutGreedy(order: seq<Member>, l: Layout, m: Member, p: Place, more: seq<seq<byte>>, open: seq<byte>)
    requires Greedy(order, l, |l.written|) && m.name !in l.index && |open| < CHUNK_TARGET
    requires var next := Layout(l.written + more, open, l.index[m.name := p]);
             forall k :: |l.written| <= k < |next.written| ==>
               HadToEnd(order + [m], next, k) && ExceedsAlone(order + [m], next, k)
    ensures var next := Layout(l.written + more, open, l.index[m.name := p]);
            Greedy(order + [m], next, |next.written|)
  {
    var next := Layout(l.written + more, open, l.index[m.name := p]);
    forall k | 0 <= k < |next.written| ensures HadToEnd(order + [m], next, k) && ExceedsAlone(order + [m], next, k) {
      if k < |l.written| {
        EndKept(order, l, m, p, more, open, k);
        AloneKept(order, l, m, p, more, open, k);
      }
    }
  }

  /** The frames of a large member, which begins behind the chunks there are. */
  lemma LargeGreedy(order: seq<Member>, l: Layout, m: Member, ended: seq<seq<byte>>)
    requires Greedy(order, l, |l.written|) && m.name !in l.index && |m.data| > LARGE_MEMBER_FRAME
    requires ended == if l.open == [] then [] else [l.open]
    ensures var next := Layout(l.written + (ended + Frames(m.data)), [],
                               l.index[m.name := Place(|l.written + ended|, 0, |m.data|)]);
            Greedy(order + [m], next, |next.written|)
  {
    var more, p := ended + Frames(m.data), Place(|l.written + ended|, 0, |m.data|);
    var all, next := order + [m], Layout(l.written + more, [], l.index[m.name := p]);
    assert all[|order|] == m;
    forall k | |l.written| <= k < |next.written| ensures HadToEnd(all, next, k) && ExceedsAlone(all, next, k) {
      if k < p.chunk {
        assert next.written[k] == l.open && Begins(all[|order|], next.index, k + 1);
      } else {
        assert FrameOf(all[|order|], next.index, k);
      }
    }
    PutGreedy(order, l, m, p, more, []);
  }

  /** A member that does not fit begins a chunk, and ends it if it fills it. */
  lemma AloneGreedy(order: seq<Member>, l: Layout, m: Member, full: bool)
    requires Greedy(order, l, |l.written|) && m.name !in l.index
    requires l.open != [] && |l.open| + |m.data| > CHUNK_TARGET
    requires full <==> |m.data| >= CHUNK_TARGET
    ensures var more := [l.open] + if full then [m.data] else [];
            var p := Place(|l.written| + 1, 0, |m.data|);
            var next := Layout(l.written + more, if full then [] else m.data, l.index[m.name := p]);
            Greedy(order + [m], next, |next.written|)
  {
    var p, more := Place(|l.written| + 1, 0, |m.data|), [l.open] + if full then [m.data] else [];
    var open := if full then [] else m.data;
    var all, next := order + [m], Layout(l.written + more, open, l.index[m.name := p]);
    assert all[|order|] == m;
    forall k | |l.written| <= k < |next.written| ensures HadToEnd(all, next, k) && ExceedsAlone(all, next, k) {
      if k == |l.written| {
        assert next.written[k] == l.open && Begins(all[|order|], next.index, k + 1);
      } else {
        assert next.written[k] == m.data && Begins(all[|order|], next.index, k);
      }
    }
    PutGreedy(order, l, m, p, more, open);
  }

  /** A member that fits joins the open chunk, and ends it if it fills it. */
  lemma JoinGreedy(order: seq<Member>, l: Layout, m: Member, full: bool)
    requires Greedy(order, l, |l.written|) && m.name !in l.index
    requires l.open == [] || |l.open| + |m.data| <= CHUNK_TARGET
    requires full <==> |l.open + m.data| >= CHUNK_TARGET
    ensures var more := if full then [l.open + m.data] else [];
            var p := Place(|l.written|, |l.open|, |m.data|);
            var next := Layout(l.written + more, if full then [] else l.open + m.data, l.index[m.name := p]);
            Greedy(order + [m], next, |next.written|)
  {
    var p, more := Place(|l.written|, |l.open|, |m.data|), if full then [l.open + m.data] else [];
    var open := if full then [] else l.open + m.data;
    var all, next := order + [m], Layout(l.written + more, open, l.index[m.name := p]);
    assert all[|order|] == m;
    forall k | |l.written| <= k < |next.written| ensures HadToEnd(all, next, k) && ExceedsAlone(all, next, k) {
      assert next.written[k] == l.open + m.data;
      if l.open == [] {
        assert [] + m.data == m.data;
        assert Begins(all[|order|], next.index, k);
      }
    }
    PutGreedy(order, l, m, p, more, open);
  }

  lemma PlaceGreedy(order: seq<Member>, l: Layout, m: Member)
    requires Greedy(order, l, |l.written|) && m.name !in l.index
    ensures var next := PlaceMember(l, m); Greedy(order + [m], next, |next.written|)
  {
    var closes := l.open != [] && |l.open| + |m.data| > CHUNK_TARGET;
    var next := PlaceMember(l, m);
    if |m.data| > LARGE_MEMBER_FRAME {
      var ended := if l.open == [] then [] else [l.open];
      LargeGreedy(order, l, m, ended);
      assert l.written + (ended + Frames(m.data)) == next.written;
    } else if closes {
      AloneGreedy(order, l, m, |m.data| >= CHUNK_TARGET);
      assert [] + m.data == m.data;
      assert l.written + [l.open] + [m.data] == l.written + ([l.open] + [m.data]);
      assert l.written + [l.open] == l.written + ([l.open] + []);
    } else {
      JoinGreedy(order, l, m, |l.open + m.data| >= CHUNK_TARGET);
      assert l.written + [] == l.written;
    }
  }

  lemma {:induction false} LayoutGreedy(members: seq<Member>, n: nat)
    requires n <= |members|
    ensures Greedy(Kept(members, n), LayoutOf(members[..n]), |LayoutOf(members[..n]).written|)
  {
    if n > 0 {
      LayoutGreedy(members, n - 1);
      LayoutInOrder(members, n - 1);
      NextGreedy(members, n);
    }
  }

  lemma NextGreedy(members: seq<Member>, n: nat)
    requires 0 < n <= |members| && InOrder(Kept(members, n - 1), LayoutOf(members[..n - 1]))
    requires Greedy(Kept(members, n - 1), LayoutOf(members[..n - 1]), |LayoutOf(members[..n - 1]).written|)
    ensures Greedy(Kept(members, n), LayoutOf(members[..n]), |LayoutOf(members[..n]).written|)
  {
    LayoutStep(members, n - 1);
    FirstIffUnplaced(members, n - 1);
    MoreGreedy(Kept(members, n - 1), LayoutOf(members[..n - 1]), members[n - 1], Kept(members, n), LayoutOf(members[..n]));
  }

  lemma MoreGreedy(order: seq<Member>, l: Layout, m: Member, order': seq<Member>, l': Layout)
    requires Greedy(order, l, |l.written|) && l' == PlaceMember(l, m)
    requires order' == if m.name in l.index then order else order + [m]
    ensures Greedy(order', l', |l'.written|)
  {
    if m.name !in l.index {
      PlaceGreedy(order, l, m);
    }
  }

  /** Every chunk but the last had to end where it does, and none exceeds the target size but for one member alone. */
  lemma ArchiveGreedy(members: seq<Member>)
    ensures var order, l := Kept(members, |members|), Close(LayoutOf(members));
            forall k :: 0 <= k < |l.written| ==>
              (k + 1 < |l.written| ==> HadToEnd(order, l, k)) && ExceedsAlone(order, l, k)
  {
    assert members[..|members|] == members;
    LayoutGreedy(members, |members|);
    var order, open := Kept(members, |members|), LayoutOf(members);
    var l := Close(open);
    forall k | 0 <= k < |l.written|
      ensures (k + 1 < |l.written| ==> HadToEnd(order, l, k)) && ExceedsAlone(order, l, k)
    {
      if k < |open.written| {
        assert l.written[k] == open.written[k] && HadToEnd(order, open, k) && ExceedsAlone(order, open, k);
      }
    }
  }
}

/**
 Packing of archive members into chunks (the loop of `main` and `write_chunk`,
 crates/tex-kpse/build.rs) and the reader of the packed archive (`read_package_entry` and
 `decode_member_frames`, crates/tex-kpse/src/lib.rs).

 Compression is a parameter: all that is known of it is that decoding undoes encoding.
 */
module Chunking {
  import opened Wrappers
  import opened Bytes

  const CHUNK_TARGET := 128 * 1024
  const LARGE_MEMBER_FRAME := 1024 * 1024
  const MAX_PACKAGE_CHUNK_BYTES := 128 * 1024 * 1024

  datatype Codec = Codec(encode: seq<byte> -> seq<byte>, decode: seq<byte> -> Option<seq<byte>>) {
    ghost predicate Valid() {
      forall data: seq<byte> :: decode(encode(data)) == Some(data)
    }
  }

  datatype Member = Member(name: string, data: seq<byte>)

  /** Where a chunk lies in the archive, and how long it is decoded. */
  datatype Chunk = Chunk(offset: nat, length: nat, decoded: nat)

  /** The chunk a member starts in, its offset there, and its length. */
  datatype Place = Place(chunk: nat, offset: nat, length: nat)

  type Index = map<string, Place>

  // ----- What is kept -----

  /** Of members with one name, the first. */
  function FirstWins(members: seq<Member>): map<string, seq<byte>> {
    if members == [] then map[]
    else
      var kept := FirstWins(members[..|members| - 1]);
      var last := members[|members| - 1];
      if last.name in kept then kept else kept[last.name := last.data]
  }

  /** A large member as consecutive frames. */
  function Frames(data: seq<byte>): (frames: seq<seq<byte>>)
    ensures forall f :: f in frames ==> 0 < |f| <= LARGE_MEMBER_FRAME
    decreases |data|
  {
    if data == [] then []
    else if |data| <= LARGE_MEMBER_FRAME then [data]
    else [data[..LARGE_MEMBER_FRAME]] + Frames(data[LARGE_MEMBER_FRAME..])
  }

  /** `data` begins in chunk `p.chunk` of the written chunks followed by the open one. */
  ghost predicate Placed(written: seq<seq<byte>>, open: seq<byte>, p: Place, data: seq<byte>) {
    && p.length == |data| && p.chunk <= |written|
    && if |data| > LARGE_MEMBER_FRAME then
         && p.offset == 0 && p.chunk + |Frames(data)| <= |written|
         && written[p.chunk..p.chunk + |Frames(data)|] == Frames(data)
       else
         var chunk := if p.chunk < |written| then written[p.chunk] else open;
         p.offset + |data| <= |chunk| && chunk[p.offset..p.offset + |data|] == data
  }

  /** The chunk table and the archive bytes that hold the decoded chunks. */
  ghost predicate Holds(codec: Codec, written: seq<seq<byte>>, chunks: seq<Chunk>, blob: seq<byte>) {
    && |chunks| == |written|
    && (forall k :: 0 <= k < |written| ==> 0 < |written[k]| <= LARGE_MEMBER_FRAME)
    && (forall k :: 0 <= k < |chunks| ==> Reads(codec, blob, chunks[k], written[k]))
    && Tiles(chunks, |blob|)
  }

  ghost predicate Reads(codec: Codec, blob: seq<byte>, c: Chunk, data: seq<byte>) {
    && c.offset + c.length <= |blob|
    && blob[c.offset..c.offset + c.length] == codec.encode(data)
    && c.decoded == |data|
  }

  /** The chunks cover `length` bytes in order, without gaps. */
  ghost predicate Tiles(chunks: seq<Chunk>, length: nat) {
    if chunks == [] then length == 0
    else
      var last := chunks[|chunks| - 1];
      last.offset + last.length == length && Tiles(chunks[..|chunks| - 1], last.offset)
  }

  ghost predicate AllPlaced(written: seq<seq<byte>>, open: seq<byte>, index: Index, kept: map<string, seq<byte>>) {
    && index.Keys == kept.Keys
    && forall name :: name in index && name in kept ==> Placed(written, open, index[name], kept[name])
  }

  lemma PlacedGrows(written: seq<seq<byte>>, open: seq<byte>, more: seq<byte>, p: Place, data: seq<byte>)
    requires Placed(written, open, p, data)
    ensures Placed(written, open + more, p, data)
  {
    if |data| <= LARGE_MEMBER_FRAME && p.chunk == |written| {
      assert (open + more)[p.offset..p.offset + |data|] == open[p.offset..p.offset + |data|];
    }
  }

  lemma PlacedWritten(written: seq<seq<byte>>, open: seq<byte>, p: Place, data: seq<byte>)
    requires Placed(written, open, p, data)
    ensures Placed(written + [open], [], p, data)
  {
    if |data| > LARGE_MEMBER_FRAME {
      var n := p.chunk + |Frames(data)|;
      assert (written + [open])[p.chunk..n] == written[p.chunk..n];
    }
  }

  lemma AllPlacedGrows(written: seq<seq<byte>>, open: seq<byte>, more: seq<byte>, index: Index, kept: map<string, seq<byte>>)
    requires AllPlaced(written, open, index, kept)
    ensures AllPlaced(written, open + more, index, kept)
  {
    forall name | name in index && name in kept ensures Placed(written, open + more, index[name], kept[name]) {
      PlacedGrows(written, open, more, index[name], kept[name]);
    }
  }

  lemma AllPlacedWritten(written: seq<seq<byte>>, open: seq<byte>, index: Index, kept: map<string, seq<byte>>)
    requires AllPlaced(written, open, index, kept)
    ensures AllPlaced(written + [open], [], index, kept)
  {
    forall name | name in index && name in kept ensures Placed(written + [open], [], index[name], kept[name]) {
      PlacedWritten(written, open, index[name], kept[name]);
    }
  }

  lemma FramesNext(written: seq<seq<byte>>, frame: seq<byte>, more: seq<seq<byte>>)
    ensures written + ([frame] + more) == written + [frame] + more
  {
  }

  /** A small member placed at the end of the open chunk. */
  lemma SmallPlaced(written: seq<seq<byte>>, open: seq<byte>, index: Index, kept: map<string, seq<byte>>, m: Member)
    requires AllPlaced(written, open, index, kept) && |m.data| <= LARGE_MEMBER_FRAME
    ensures AllPlaced(written, open + m.data, index[m.name := Place(|written|, |open|, |m.data|)], kept[m.name := m.data])
  {
    AllPlacedGrows(written, open, m.data, index, kept);
    assert (open + m.data)[|open|..] == m.data;
    assert Placed(written, open + m.data, Place(|written|, |open|, |m.data|), m.data);
  }

  /** A large member whose frames have just been written. */
  lemma LargePlaced(
    before: seq<seq<byte>>, written: seq<seq<byte>>, index: Index, kept: map<string, seq<byte>>, m: Member)
    requires AllPlaced(written, [], index, kept) && |m.data| > LARGE_MEMBER_FRAME
    requires written == before + Frames(m.data)
    ensures AllPlaced(written, [], index[m.name := Place(|before|, 0, |m.data|)], kept[m.name := m.data])
  {
    assert written[|before|..] == Frames(m.data);
    assert Placed(written, [], Place(|before|, 0, |m.data|), m.data);
  }

  lemma HoldsPush(codec: Codec, written: seq<seq<byte>>, chunks: seq<Chunk>, blob: seq<byte>, data: seq<byte>)
    requires Holds(codec, written, chunks, blob) && 0 < |data| <= LARGE_MEMBER_FRAME
    ensures var frame := codec.encode(data);
            Holds(codec, written + [data], chunks + [Chunk(|blob|, |frame|, |data|)], blob + frame)
  {
    var frame := codec.encode(data);
    var c := Chunk(|blob|, |frame|, |data|);
    var chunks', blob', written' := chunks + [c], blob + frame, written + [data];
    forall k | 0 <= k < |chunks'| ensures Reads(codec, blob', chunks'[k], written'[k]) {
      if k < |chunks| {
        assert Reads(codec, blob, chunks[k], written[k]);
        var from, to := chunks[k].offset, chunks[k].offset + chunks[k].length;
        assert blob'[from..to] == blob[from..to];
      } else {
        assert blob'[|blob|..] == frame;
      }
    }
    assert chunks'[..|chunks' | - 1] == chunks;
  }

  // ----- The reader -----

  function DecodeChunk(codec: Codec, input: seq<byte>, expected: nat): Option<seq<byte>> {
    if expected > MAX_PACKAGE_CHUNK_BYTES then None
    else
      match codec.decode(input)
      case None => None
      case Some(data) => if |data| == expected then Some(data) else None
  }

  /** The next frames, decoded, until `length` bytes are there. */
  function DecodeFrames(codec: Codec, blob: seq<byte>, chunks: seq<Chunk>, at: nat, length: nat): Option<seq<byte>>
    decreases |chunks| - at
  {
    if length == 0 then Some([])
    else if at >= |chunks| then None
    else
      var c := chunks[at];
      if c.offset + c.length > |blob| || c.decoded > length then None
      else
        match codec.decode(blob[c.offset..c.offset + c.length])
        case None => None
        case Some(data) =>
          if |data| != c.decoded then None
          else
            match DecodeFrames(codec, blob, chunks, at + 1, length - c.decoded)
            case None => None
            case Some(rest) => Some(data + rest)
  }

  function ReadMember(codec: Codec, blob: seq<byte>, chunks: seq<Chunk>, p: Place): Option<seq<byte>> {
    if p.chunk >= |chunks| then None
    else
      var c, end := chunks[p.chunk], p.offset + p.length;
      if end > c.decoded then
        if p.offset != 0 || end > MAX_PACKAGE_CHUNK_BYTES then None
        else DecodeFrames(codec, blob, chunks, p.chunk, end)
      else if c.offset + c.length > |blob| then None
      else
        match DecodeChunk(codec, blob[c.offset..c.offset + c.length], c.decoded)
        case None => None
        case Some(data) => if end <= |data| then Some(data[p.offset..end]) else None
  }

  /** The frames of nonempty data are its first frame and the frames of what remains. */
  lemma FramesHead(data: seq<byte>)
    requires data != []
    ensures var frame := First(data, LARGE_MEMBER_FRAME);
            frame != [] && Frames(data) == [frame] + Frames(data[|frame|..])
  {
  }

  lemma NextFrames(written: seq<seq<byte>>, at: nat, frame: seq<byte>, more: seq<seq<byte>>)
    requires at + 1 + |more| <= |written| && written[at..at + 1 + |more|] == [frame] + more
    ensures written[at] == frame && written[at + 1..at + 1 + |more|] == more
  {
    assert written[at] == written[at..at + 1 + |more|][0];
    assert written[at + 1..at + 1 + |more|] == written[at..at + 1 + |more|][1..];
  }

  lemma FramesFollow(written: seq<seq<byte>>, at: nat, data: seq<byte>)
    requires data != [] && at + |Frames(data)| <= |written| && written[at..at + |Frames(data)|] == Frames(data)
    ensures var frame := First(data, LARGE_MEMBER_FRAME);
            var rest := data[|frame|..];
            && at < |written| && written[at] == frame && at + 1 + |Frames(rest)| <= |written|
            && written[at + 1..at + 1 + |Frames(rest)|] == Frames(rest)
  {
    var frame := First(data, LARGE_MEMBER_FRAME);
    FramesHead(data);
    NextFrames(written, at, frame, Frames(data[|frame|..]));
  }

  lemma DecodeFramesStep(codec: Codec, blob: seq<byte>, chunks: seq<Chunk>, at: nat, frame: seq<byte>, rest: seq<byte>)
    requires codec.Valid() && at < |chunks| && Reads(codec, blob, chunks[at], frame) && frame != []
    requires DecodeFrames(codec, blob, chunks, at + 1, |rest|) == Some(rest)
    ensures DecodeFrames(codec, blob, chunks, at, |frame + rest|) == Some(frame + rest)
  {
    assert codec.decode(codec.encode(frame)) == Some(frame);
  }

  lemma {:induction false} DecodeFramesExact(
    codec: Codec, written: seq<seq<byte>>, chunks: seq<Chunk>, blob: seq<byte>, at: nat, data: seq<byte>)
    requires codec.Valid() && Holds(codec, written, chunks, blob)
    requires at + |Frames(data)| <= |written| && written[at..at + |Frames(data)|] == Frames(data)
    ensures DecodeFrames(codec, blob, chunks, at, |data|) == Some(data)
    decreases |data|
  {
    if data != [] {
      var frame := First(data, LARGE_MEMBER_FRAME);
      var rest := data[|frame|..];
      FramesFollow(written, at, data);
      assert Reads(codec, blob, chunks[at], written[at]);
      DecodeFramesExact(codec, written, chunks, blob, at + 1, rest);
      assert data == frame + rest;
      DecodeFramesStep(codec, blob, chunks, at, frame, rest);
    }
  }

  /**
   A placed member whose chunk has been written is read back byte for byte exactly when it is no
   longer than the reader's limit of 128 MiB.
   */
  lemma ReadExact(
    codec: Codec, written: seq<seq<byte>>, chunks: seq<Chunk>, blob: seq<byte>, p: Place, data: seq<byte>)
    requires codec.Valid() && Holds(codec, written, chunks, blob)
    requires Placed(written, [], p, data) && p.chunk < |chunks|
    ensures ReadMember(codec, blob, chunks, p) == if |data| <= MAX_PACKAGE_CHUNK_BYTES then Some(data) else None
  {
    assert Reads(codec, blob, chunks[p.chunk], written[p.chunk]);
    if |data| > LARGE_MEMBER_FRAME {
      assert chunks[p.chunk].decoded <= LARGE_MEMBER_FRAME;
      if |data| <= MAX_PACKAGE_CHUNK_BYTES {
        DecodeFramesExact(codec, written, chunks, blob, p.chunk, data);
      }
    } else {
      assert codec.decode(codec.encode(written[p.chunk])) == Some(written[p.chunk]);
    }
  }

  // ----- The layout -----

  /** The chunks written and the open one, before encoding, and the places of the members. */
  datatype Layout = Layout(written: seq<seq<byte>>, open: seq<byte>, index: Index)

  function Close(l: Layout): Layout {
    if l.open == [] then l else Layout(l.written + [l.open], [], l.index)
  }

  /** A member that does not fit beside the others starts a chunk; a large one takes chunks of its own. */
  function PlaceMember(l: Layout, m: Member): Layout {
    if m.name in l.index then l
    else
      var at := if l.open != [] && |l.open| + |m.data| > CHUNK_TARGET then Close(l) else l;
      var index := at.index[m.name := Place(|at.written|, |at.open|, |m.data|)];
      if |m.data| > LARGE_MEMBER_FRAME then Layout(at.written + Frames(m.data), [], index)
      else
        var joined := Layout(at.written, at.open + m.data, index);
        if |joined.open| >= CHUNK_TARGET then Close(joined) else joined
  }

  function LayoutOf(members: seq<Member>): Layout {
    if members == [] then Layout([], [], map[])
    else PlaceMember(LayoutOf(members[..|members| - 1]), members[|members| - 1])
  }

  // ----- The packer -----

  class Packer {
    const codec: Codec
    var blob: seq<byte>
    var chunks: seq<Chunk>
    var chunk: seq<byte>
    var index: Index
    /** The chunks before encoding, and the members kept. */
    ghost var written: seq<seq<byte>>
    ghost var kept: map<string, seq<byte>>

    ghost predicate Valid()
      reads this
    {
      && Holds(codec, written, chunks, blob)
      && AllPlaced(written, chunk, index, kept)
      && |chunk| <= LARGE_MEMBER_FRAME
    }

    ghost function State(): Layout
      reads this
    {
      Layout(written, chunk, index)
    }

    constructor (codec: Codec)
      ensures Valid() && this.codec == codec && kept == map[] && State() == Layout([], [], map[])
    {
      this.codec := codec;
      blob, chunks, chunk, index := [], [], [], map[];
      written, kept := [], map[];
    }

    method WriteChunk()
      requires Valid()
      modifies `blob, `chunks, `chunk, `written
      ensures Valid() && chunk == [] && State() == Close(old(State()))
    {
      if chunk == [] {
        return;
      }
      HoldsPush(codec, written, chunks, blob, chunk);
      AllPlacedWritten(written, chunk, index, kept);
      var frame := codec.encode(chunk);
      chunks := chunks + [Chunk(|blob|, |frame|, |chunk|)];
      blob := blob + frame;
      written := written + [chunk];
      chunk := [];
    }

    /** Add a member, unless its name is taken. */
    method Add(m: Member)
      requires Valid() && |chunk| < CHUNK_TARGET
      modifies this
      ensures Valid() && |chunk| < CHUNK_TARGET
      ensures kept == if m.name in old(kept) then old(kept) else old(kept)[m.name := m.data]
      ensures State() == PlaceMember(old(State()), m)
    {
      if m.name in index {
        return;
      }
      if chunk != [] && |chunk| + |m.data| > CHUNK_TARGET {
        WriteChunk();
      }
      if |m.data| > LARGE_MEMBER_FRAME {
        AddLarge(m);
      } else {
        AddSmall(m);
      }
    }

    /** The member joins the open chunk, which is written once it is full. */
    method AddSmall(m: Member)
      requires Valid() && m.name !in index && |m.data| <= LARGE_MEMBER_FRAME
      requires chunk == [] || |chunk| + |m.data| <= CHUNK_TARGET
      modifies this
      ensures Valid() && |chunk| < CHUNK_TARGET
      ensures kept == old(kept)[m.name := m.data]
      ensures State() == PlaceMember(old(State()), m)
    {
      var p := Place(|chunks|, |chunk|, |m.data|);
      SmallPlaced(written, chunk, index, kept, m);
      index := index[m.name := p];
      chunk := chunk + m.data;
      kept := kept[m.name := m.data];
      if |chunk| >= CHUNK_TARGET {
        WriteChunk();
      }
    }

    /** One frame of a large member becomes a chunk. */
    method WriteFrame(frame: seq<byte>)
      requires Valid() && chunk == [] && 0 < |frame| <= LARGE_MEMBER_FRAME
      modifies `blob, `chunks, `chunk, `written
      ensures Valid() && chunk == [] && written == old(written) + [frame]
    {
      AllPlacedGrows(written, [], frame, index, kept);
      assert [] + frame == frame;
      chunk := frame;
      WriteChunk();
    }

    method WriteFrames(data: seq<byte>)
      requires Valid() && chunk == []
      modifies `blob, `chunks, `chunk, `written
      ensures Valid() && chunk == [] && written == old(written) + Frames(data)
    {
      var rest := data;
      while rest != []
        invariant Valid() && chunk == []
        invariant written + Frames(rest) == old(written) + Frames(data)
        decreases |rest|
      {
        var frame := First(rest, LARGE_MEMBER_FRAME);
        FramesHead(rest);
        FramesNext(written, frame, Frames(rest[|frame|..]));
        WriteFrame(frame);
        rest := rest[|frame|..];
      }
      assert written + [] == written;
    }

    method Record(m: Member, p: Place)
      requires Holds(codec, written, chunks, blob) && |chunk| <= LARGE_MEMBER_FRAME
      requires AllPlaced(written, chunk, index[m.name := p], kept[m.name := m.data])
      modifies `index, `kept
      ensures Valid() && index == old(index)[m.name := p] && kept == old(kept)[m.name := m.data]
    {
      index := index[m.name := p];
      kept := kept[m.name := m.data];
    }

    /** The member fills chunks of its own, one frame each. */
    method AddLarge(m: Member)
      requires Valid() && m.name !in index && |m.data| > LARGE_MEMBER_FRAME
      requires chunk == []
      modifies this
      ensures Valid() && chunk == []
      ensures kept == old(kept)[m.name := m.data]
      ensures State() == PlaceMember(old(State()), m)
    {
      ghost var before := written;
      var p := Place(|chunks|, 0, |m.data|);
      WriteFrames(m.data);
      LargePlaced(before, written, index, kept, m);
      assert |chunks| == |written|;
      Record(m, p);
    }
  }

  /** A chunk of the archive decodes to `data`. */
  ghost predicate ChunkReads(codec: Codec, blob: seq<byte>, c: Chunk, data: seq<byte>) {
    && c.offset + c.length <= |blob| && c.decoded == |data|
    && codec.decode(blob[c.offset..c.offset + c.length]) == Some(data)
  }

  lemma ChunksRead(codec: Codec, written: seq<seq<byte>>, chunks: seq<Chunk>, blob: seq<byte>)
    requires codec.Valid() && Holds(codec, written, chunks, blob)
    ensures forall k :: 0 <= k < |chunks| ==> ChunkReads(codec, blob, chunks[k], written[k])
  {
    forall k | 0 <= k < |chunks| ensures ChunkReads(codec, blob, chunks[k], written[k]) {
      assert Reads(codec, blob, chunks[k], written[k]);
    }
  }

  /**
   Pack a stream of members. The chunks decode to those of the layout. The chunks tile the archive, none decodes to more than 1 MiB, and each
   kept member that has a byte, or shares its chunk with one, is read back byte for byte if it has at
   most 128 MiB, and not at all if it has more.
   */
  method Pack(codec: Codec, members: seq<Member>) returns (blob: seq<byte>, chunks: seq<Chunk>, index: Index)
    requires codec.Valid()
    ensures Tiles(chunks, |blob|)
    ensures forall k :: 0 <= k < |chunks| ==> 0 < chunks[k].decoded <= LARGE_MEMBER_FRAME
    ensures index == LayoutOf(members).index && |chunks| == |Close(LayoutOf(members)).written|
    ensures forall k :: 0 <= k < |chunks| ==> ChunkReads(codec, blob, chunks[k], Close(LayoutOf(members)).written[k])
    ensures index.Keys == FirstWins(members).Keys
    ensures forall name :: name in index ==>
              var data := FirstWins(members)[name];
              && index[name].length == |data|
              && (data != [] ==> index[name].chunk < |chunks|)
              && (0 < |data| <= LARGE_MEMBER_FRAME ==>
                   index[name].offset + |data| <= chunks[index[name].chunk].decoded)
              && (index[name].chunk < |chunks| ==>
                   ReadMember(codec, blob, chunks, index[name])
                   == if |data| <= MAX_PACKAGE_CHUNK_BYTES then Some(data) else None)
  {
    var packer := new Packer(codec);
    for n := 0 to |members|
      invariant packer.Valid() && packer.codec == codec && |packer.chunk| < CHUNK_TARGET
      invariant packer.kept == FirstWins(members[..n])
      invariant packer.State() == LayoutOf(members[..n])
    {
      assert members[..n + 1][..n] == members[..n];
      packer.Add(members[n]);
    }
    assert members[..|members|] == members;
    packer.WriteChunk();
    blob, chunks, index := packer.blob, packer.chunks, packer.index;
    ghost var kept, written := packer.kept, packer.written;
    ChunksRead(codec, written, chunks, blob);
    forall name | name in index
      ensures var data := kept[name];
              && index[name].length == |data|
              && (data != [] ==> index[name].chunk < |chunks|)
              && (0 < |data| <= LARGE_MEMBER_FRAME ==>
                   index[name].offset + |data| <= chunks[index[name].chunk].decoded)
              && (index[name].chunk < |chunks| ==>
                   ReadMember(codec, blob, chunks, index[name])
                   == if |data| <= MAX_PACKAGE_CHUNK_BYTES then Some(data) else None)
    {
      MemberReads(codec, written, chunks, blob, index[name], kept[name]);
    }
  }

  lemma MemberReads(
    codec: Codec, written: seq<seq<byte>>, chunks: seq<Chunk>, blob: seq<byte>, p: Place, data: seq<byte>)
    requires codec.Valid() && Holds(codec, written, chunks, blob) && Placed(written, [], p, data)
    ensures data != [] ==> p.chunk < |chunks|
    ensures 0 < |data| <= LARGE_MEMBER_FRAME ==> p.offset + |data| <= chunks[p.chunk].decoded
    ensures p.chunk < |chunks| ==>
              ReadMember(codec, blob, chunks, p) == if |data| <= MAX_PACKAGE_CHUNK_BYTES then Some(data) else None
  {
    if p.chunk < |chunks| {
      assert Reads(codec, blob, chunks[p.chunk], written[p.chunk]);
      ReadExact(codec, written, chunks, blob, p, data);
    }
  }

  /** The packer takes a member of one byte more than the reader's limit, and the reader refuses it. */
  method PackOversized(codec: Codec, name: string, data: seq<byte>)
    returns (blob: seq<byte>, chunks: seq<Chunk>, index: Index)
    requires codec.Valid() && |data| == MAX_PACKAGE_CHUNK_BYTES + 1
    ensures name in index && index[name].length == |data|
    ensures ReadMember(codec, blob, chunks, index[name]) == None
  {
    var members := [Member(name, data)];
    assert members[..0] == [];
    blob, chunks, index := Pack(codec, members);
  }
}

/** The capture buffer of scripts/bounded_capture.py as an object its caller feeds. */
module CaptureBuffers {
  import opened Wrappers
  import opened Bytes
  import opened Capture

  /** The structured record of a capture; the digest of the stream is not part of the model. */
  datatype CaptureRecord = CaptureRecord(
    bytes: nat, retained: nat, truncated: bool, maxBytes: nat,
    head: nat, tail: nat, marker: nat, errors: seq<string>)

  /** Scanning more of a stream only adds lines at the end. */
  lemma {:induction false} ScannedGrows(s: seq<byte>, more: seq<byte>)
    ensures Scanned(s) <= Scanned(s + more)
    decreases |more|
  {
    if more == [] {
      assert s + more == s;
    } else {
      var front, b := more[..|more| - 1], more[|more| - 1];
      ScannedGrows(s, front);
      assert s + more == s + front + [b];
      if b == NEWLINE {
        ScannedNewline(s + front);
      } else {
        ScannedExtend(s + front, [b]);
      }
    }
  }

  /** Once the limit is reached, the rest of the stream changes nothing. */
  lemma FullStays(m: Matcher, limit: int, s: seq<byte>, more: seq<byte>)
    requires |Collect(m, limit, Scanned(s))| >= limit
    ensures Collect(m, limit, Scanned(s + more)) == Collect(m, limit, Scanned(s))
  {
    ScannedGrows(s, more);
    var rest := Scanned(s + more)[|Scanned(s)|..];
    assert Scanned(s + more) == Scanned(s) + rest;
    CollectFull(m, limit, Scanned(s), rest);
  }

  // ----- The scanner as a value -----

  datatype Scanner = Scanner(line: seq<byte>, skip: bool, errors: seq<string>)

  /** The errors are a function of the scanned stream; until the limit, so is the open line. */
  ghost predicate Follows(m: Matcher, limit: int, st: Scanner, s: seq<byte>) {
    && |st.line| <= MAX_SCANNED_LINE_BYTES
    && st.errors == Collect(m, limit, Scanned(s))
    && (|st.errors| < limit ==>
         && st.skip == (|Rest(s)| > MAX_SCANNED_LINE_BYTES)
         && st.line == if st.skip then [] else Rest(s))
  }

  /** Bytes without a newline extend the open line, which is scanned once when it gets too long. */
  function PartTaken(m: Matcher, limit: int, st: Scanner, part: seq<byte>): Scanner {
    if st.skip then st
    else
      var room := MAX_SCANNED_LINE_BYTES - |st.line|;
      var line := st.line + First(part, room);
      if |part| > room then Scanner([], true, CollectStep(m, limit, st.errors, line))
      else st.(line := line)
  }

  /** A newline scans the open line unless it was scanned for its length. */
  function LineEnded(m: Matcher, limit: int, st: Scanner): Scanner {
    Scanner([], false, if st.skip then st.errors else CollectStep(m, limit, st.errors, st.line))
  }

  lemma CutExtends(rest: seq<byte>, part: seq<byte>)
    requires |rest| <= MAX_SCANNED_LINE_BYTES
    ensures rest + First(part, MAX_SCANNED_LINE_BYTES - |rest|) == Cut(rest + part)
  {
  }

  lemma PartTakenFollows(m: Matcher, limit: int, st: Scanner, s: seq<byte>, part: seq<byte>)
    requires Follows(m, limit, st, s) && NEWLINE !in part
    ensures Follows(m, limit, PartTaken(m, limit, st, part), s + part)
  {
    if |st.errors| >= limit {
      FullStays(m, limit, s, part);
    } else {
      ScannedExtend(s, part);
      LinesExtend(s, part);
      if !st.skip {
        CutExtends(Rest(s), part);
        CollectPush(m, limit, Scanned(s), Cut(Rest(s) + part));
      }
    }
  }

  lemma LineEndedFollows(m: Matcher, limit: int, st: Scanner, s: seq<byte>)
    requires Follows(m, limit, st, s)
    ensures Follows(m, limit, LineEnded(m, limit, st), s + [NEWLINE])
  {
    if |st.errors| >= limit {
      FullStays(m, limit, s, [NEWLINE]);
    } else {
      ScannedNewline(s);
      LinesNewline(s);
      CollectPush(m, limit, Scanned(s), Rest(s));
    }
    LinesNewline(s);
  }

  /** At the end of the stream an open line is scanned like any other. */
  lemma FinishedFollows(m: Matcher, limit: int, st: Scanner, s: seq<byte>)
    requires Follows(m, limit, st, s)
    ensures var errors := if st.line != [] && !st.skip then CollectStep(m, limit, st.errors, st.line) else st.errors;
            Follows(m, limit, Scanner([], false, errors), Closed(s))
  {
    if Rest(s) != [] {
      LineEndedFollows(m, limit, st, s);
    }
  }

  // ----- The kept bytes as values -----

  lemma FirstExtends(stream: seq<byte>, data: seq<byte>, limit: int)
    ensures var h := First(stream, limit);
            First(stream + data, limit) == h + First(data, limit - |h|)
  {
    var h := First(stream, limit);
    if limit > |stream| {
      assert First(stream + data, limit) == stream + First(data, limit - |stream|);
    }
  }

  lemma SplitExtends(stream: seq<byte>, data: seq<byte>, h: nat, taken: nat)
    requires h <= |stream| && taken <= |data| && (taken > 0 ==> h == |stream|)
    ensures (stream + data)[h + taken..] == stream[h..] + data[taken..]
  {
  }

  lemma LastDrops(a: seq<byte>, b: seq<byte>, n: nat)
    requires |b| >= n
    ensures Last(a + b, n) == Last(b, n)
  {
  }

  lemma CutFirst(parts: seq<seq<byte>>, k: nat)
    requires parts != [] && k <= |parts[0]|
    ensures Flatten([parts[0][k..]] + parts[1..]) == Flatten(parts)[k..]
  {
    assert ([parts[0][k..]] + parts[1..])[1..] == parts[1..];
  }

  lemma AppendSlice(before: seq<byte>, data: seq<byte>, from: nat, to: nat)
    requires from <= to <= |data|
    ensures before + data[..from] + data[from..to] == before + data[..to]
    ensures to == |data| ==> before + data[..to] == before + data
    ensures to == from + 1 ==> data[from..to] == [data[from]]
  {
  }

  lemma FlattenPush(chunks: seq<seq<byte>>, n: nat)
    requires n < |chunks|
    ensures Flatten(chunks[..n + 1]) == Flatten(chunks[..n]) + chunks[n]
  {
    assert chunks[..n + 1] == chunks[..n] + [chunks[n]];
    FlattenAppend(chunks[..n], [chunks[n]]);
    FlattenOne(chunks[n]);
  }

  lemma NothingPassed(passed: seq<byte>, rest: seq<byte>, limit: nat)
    requires rest == [] || limit == 0
    ensures Last(passed + rest, limit) == Last(passed, limit)
  {
    assert passed + [] == passed;
  }

  lemma SettleStep(
    marker: Marker, maxBytes: nat, total: nat, head: seq<byte>, tailData: seq<byte>, omitted: nat, turns: nat)
    requires |head| + |tailData| <= total && turns > 0
    ensures var a := Try(marker, maxBytes, head, tailData, omitted);
            var actual := total - |head| - |a.tail|;
            Settle(marker, maxBytes, total, head, tailData, omitted, turns)
            == if actual == omitted || turns == 1 then a
               else Settle(marker, maxBytes, total, head, tailData, actual, turns - 1)
  {
  }

  class CaptureBuffer {
    const maxBytes: nat
    const headBytes: int
    const headLimit: int
    const tailLimit: nat
    const pattern: Option<Matcher>
    const errorLimit: int
    const marker: Marker
    var totalBytes: nat
    var head: seq<byte>
    var tail: seq<seq<byte>>
    var tailSize: int
    var all: Option<seq<byte>>
    var line: seq<byte>
    var skipLine: bool
    var errors: seq<string>
    var seenErrors: set<string>
    /** Everything fed so far, and what the scanner made of it. */
    ghost var stream: seq<byte>
    ghost var scanned: seq<byte>

    ghost predicate Configured() {
      && headLimit == HeadLimit(maxBytes, headBytes)
      && tailLimit == TailLimit(maxBytes, headBytes)
    }

    /** The kept bytes are a function of the stream. */
    ghost predicate Keeps(s: seq<byte>)
      reads `all, `head, `tail, `tailSize
    {
      if maxBytes == 0 then all == Some(s) && head == [] && tail == [] && tailSize == 0
      else
        && all.None?
        && head == First(s, headLimit)
        && Flatten(tail) == Last(s[|head|..], tailLimit)
        && tailSize == |Flatten(tail)|
    }

    ghost function State(): Scanner
      reads `line, `skipLine, `errors
    {
      Scanner(line, skipLine, errors)
    }

    ghost predicate Scans(s: seq<byte>)
      reads `line, `skipLine, `errors, `seenErrors
    {
      && seenErrors == (set e | e in errors)
      && match pattern
         case None => errors == [] && line == []
         case Some(m) => Follows(m, errorLimit, State(), s)
    }

    ghost predicate Valid()
      reads this
    {
      Configured() && totalBytes == |stream| && Keeps(stream) && Scans(scanned)
    }

    constructor (maxBytes: nat, headBytes: int, pattern: Option<Matcher>, errorLimit: int, marker: Marker)
      ensures Valid() && stream == [] && scanned == []
      ensures this.maxBytes == maxBytes && this.headBytes == headBytes
      ensures this.pattern == pattern && this.errorLimit == errorLimit && this.marker == marker
    {
      this.maxBytes, this.headBytes := maxBytes, headBytes;
      this.pattern, this.errorLimit, this.marker := pattern, errorLimit, marker;
      headLimit := HeadLimit(maxBytes, headBytes);
      tailLimit := TailLimit(maxBytes, headBytes);
      totalBytes, head, tail, tailSize := 0, [], [], 0;
      all := if maxBytes == 0 then Some([]) else None;
      line, skipLine, errors, seenErrors := [], false, [], {};
      stream, scanned := [], [];
    }

    /** A negative size is refused. */
    static method Create(maxBytes: int, headBytes: int, pattern: Option<Matcher>, errorLimit: int)
      returns (r: Result<CaptureBuffer, string>)
      ensures maxBytes < 0 <==> r.Err?
      ensures r.Ok? ==>
                && fresh(r.value) && r.value.Valid() && r.value.stream == [] && r.value.scanned == []
                && r.value.maxBytes == maxBytes && r.value.headBytes == headBytes
                && r.value.pattern == pattern && r.value.errorLimit == errorLimit
                && r.value.marker == SourceMarker()
    {
      if maxBytes < 0 {
        return Err("max capture bytes must be non-negative");
      }
      var b := new CaptureBuffer(maxBytes, headBytes, pattern, errorLimit, SourceMarker());
      r := Ok(b);
    }

    /** The stream grows by `data`; what is kept and reported follows it. */
    method Feed(data: seq<byte>)
      requires Valid()
      modifies this
      ensures Valid()
      ensures stream == old(stream) + data && scanned == old(scanned) + data
    {
      if data == [] {
        assert stream + data == stream && scanned + data == scanned;
        return;
      }
      totalBytes := totalBytes + |data|;
      ScanLines(data);
      KeepAll(data);
      stream := stream + data;
    }

    /** Without a limit every byte is kept. */
    method KeepAll(data: seq<byte>)
      requires Configured() && Keeps(stream)
      modifies `all, `head, `tail, `tailSize
      ensures Keeps(stream + data)
    {
      if all.Some? {
        all := Some(all.value + data);
      } else {
        KeepBytes(data);
      }
    }

    /** The end of the stream ends an open line. */
    method Finish()
      requires Valid()
      modifies this
      ensures Valid()
      ensures stream == old(stream) && scanned == Closed(old(scanned))
    {
      FinishScan(Closed(scanned));
    }

    method FinishScan(ghost closed: seq<byte>)
      requires Scans(scanned) && closed == Closed(scanned)
      modifies `line, `skipLine, `errors, `seenErrors, `scanned
      ensures Scans(scanned) && scanned == closed
    {
      if pattern.Some? {
        FinishedFollows(pattern.value, errorLimit, State(), scanned);
      }
      if line != [] && !skipLine {
        ScanLine(line);
      }
      line := [];
      skipLine := false;
      scanned := closed;
    }

    /** At the end of a stream the errors are those of one scan over it. */
    lemma ReportedErrors(whole: seq<byte>)
      requires Valid() && scanned == Closed(whole)
      ensures errors == OneShotErrors(pattern, errorLimit, whole)
    {
      if pattern.Some? {
        ClosedErrors(pattern.value, errorLimit, whole);
      }
    }

    ghost function ErrorsAfterLine(found: seq<string>, text: seq<byte>): seq<string> {
      match pattern
      case None => found
      case Some(m) => CollectStep(m, errorLimit, found, text)
    }

    method ScanLine(text: seq<byte>)
      requires seenErrors == (set e | e in errors)
      modifies `errors, `seenErrors
      ensures seenErrors == (set e | e in errors)
      ensures errors == ErrorsAfterLine(old(errors), text)
    {
      if pattern.None? || |errors| >= errorLimit {
        return;
      }
      match pattern.value(text) {
        case None =>
        case Some(matched) =>
          var message := Message(matched);
          if message !in seenErrors {
            seenErrors := seenErrors + {message};
            errors := errors + [message];
          }
      }
    }

    method TakePart(part: seq<byte>)
      requires pattern.Some? && Scans(scanned) && NEWLINE !in part
      modifies `line, `skipLine, `errors, `seenErrors, `scanned
      ensures Scans(scanned) && scanned == old(scanned) + part
    {
      PartTakenFollows(pattern.value, errorLimit, State(), scanned, part);
      ghost var after := PartTaken(pattern.value, errorLimit, State(), part);
      if !skipLine {
        var room := MAX_SCANNED_LINE_BYTES - |line|;
        line := line + First(part, room);
        if |part| > room {
          ScanLine(line);
          line := [];
          skipLine := true;
        }
      }
      scanned := scanned + part;
      assert State() == after;
    }

    method EndLine()
      requires pattern.Some? && Scans(scanned)
      modifies `line, `skipLine, `errors, `seenErrors, `scanned
      ensures Scans(scanned) && scanned == old(scanned) + [NEWLINE]
    {
      LineEndedFollows(pattern.value, errorLimit, State(), scanned);
      ghost var after := LineEnded(pattern.value, errorLimit, State());
      if !skipLine {
        ScanLine(line);
      }
      line := [];
      skipLine := false;
      scanned := scanned + [NEWLINE];
      assert State() == after;
    }

    static method FindNewline(data: seq<byte>, pos: nat) returns (at: int)
      requires pos <= |data|
      ensures at < 0 ==> NEWLINE !in data[pos..]
      ensures at >= 0 ==> pos <= at < |data| && data[at] == NEWLINE && NEWLINE !in data[pos..at]
    {
      at := pos;
      while at < |data|
        invariant pos <= at <= |data|
        invariant NEWLINE !in data[pos..at]
      {
        if data[at] == NEWLINE {
          return;
        }
        at := at + 1;
      }
      assert data[pos..at] == data[pos..];
      at := -1;
    }

    method ScanLines(data: seq<byte>)
      requires Scans(scanned)
      modifies `line, `skipLine, `errors, `seenErrors, `scanned
      ensures Scans(scanned) && scanned == old(scanned) + data
    {
      if pattern.None? || |errors| >= errorLimit {
        if pattern.Some? {
          FullStays(pattern.value, errorLimit, scanned, data);
        }
        scanned := scanned + data;
        return;
      }
      ScanPieces(data);
    }

    /** The pieces between newlines, one after another. */
    method ScanPieces(data: seq<byte>)
      requires Scans(scanned) && pattern.Some?
      modifies `line, `skipLine, `errors, `seenErrors, `scanned
      ensures Scans(scanned) && scanned == old(scanned) + data
    {
      var pos := 0;
      ghost var before := scanned;
      assert scanned == before + data[..0];
      while pos < |data|
        invariant pos <= |data|
        invariant Scans(scanned) && scanned == before + data[..pos]
      {
        var newline := FindNewline(data, pos);
        var end := if newline < 0 then |data| else newline;
        AppendSlice(before, data, pos, end);
        TakePart(data[pos..end]);
        if newline < 0 {
          return;
        }
        AppendSlice(before, data, end, end + 1);
        EndLine();
        pos := newline + 1;
      }
    }

    /** The head fills first; what is left passes through the tail. */
    method KeepBytes(data: seq<byte>)
      requires Configured() && maxBytes > 0 && Keeps(stream)
      modifies `head, `tail, `tailSize
      ensures Keeps(stream + data)
    {
      ghost var passed := stream[|head|..];
      var taken := FillHead(data);
      PassToTail(data[taken..], passed);
    }

    /** The head takes what it still needs. */
    method FillHead(data: seq<byte>) returns (taken: nat)
      requires head == First(stream, headLimit)
      modifies `head
      ensures taken <= |data| && head == First(stream + data, headLimit)
      ensures (stream + data)[|head|..] == stream[|old(head)|..] + data[taken..]
    {
      FirstExtends(stream, data, headLimit);
      var need := headLimit - |head|;
      taken := if need <= 0 then 0 else if need < |data| then need else |data|;
      SplitExtends(stream, data, |head|, taken);
      if need > 0 {
        head := head + First(data, need);
      }
    }

    /** The bytes past the head join the tail, which keeps the last of them. */
    method PassToTail(rest: seq<byte>, ghost passed: seq<byte>)
      requires Flatten(tail) == Last(passed, tailLimit) && tailSize == |Flatten(tail)|
      modifies `tail, `tailSize
      ensures Flatten(tail) == Last(passed + rest, tailLimit) && tailSize == |Flatten(tail)|
    {
      if rest != [] && tailLimit != 0 {
        LastAppend(passed, rest, tailLimit);
        PushTail(rest);
      } else {
        NothingPassed(passed, rest, tailLimit);
      }
    }

    method PushTail(rest: seq<byte>)
      requires tailLimit > 0 && tailSize == |Flatten(tail)|
      modifies `tail, `tailSize
      ensures Flatten(tail) == Last(old(Flatten(tail)) + rest, tailLimit) && tailSize == |Flatten(tail)|
    {
      FlattenAppend(tail, [rest]);
      FlattenOne(rest);
      tail := tail + [rest];
      tailSize := tailSize + |rest|;
      TrimTail();
    }

    /** Drop whole chunks, then part of one, until `tailLimit` bytes are left. */
    method TrimTail()
      requires tailLimit > 0 && tailSize == |Flatten(tail)|
      modifies `tail, `tailSize
      ensures Flatten(tail) == Last(old(Flatten(tail)), tailLimit)
      ensures tailSize == |Flatten(tail)|
    {
      ghost var goal := Last(Flatten(tail), tailLimit);
      while tail != [] && tailSize - |tail[0]| >= tailLimit
        invariant tailSize == |Flatten(tail)|
        invariant Last(Flatten(tail), tailLimit) == goal
        decreases |tail|
      {
        LastDrops(tail[0], Flatten(tail[1..]), tailLimit);
        tailSize := tailSize - |tail[0]|;
        tail := tail[1..];
      }
      var overflow := tailSize - tailLimit;
      if overflow > 0 {
        CutFirst(tail, overflow);
        var first := tail[0];
        tail := [first[overflow..]] + tail[1..];
        tailSize := tailSize - overflow;
      }
    }

    predicate Truncated()
      reads this
    {
      maxBytes > 0 && totalBytes > maxBytes
    }

    /** The rendering is the one the whole stream determines. */
    method Rendered() returns (r: Rendering)
      requires Valid()
      ensures r == Render(marker, maxBytes, headBytes, stream)
    {
      if all.Some? {
        return Rendering(all.value, |all.value|, 0, 0, 0);
      }
      var tailData := Flatten(tail);
      if !Truncated() {
        return Rendering(head + tailData, |head|, |tailData|, 0, 0);
      }
      r := RenderedTruncated(tailData);
    }

    method RenderedTruncated(tailData: seq<byte>) returns (r: Rendering)
      requires tailSize == |tailData| && |head| + |tailData| <= totalBytes
      ensures r == RenderTruncated(marker, maxBytes, totalBytes, head, tailData)
    {
      var a := Settled(tailData, 3);
      r := Capture.Finish(maxBytes, head, a);
    }

    /** The loop that settles the printed count. */
    method Settled(tailData: seq<byte>, limit: nat) returns (a: Attempt)
      requires tailSize == |tailData| && |head| + |tailData| <= totalBytes && limit > 0
      ensures a == Settle(marker, maxBytes, totalBytes, head, tailData, totalBytes - |head| - |tailData|, limit)
    {
      a := SettleCount(marker, maxBytes, totalBytes, head, tailData, totalBytes - |head| - tailSize, limit);
    }

    static method SettleCount(
      marker: Marker, maxBytes: nat, total: nat, head: seq<byte>, tailData: seq<byte>, first: nat, limit: nat)
      returns (a: Attempt)
      requires |head| + |tailData| <= total && limit > 0
      ensures a == Settle(marker, maxBytes, total, head, tailData, first, limit)
    {
      var omitted: nat, turns := first, limit;
      a := Attempt(omitted, [], []);
      ghost var settled := Settle(marker, maxBytes, total, head, tailData, first, limit);
      while turns > 0
        invariant turns > 0 ==> Settle(marker, maxBytes, total, head, tailData, omitted, turns) == settled
        invariant turns == 0 ==> a == settled
      {
        a := OneTurn(marker, maxBytes, head, tailData, omitted);
        SettleStep(marker, maxBytes, total, head, tailData, omitted, turns);
        var actual := total - |head| - |a.tail|;
        if actual == omitted {
          break;
        }
        omitted := actual;
        turns := turns - 1;
      }
    }

    /** The marker for a count, and the end of the tail that fits beside it. */
    static method OneTurn(marker: Marker, maxBytes: nat, head: seq<byte>, tailData: seq<byte>, omitted: nat)
      returns (a: Attempt)
      ensures a == Try(marker, maxBytes, head, tailData, omitted)
    {
      var text := marker(omitted);
      var budget := if maxBytes - |head| - |text| > 0 then maxBytes - |head| - |text| else 0;
      var kept := if budget != 0 then Last(tailData, budget) else [];
      a := Attempt(omitted, text, kept);
    }

    method Metadata() returns (m: CaptureRecord)
      requires Valid()
      ensures m.bytes == |stream| && m.errors == errors && m.maxBytes == maxBytes
      ensures m.truncated <==> 0 < maxBytes < |stream|
      ensures var r := Render(marker, maxBytes, headBytes, stream);
              m.retained == |r.data| && m.head == r.head && m.tail == r.tail && m.marker == r.marker
    {
      var r := Rendered();
      m := CaptureRecord(totalBytes, |r.data|, Truncated(), maxBytes, r.head, r.tail, r.marker, errors);
    }
  }

  /** What is recorded of a captured stream. */
  function RecordOf(maxBytes: nat, headBytes: int, stream: seq<byte>, errors: seq<string>): CaptureRecord {
    var r := Render(SourceMarker(), maxBytes, headBytes, stream);
    CaptureRecord(|stream|, |r.data|, 0 < maxBytes < |stream|, maxBytes, r.head, r.tail, r.marker, errors)
  }

  datatype Captured = Captured(file: seq<byte>, record: CaptureRecord)

  method FeedAll(capture: CaptureBuffer, chunks: seq<seq<byte>>)
    requires capture.Valid() && capture.stream == [] && capture.scanned == []
    modifies capture
    ensures capture.Valid() && capture.stream == Flatten(chunks) && capture.scanned == Closed(Flatten(chunks))
  {
    assert chunks[..0] == [];
    for n := 0 to |chunks|
      invariant capture.Valid() && capture.stream == capture.scanned == Flatten(chunks[..n])
    {
      FlattenPush(chunks, n);
      capture.Feed(chunks[n]);
    }
    assert chunks[..|chunks|] == chunks;
    capture.Finish();
  }

  /** What a capture of a stream leaves: the file and its record. */
  function CaptureOf(
    maxBytes: nat, headBytes: int, pattern: Option<Matcher>, errorLimit: int, stream: seq<byte>): Captured
  {
    Captured(Render(SourceMarker(), maxBytes, headBytes, stream).data,
      RecordOf(maxBytes, headBytes, stream, OneShotErrors(pattern, errorLimit, stream)))
  }

  method Outcome(capture: CaptureBuffer) returns (r: Captured)
    requires capture.Valid() && capture.scanned == Closed(capture.stream) && capture.marker == SourceMarker()
    ensures r == CaptureOf(capture.maxBytes, capture.headBytes, capture.pattern, capture.errorLimit, capture.stream)
  {
    capture.ReportedErrors(capture.stream);
    var rendered := capture.Rendered();
    var record := capture.Metadata();
    r := Captured(rendered.data, record);
  }

  /**
   A capture of any chunks of a stream; a negative limit is refused. The file is the rendering of the stream,
   its record holds the sizes of that, and the errors are those of one scan over it, wherever the chunks were
   cut. Unless the head size is negative, a truncated file accounts for every byte of the stream.
   */
  method CaptureChunks(chunks: seq<seq<byte>>, maxBytes: int, headBytes: int, pattern: Option<Matcher>, errorLimit: int)
    returns (r: Result<Captured, string>)
    ensures r.Err? <==> maxBytes < 0
    ensures maxBytes >= 0 ==> r == Ok(CaptureOf(maxBytes, headBytes, pattern, errorLimit, Flatten(chunks)))
    ensures headBytes >= 0 && 0 < maxBytes < |Flatten(chunks)| ==>
              Accounted(SourceMarker(), maxBytes, Flatten(chunks),
                Render(SourceMarker(), maxBytes, headBytes, Flatten(chunks)))
  {
    if headBytes >= 0 && 0 < maxBytes < |Flatten(chunks)| {
      SourceRenderExact(maxBytes, headBytes, Flatten(chunks));
    }
    var created := CaptureBuffer.Create(maxBytes, headBytes, pattern, errorLimit);
    if created.Err? {
      return Err(created.error);
    }
    FeedAll(created.value, chunks);
    var captured := Outcome(created.value);
    r := Ok(captured);
  }
}

/**
 Bounded streaming capture (scripts/bounded_capture.py): a buffer fed arbitrary chunks keeps the
 head and the tail of the stream, scans it for error lines, and renders what it kept around a
 marker that states the number of omitted bytes.

 Every field is tied to the concatenation of the chunks, so nothing a caller can observe depends
 on where the stream was cut.
 */
module Capture {
  import opened Wrappers
  import opened Bytes

  const MAX_SCANNED_LINE_BYTES := 4096
  const NEWLINE: byte := 10

  // ----- Splitting a stream into lines -----

  /** The bytes after the last newline. */
  function Rest(s: seq<byte>): (r: seq<byte>)
    ensures |r| <= |s|
  {
    if s == [] || s[|s| - 1] == NEWLINE then [] else Rest(s[..|s| - 1]) + [s[|s| - 1]]
  }

  /** The newline-terminated lines, without their newlines. */
  function Lines(s: seq<byte>): seq<seq<byte>> {
    if s == [] then []
    else
      var front := s[..|s| - 1];
      if s[|s| - 1] == NEWLINE then Lines(front) + [Rest(front)] else Lines(front)
  }

  function Terminated(lines: seq<seq<byte>>): seq<seq<byte>> {
    seq(|lines|, i requires 0 <= i < |lines| => lines[i] + [NEWLINE])
  }

  lemma {:induction false} RestHasNoNewline(s: seq<byte>)
    ensures NEWLINE !in Rest(s)
  {
    if s != [] && s[|s| - 1] != NEWLINE {
      RestHasNoNewline(s[..|s| - 1]);
    }
  }

  /** The lines, each followed by a newline, and then the rest spell the stream; no line holds a newline. */
  lemma {:induction false} LinesSplit(s: seq<byte>)
    ensures Flatten(Terminated(Lines(s))) + Rest(s) == s
    ensures forall l :: l in Lines(s) ==> NEWLINE !in l
  {
    if s != [] {
      var front := s[..|s| - 1];
      assert s == front + [s[|s| - 1]];
      LinesSplit(front);
      if s[|s| - 1] == NEWLINE {
        RestHasNoNewline(front);
        var last := Rest(front) + [NEWLINE];
        assert Terminated(Lines(s)) == Terminated(Lines(front)) + [last];
        FlattenAppend(Terminated(Lines(front)), [last]);
        FlattenOne(last);
      }
    }
  }

  lemma {:induction false} LinesExtend(s: seq<byte>, part: seq<byte>)
    requires NEWLINE !in part
    ensures Lines(s + part) == Lines(s) && Rest(s + part) == Rest(s) + part
    decreases |part|
  {
    if part == [] {
      assert s + part == s;
    } else {
      var front := part[..|part| - 1];
      assert (s + part)[..|s + part| - 1] == s + front;
      LinesExtend(s, front);
      assert part == front + [part[|part| - 1]];
    }
  }

  lemma LinesNewline(s: seq<byte>)
    ensures Lines(s + [NEWLINE]) == Lines(s) + [Rest(s)] && Rest(s + [NEWLINE]) == []
  {
    assert (s + [NEWLINE])[..|s|] == s;
  }

  // ----- The errors of a stream -----

  /** Decoding a line, stripping it and matching the pattern: the stripped text if it matches. */
  type Matcher = seq<byte> -> Option<string>

  const MAX_MESSAGE := 160

  /** What is reported of a matching text. */
  function Message(text: string): string {
    First(text, MAX_MESSAGE)
  }

  function Cut(line: seq<byte>): seq<byte> {
    First(line, MAX_SCANNED_LINE_BYTES)
  }

  function CutAll(lines: seq<seq<byte>>): (cut: seq<seq<byte>>)
    ensures |cut| == |lines|
  {
    seq(|lines|, i requires 0 <= i < |lines| => Cut(lines[i]))
  }

  /** Match each line once, cut its text, drop repeated messages and stop at the limit. */
  function Collect(matcher: Matcher, limit: int, lines: seq<seq<byte>>): seq<string> {
    if lines == [] then []
    else
      var found := Collect(matcher, limit, lines[..|lines| - 1]);
      if |found| >= limit then found
      else
        match matcher(lines[|lines| - 1])
        case None => found
        case Some(text) => if Message(text) in found then found else found + [Message(text)]
  }

  /** The lines a scanner has seen so far: a long unterminated line is scanned as soon as it is known to be long. */
  function Scanned(s: seq<byte>): seq<seq<byte>> {
    CutAll(Lines(s)) + if |Rest(s)| > MAX_SCANNED_LINE_BYTES then [Cut(Rest(s))] else []
  }

  /** The stream as the scanner sees it at its end: an unterminated line is a line. */
  function Closed(s: seq<byte>): seq<byte> {
    if Rest(s) == [] then s else s + [NEWLINE]
  }

  /** The errors of a whole stream, found in one go. */
  function OneShotErrors(matcher: Option<Matcher>, limit: int, stream: seq<byte>): seq<string> {
    match matcher
    case None => []
    case Some(m) => Collect(m, limit, CutAll(Lines(stream)) + if Rest(stream) == [] then [] else [Cut(Rest(stream))])
  }

  function CollectStep(matcher: Matcher, limit: int, found: seq<string>, line: seq<byte>): seq<string> {
    if |found| >= limit then found
    else
      match matcher(line)
      case None => found
      case Some(text) => if Message(text) in found then found else found + [Message(text)]
  }

  lemma CollectPush(matcher: Matcher, limit: int, lines: seq<seq<byte>>, line: seq<byte>)
    ensures Collect(matcher, limit, lines + [line]) == CollectStep(matcher, limit, Collect(matcher, limit, lines), line)
  {
    assert (lines + [line])[..|lines|] == lines;
  }

  lemma {:induction false} CollectFull(matcher: Matcher, limit: int, lines: seq<seq<byte>>, more: seq<seq<byte>>)
    requires |Collect(matcher, limit, lines)| >= limit
    ensures Collect(matcher, limit, lines + more) == Collect(matcher, limit, lines)
    decreases |more|
  {
    if more == [] {
      assert lines + more == lines;
    } else {
      assert lines + more == lines + more[..|more| - 1] + [more[|more| - 1]];
      CollectFull(matcher, limit, lines, more[..|more| - 1]);
      CollectPush(matcher, limit, lines + more[..|more| - 1], more[|more| - 1]);
    }
  }

  /** Nothing is reported twice. */
  lemma {:induction false} CollectDistinct(matcher: Matcher, limit: int, lines: seq<seq<byte>>)
    ensures var e := Collect(matcher, limit, lines);
            (forall i, j :: 0 <= i < j < |e| ==> e[i] != e[j]) && (|e| <= limit || e == [])
  {
    if lines != [] {
      CollectDistinct(matcher, limit, lines[..|lines| - 1]);
    }
  }

  lemma CutAllPush(lines: seq<seq<byte>>, line: seq<byte>)
    ensures CutAll(lines + [line]) == CutAll(lines) + [Cut(line)]
  {
  }

  /** Reading `part`, which has no newline, scans a line only when it makes the open line too long. */
  lemma ScannedExtend(s: seq<byte>, part: seq<byte>)
    requires NEWLINE !in part
    ensures Scanned(s + part) ==
            if |Rest(s)| <= MAX_SCANNED_LINE_BYTES < |Rest(s)| + |part| then Scanned(s) + [Cut(Rest(s) + part)]
            else Scanned(s)
  {
    LinesExtend(s, part);
    if |Rest(s)| > MAX_SCANNED_LINE_BYTES {
      assert Cut(Rest(s) + part) == Cut(Rest(s));
    }
  }

  /** A newline scans the open line unless it was scanned for its length. */
  lemma ScannedNewline(s: seq<byte>)
    ensures Scanned(s + [NEWLINE]) ==
            if |Rest(s)| > MAX_SCANNED_LINE_BYTES then Scanned(s) else Scanned(s) + [Rest(s)]
  {
    LinesNewline(s);
    CutAllPush(Lines(s), Rest(s));
  }

  lemma ClosedErrors(m: Matcher, limit: int, stream: seq<byte>)
    ensures Collect(m, limit, Scanned(Closed(stream))) == OneShotErrors(Some(m), limit, stream)
  {
    if Rest(stream) != [] {
      LinesNewline(stream);
      CutAllPush(Lines(stream), Rest(stream));
      assert Scanned(Closed(stream)) == CutAll(Lines(stream)) + [Cut(Rest(stream))];
    }
  }

  // ----- Head and tail -----

  function HeadLimit(maxBytes: nat, headBytes: int): (h: int)
    ensures h <= maxBytes
  {
    if maxBytes == 0 then 0
    else
      var scaled := if maxBytes / 8 > 1 then maxBytes / 8 else 1;
      if headBytes < scaled then headBytes else scaled
  }

  function TailLimit(maxBytes: nat, headBytes: int): nat {
    if maxBytes == 0 then 0 else maxBytes - HeadLimit(maxBytes, headBytes)
  }

  lemma LastAppend(a: seq<byte>, b: seq<byte>, n: nat)
    ensures Last(Last(a, n) + b, n) == Last(a + b, n)
  {
    var t := Last(a, n);
    assert a == a[..|a| - |t|] + t;
    assert a + b == a[..|a| - |t|] + (t + b);
    var l := Last(t + b, n);
    assert l == (a + b)[|a + b| - |l|..];
  }

  // ----- The marker -----

  /** The marker that states an omitted count. */
  type Marker = nat -> seq<byte>

  function MarkerStart(): (m: seq<byte>)
    ensures |m| == 7
  {
    Ascii("\n\n[... ")
  }

  function MarkerUnit(): (m: seq<byte>)
    ensures |m| == 14
  {
    Ascii(" output bytes ")
  }

  function MarkerAgent(): (m: seq<byte>)
    ensures |m| == 16
  {
    Ascii("bounded capture ")
  }

  function MarkerEnd(): (m: seq<byte>)
    ensures |m| == 47
  {
    MarkerUnit() + Ascii("omitted by ") + MarkerAgent() + Ascii("...]\n\n")
  }

  function SourceMarker(): Marker {
    (omitted: nat) => MarkerStart() + NumeralBytes(omitted) + MarkerEnd()
  }

  function Width(marker: Marker, omitted: nat): nat {
    |marker(omitted)|
  }

  /**
   What the three turns rely on: a count larger by at most the width of its marker needs at most one
   byte more, and if it needs that byte, then the next count needs no further one.
   */
  ghost predicate GrowsSlowly(marker: Marker) {
    forall n: nat, m: nat :: SlowBetween(marker, n, m)
  }

  ghost predicate SlowBetween(marker: Marker, n: nat, m: nat) {
    && Width(marker, n) > 0
    && (n <= m <= n + Width(marker, n) ==>
          || Width(marker, m) == Width(marker, n)
          || Width(marker, m + 1) == Width(marker, m) == Width(marker, n) + 1)
  }

  lemma SourceMarkerWidth(n: nat)
    ensures Width(SourceMarker(), n) == 54 + |Numeral(n)|
  {
  }

  lemma SourceMarkerGrowsSlowly()
    ensures GrowsSlowly(SourceMarker())
  {
    forall n: nat, m: nat ensures SlowBetween(SourceMarker(), n, m) {
      SourceMarkerWidth(n);
      SourceMarkerWidth(m);
      SourceMarkerWidth(m + 1);
      if n <= m <= n + Width(SourceMarker(), n) {
        OneMoreDigit(n, m);
      }
    }
  }

  /** What a rendering holds: the file bytes, the raw head, tail and marker lengths, and the printed count. */
  datatype Rendering = Rendering(data: seq<byte>, head: nat, tail: nat, marker: nat, printed: nat)

  datatype Attempt = Attempt(printed: nat, marker: seq<byte>, tail: seq<byte>)

  /** One turn of the loop: print `omitted`, give the tail what is left, and count what is then omitted. */
  function Try(marker: Marker, maxBytes: nat, head: seq<byte>, tailData: seq<byte>, omitted: nat): Attempt {
    var text := marker(omitted);
    Attempt(omitted, text, Last(tailData, maxBytes - |head| - |text|))
  }

  /** At most `turns` turns, ending early once the printed count is the count. */
  function Settle(marker: Marker, maxBytes: nat, total: nat, head: seq<byte>, tailData: seq<byte>, omitted: nat, turns: nat): Attempt
    requires |head| + |tailData| <= total
    decreases turns
  {
    var a := Try(marker, maxBytes, head, tailData, omitted);
    var actual := total - |head| - |a.tail|;
    if actual == omitted || turns <= 1 then a else Settle(marker, maxBytes, total, head, tailData, actual, turns - 1)
  }

  /** A marker that does not fit beside the head gives way to the exact head. */
  function Finish(maxBytes: nat, head: seq<byte>, a: Attempt): Rendering {
    if |head| + |a.marker| > maxBytes then
      var data := First(head, maxBytes);
      Rendering(data, |data|, 0, 0, a.printed)
    else Rendering(head + a.marker + a.tail, |head|, |a.tail|, |a.marker|, a.printed)
  }

  const TURNS: nat := 3

  function RenderTruncated(marker: Marker, maxBytes: nat, total: nat, head: seq<byte>, tailData: seq<byte>): Rendering
    requires |head| + |tailData| <= total
  {
    Finish(maxBytes, head, Settle(marker, maxBytes, total, head, tailData, total - |head| - |tailData|, TURNS))
  }

  /** What the source renders for a stream, whatever its chunks were. */
  function Render(marker: Marker, maxBytes: nat, headBytes: int, stream: seq<byte>): Rendering {
    if maxBytes == 0 then Rendering(stream, |stream|, 0, 0, 0)
    else
      var head := First(stream, HeadLimit(maxBytes, headBytes));
      var tailData := Last(stream[|head|..], TailLimit(maxBytes, headBytes));
      if |stream| <= maxBytes then Rendering(head + tailData, |head|, |tailData|, 0, 0)
      else RenderTruncated(marker, maxBytes, |stream|, head, tailData)
  }

  /** A count at most a marker larger has at most one more digit, and then one byte more needs no further digit. */
  lemma OneMoreDigit(n: nat, m: nat)
    requires n <= m <= n + 54 + |Numeral(n)|
    ensures |Numeral(n)| <= |Numeral(m)| <= |Numeral(n)| + 1
    ensures |Numeral(m)| == |Numeral(n)| + 1 ==> |Numeral(m + 1)| == |Numeral(m)|
  {
    var d := |Numeral(n)|;
    NumeralLength(n, d);
    PowerAboveMarker(d);
    NumeralLength(m, d + 1);
    NumeralLength(m + 1, d + 1);
    NumeralLength(m + 1, d);
    NumeralLength(m, d);
    if d > 1 {
      NumeralLength(n, d - 1);
      NumeralLength(m, d - 1);
    }
  }

  lemma {:induction false} PowerAboveMarker(d: nat)
    requires d > 0
    ensures Power(10, d) + 54 + d < Power(10, d + 1)
  {
    if d == 1 {
      assert Power(10, 0) == 1 && Power(10, 1) == 10 && Power(10, 2) == 100;
    } else {
      PowerAboveMarker(d - 1);
    }
  }

  /** Within three turns the printed count is exact. */
  lemma SettleExact(marker: Marker, maxBytes: nat, total: nat, head: seq<byte>, tailData: seq<byte>) returns (a: Attempt)
    requires GrowsSlowly(marker)
    requires |head| + |tailData| == maxBytes < total
    ensures a == Settle(marker, maxBytes, total, head, tailData, total - |head| - |tailData|, TURNS)
    ensures |head| + a.printed + |a.tail| == total && a == Try(marker, maxBytes, head, tailData, a.printed)
    ensures RenderTruncated(marker, maxBytes, total, head, tailData) == Finish(maxBytes, head, a)
  {
    var n0 := total - |head| - |tailData|;
    var n1 := TurnCounts(marker, maxBytes, total, head, tailData, n0);
    assert SlowBetween(marker, n0, n1);
    var n2 := TurnCounts(marker, maxBytes, total, head, tailData, n1);
    var n3 := TurnCounts(marker, maxBytes, total, head, tailData, n2);
    assert n3 == n2;
    var a1, a2 := Try(marker, maxBytes, head, tailData, n1), Try(marker, maxBytes, head, tailData, n2);
    assert Settle(marker, maxBytes, total, head, tailData, n2, 1) == a2;
    assert Settle(marker, maxBytes, total, head, tailData, n1, 2) == if n2 == n1 then a1 else a2;
    a := Settle(marker, maxBytes, total, head, tailData, n0, TURNS);
  }

  /** What is omitted after printing `n`: the bytes the marker displaces come from the tail while it has any. */
  lemma TurnCounts(marker: Marker, maxBytes: nat, total: nat, head: seq<byte>, tailData: seq<byte>, n: nat) returns (actual: nat)
    requires |head| + |tailData| == maxBytes < total
    ensures actual == total - |head| - |Try(marker, maxBytes, head, tailData, n).tail|
    ensures var m := Width(marker, n);
            actual == total - maxBytes + if m < |tailData| then m else |tailData|
  {
    actual := total - |head| - |Try(marker, maxBytes, head, tailData, n).tail|;
  }

  /**
   The head of a rendering is the head of the stream and its tail the tail of the stream. With the
   marker, head, printed count and tail account for every byte and the file has exactly `maxBytes`
   bytes; without it, the file is the head alone.
   */
  ghost predicate Accounted(marker: Marker, maxBytes: nat, stream: seq<byte>, r: Rendering) {
    && |r.data| <= maxBytes
    && r.head <= |stream| && r.tail <= |stream|
    && if r.marker > 0 then
         && r.head + r.printed + r.tail == |stream|
         && |r.data| == maxBytes
         && r.data == stream[..r.head] + marker(r.printed) + stream[|stream| - r.tail..]
       else r.data == stream[..r.head]
  }

  lemma SettledAccounted(marker: Marker, maxBytes: nat, stream: seq<byte>, head: seq<byte>, tailData: seq<byte>)
    requires GrowsSlowly(marker)
    requires |head| + |tailData| == maxBytes < |stream|
    requires head <= stream && tailData == Last(stream[|head|..], maxBytes - |head|)
    ensures Accounted(marker, maxBytes, stream, RenderTruncated(marker, maxBytes, |stream|, head, tailData))
  {
    var a := SettleExact(marker, maxBytes, |stream|, head, tailData);
    FinishAccounted(marker, maxBytes, stream, head, tailData, a);
  }

  /** The rendering of every truncated stream accounts for its bytes. */
  lemma RenderTruncatedExact(marker: Marker, maxBytes: nat, headBytes: nat, stream: seq<byte>)
    requires GrowsSlowly(marker)
    requires 0 < maxBytes < |stream|
    ensures Accounted(marker, maxBytes, stream, Render(marker, maxBytes, headBytes, stream))
  {
    var head := First(stream, HeadLimit(maxBytes, headBytes));
    var tailData := Last(stream[|head|..], TailLimit(maxBytes, headBytes));
    SettledAccounted(marker, maxBytes, stream, head, tailData);
  }

  lemma FinishAccounted(
    marker: Marker, maxBytes: nat, stream: seq<byte>, head: seq<byte>, tailData: seq<byte>, a: Attempt)
    requires GrowsSlowly(marker)
    requires |head| + |tailData| == maxBytes < |stream|
    requires head <= stream && tailData == Last(stream[|head|..], maxBytes - |head|)
    requires a == Try(marker, maxBytes, head, tailData, a.printed)
    requires |head| + a.printed + |a.tail| == |stream|
    ensures Accounted(marker, maxBytes, stream, Finish(maxBytes, head, a))
  {
    LastOfTail(stream, |head|, maxBytes - |head|, maxBytes - |head| - |a.marker|);
    FinishParts(marker, maxBytes, stream, head, a);
  }

  lemma FinishParts(marker: Marker, maxBytes: nat, stream: seq<byte>, head: seq<byte>, a: Attempt)
    requires GrowsSlowly(marker)
    requires |head| <= maxBytes
    requires a.marker == marker(a.printed)
    requires |head| + |a.marker| <= maxBytes ==> |a.tail| == maxBytes - |head| - |a.marker|
    requires |head| + a.printed + |a.tail| == |stream|
    requires head <= stream && a.tail == stream[|stream| - |a.tail|..]
    ensures Accounted(marker, maxBytes, stream, Finish(maxBytes, head, a))
  {
    assert First(head, maxBytes) == head;
    assert SlowBetween(marker, a.printed, 0);
  }

  lemma LastOfTail(stream: seq<byte>, from: nat, n: nat, m: int)
    requires from <= |stream|
    ensures var t := Last(Last(stream[from..], n), m);
            t == stream[|stream| - |t|..]
  {
  }

  /** A stream that fits is rendered as it is. */
  lemma RenderWhole(marker: Marker, maxBytes: nat, headBytes: int, stream: seq<byte>)
    requires maxBytes == 0 || |stream| <= maxBytes
    ensures Render(marker, maxBytes, headBytes, stream).data == stream
  {
    if maxBytes > 0 {
      var head := First(stream, HeadLimit(maxBytes, headBytes));
      assert stream == head + stream[|head|..];
    }
  }

  /** With the marker of the source and a head size that is not negative, the printed count is always exact. */
  lemma SourceRenderExact(maxBytes: nat, headBytes: nat, stream: seq<byte>)
    requires 0 < maxBytes < |stream|
    ensures Accounted(SourceMarker(), maxBytes, stream, Render(SourceMarker(), maxBytes, headBytes, stream))
  {
    SourceMarkerGrowsSlowly();
    RenderTruncatedExact(SourceMarker(), maxBytes, headBytes, stream);
  }

  // ----- Negative head sizes, which the constructor accepts -----

  ghost predicate Widens(marker: Marker) {
    forall n: nat, m: nat :: n <= m ==> 0 < Width(marker, n) <= Width(marker, m)
  }

  lemma SourceMarkerWidens()
    ensures Widens(SourceMarker())
  {
    forall n: nat, m: nat | n <= m ensures 0 < Width(SourceMarker(), n) <= Width(SourceMarker(), m) {
      SourceMarkerWidth(n);
      SourceMarkerWidth(m);
      NumeralLength(n, |Numeral(m)|);
      NumeralLength(m, |Numeral(m)|);
    }
  }

  /** What is omitted once `n` has been printed and there is no head. */
  function Turn(marker: Marker, maxBytes: nat, over: nat, n: nat): nat {
    over + if Width(marker, n) < maxBytes then Width(marker, n) else maxBytes
  }

  /** The first count printed: none of the stream is head, and the tail holds more than the limit. */
  function FirstCount(over: nat, headBytes: int): nat {
    if over + headBytes > 0 then over + headBytes else 0
  }

  lemma NegativeParts(maxBytes: nat, headBytes: int, stream: seq<byte>)
    requires headBytes < 0 < maxBytes < |stream|
    ensures First(stream, HeadLimit(maxBytes, headBytes)) == [] && stream[0..] == stream
    ensures var tailData := Last(stream, TailLimit(maxBytes, headBytes));
            |tailData| >= maxBytes && |stream| - |tailData| == FirstCount(|stream| - maxBytes, headBytes)
  {
  }

  lemma RenderNegative(marker: Marker, maxBytes: nat, headBytes: int, stream: seq<byte>)
    requires headBytes < 0 < maxBytes < |stream|
    ensures var tailData := Last(stream, TailLimit(maxBytes, headBytes));
            var n := LastCount(marker, maxBytes, |stream| - maxBytes, FirstCount(|stream| - maxBytes, headBytes));
            Render(marker, maxBytes, headBytes, stream)
            == Finish(maxBytes, [], Try(marker, maxBytes, [], tailData, n))
  {
    var tailData := Last(stream, TailLimit(maxBytes, headBytes));
    NegativeParts(maxBytes, headBytes, stream);
    SettlesAt(marker, maxBytes, |stream|, tailData, FirstCount(|stream| - maxBytes, headBytes));
  }

  /** The count printed in the last turn. */
  function LastCount(marker: Marker, maxBytes: nat, over: nat, n0: nat): nat {
    var n1 := Turn(marker, maxBytes, over, n0);
    if n1 == n0 then n0 else Turn(marker, maxBytes, over, n1)
  }

  lemma SettlesAt(marker: Marker, maxBytes: nat, total: nat, tailData: seq<byte>, n0: nat)
    requires maxBytes <= |tailData| <= total
    ensures Settle(marker, maxBytes, total, [], tailData, n0, TURNS)
            == Try(marker, maxBytes, [], tailData, LastCount(marker, maxBytes, total - maxBytes, n0))
  {
    var over := total - maxBytes;
    var n1 := Turn(marker, maxBytes, over, n0);
    var n2 := Turn(marker, maxBytes, over, n1);
    assert total - |Try(marker, maxBytes, [], tailData, n0).tail| == n1;
    assert total - |Try(marker, maxBytes, [], tailData, n1).tail| == n2;
    assert Settle(marker, maxBytes, total, [], tailData, n2, 1) == Try(marker, maxBytes, [], tailData, n2);
    assert Settle(marker, maxBytes, total, [], tailData, n1, 2)
        == Try(marker, maxBytes, [], tailData, if n2 == n1 then n1 else n2);
  }

  lemma FinishNegative(marker: Marker, maxBytes: nat, stream: seq<byte>, tailData: seq<byte>, n: nat)
    requires Widens(marker) && 0 < maxBytes <= |tailData| <= |stream|
    requires tailData == stream[|stream| - |tailData|..]
    ensures Accounted(marker, maxBytes, stream, Finish(maxBytes, [], Try(marker, maxBytes, [], tailData, n)))
            <==> Width(marker, n) > maxBytes || n == |stream| - maxBytes + Width(marker, n)
  {
    var a := Try(marker, maxBytes, [], tailData, n);
    assert n <= n ==> 0 < Width(marker, n) <= Width(marker, n);
    assert a.tail == stream[|stream| - |a.tail|..];
    assert stream[..0] == [] && [] + a.marker == a.marker;
  }

  /**
   With a negative head size and markers that only widen, the rendering accounts for its bytes exactly
   when the marker of the third count is as long as that of the second, or is too long to be kept.
   */
  lemma WideningMarkerExact(marker: Marker, maxBytes: nat, headBytes: int, stream: seq<byte>)
    requires Widens(marker) && headBytes < 0 < maxBytes < |stream|
    ensures var over := |stream| - maxBytes;
            var second := over + Width(marker, FirstCount(over, headBytes));
            var third := over + Width(marker, second);
            Accounted(marker, maxBytes, stream, Render(marker, maxBytes, headBytes, stream))
            <==> Width(marker, third) == Width(marker, second) || Width(marker, third) > maxBytes
  {
    var over := |stream| - maxBytes;
    var n0 := FirstCount(over, headBytes);
    var tailData := Last(stream, TailLimit(maxBytes, headBytes));
    NegativeParts(maxBytes, headBytes, stream);
    RenderNegative(marker, maxBytes, headBytes, stream);
    var n := LastCount(marker, maxBytes, over, n0);
    FinishNegative(marker, maxBytes, stream, tailData, n);
    CountsWiden(marker, maxBytes, over, n0);
  }

  /** With the marker of the source. All three counts are known from the sizes alone. */
  lemma NegativeHeadExact(maxBytes: nat, headBytes: int, stream: seq<byte>)
    requires headBytes < 0 < maxBytes < |stream|
    ensures var marker, over := SourceMarker(), |stream| - maxBytes;
            var second := over + Width(marker, FirstCount(over, headBytes));
            var third := over + Width(marker, second);
            Accounted(marker, maxBytes, stream, Render(marker, maxBytes, headBytes, stream))
            <==> Width(marker, third) == Width(marker, second) || Width(marker, third) > maxBytes
  {
    SourceMarkerWidens();
    WideningMarkerExact(SourceMarker(), maxBytes, headBytes, stream);
  }

  lemma CountsWiden(marker: Marker, maxBytes: nat, over: nat, n0: nat)
    requires Widens(marker) && n0 < over
    ensures var second := over + Width(marker, n0);
            var third := over + Width(marker, second);
            var n := LastCount(marker, maxBytes, over, n0);
            (Width(marker, n) > maxBytes || n == over + Width(marker, n))
            <==> (Width(marker, third) == Width(marker, second) || Width(marker, third) > maxBytes)
  {
    var second := over + Width(marker, n0);
    var third := over + Width(marker, second);
    var n1 := Turn(marker, maxBytes, over, n0);
    var n2 := Turn(marker, maxBytes, over, n1);
    assert Width(marker, n0) <= Width(marker, n1) && Width(marker, n0) <= Width(marker, second);
    assert Width(marker, second) <= Width(marker, third);
    if Width(marker, n0) > maxBytes {
      assert Width(marker, n1) <= Width(marker, n2);
    } else {
      assert n1 == second;
      if Width(marker, second) <= maxBytes {
        assert n2 == third;
      } else {
        assert Width(marker, n1) <= Width(marker, n2);
      }
    }
  }

  lemma MarkerMiscounts(marker: Marker)
    requires Width(marker, 4) == 55 && Width(marker, 99) == 56 && Width(marker, 100) == 57
    ensures var r := Render(marker, 1000, -40, Repeat(65, 1044));
            r.marker > 0 && r.printed == 100 && r.head + r.printed + r.tail == 1043
  {
    var stream := Repeat(65 as byte, 1044);
    NegativeHeadTail(marker, stream);
    var tailData := Last(stream, 1040);
    var a0 := Try(marker, 1000, [], tailData, 4);
    var a1 := Try(marker, 1000, [], tailData, 99);
    var a2 := Try(marker, 1000, [], tailData, 100);
    assert |a0.tail| == 945 && |a1.tail| == 944 && |a2.tail| == 943;
    assert Settle(marker, 1000, 1044, [], tailData, 100, 1) == a2;
    assert Settle(marker, 1000, 1044, [], tailData, 99, 2) == a2;
    assert Settle(marker, 1000, 1044, [], tailData, 4, 3) == a2;
  }

  /** The marker of the source has the lengths of the miscounting run. */
  lemma SourceMarkerMiscounts()
    ensures var m := SourceMarker();
            Width(m, 4) == 55 && Width(m, 99) == 56 && Width(m, 100) == 57
  {
    assert Power(10, 0) == 1;
    assert Power(10, 1) == 10 && Power(10, 2) == 100 && Power(10, 3) == 1000;
    NumeralLength(4, 1);
    NumeralLength(99, 1);
    NumeralLength(99, 2);
    NumeralLength(100, 2);
    NumeralLength(100, 3);
    SourceMarkerWidth(4);
    SourceMarkerWidth(99);
    SourceMarkerWidth(100);
  }

  /** Such a size can make the count that the source prints wrong by one: 101 bytes are omitted. */
  lemma NegativeHeadMiscounts()
    ensures var r := Render(SourceMarker(), 1000, -40, Repeat(65, 1044));
            r.marker > 0 && r.printed == 100 && r.head + r.printed + r.tail == 1043
    ensures !Accounted(SourceMarker(), 1000, Repeat(65, 1044), Render(SourceMarker(), 1000, -40, Repeat(65, 1044)))
  {
    SourceMarkerMiscounts();
    MarkerMiscounts(SourceMarker());
  }

  lemma NegativeHeadTail(marker: Marker, stream: seq<byte>)
    requires |stream| == 1044
    ensures HeadLimit(1000, -40) == -40 && TailLimit(1000, -40) == 1040
    ensures Render(marker, 1000, -40, stream) == RenderTruncated(marker, 1000, 1044, [], Last(stream, 1040))
  {
    assert First(stream, -40) == [] && stream[0..] == stream;
  }
}

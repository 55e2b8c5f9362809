/**
 What a capture reports and keeps (scripts/bounded_capture.py), told of the lines and the sizes alone: each
 message once, at the first line that has it, up to the limit, and the sizes of head, marker and tail.
 */
module ReportedLines {
  import opened Wrappers
  import opened Bytes
  import opened Capture
  import opened CaptureBuffers

  // ----- Lines -----

  /** Lines that hold no newline and, each followed by one, spell the stream before a rest without any. */
  predicate AreLines(s: seq<byte>, lines: seq<seq<byte>>, rest: seq<byte>) {
    (forall l :: l in lines ==> NEWLINE !in l) && NEWLINE !in rest && s == Flatten(Terminated(lines)) + rest
  }

  lemma FlattenLast(before: seq<seq<byte>>, last: seq<byte>)
    ensures Flatten(before + [last + [NEWLINE]]) == Flatten(before) + last + [NEWLINE]
  {
    FlattenAppend(before, [last + [NEWLINE]]);
    FlattenOne(last + [NEWLINE]);
    assert Flatten(before) + (last + [NEWLINE]) == Flatten(before) + last + [NEWLINE];
  }

  lemma LinesLast(before: seq<byte>, last: seq<byte>)
    requires NEWLINE !in last && Rest(before) == []
    ensures Lines(before + last + [NEWLINE]) == Lines(before) + [last] && Rest(before + last + [NEWLINE]) == []
  {
    LinesExtend(before, last);
    LinesNewline(before + last);
    assert [] + last == last;
  }

  lemma {:induction false} LinesOfTerminated(lines: seq<seq<byte>>)
    requires forall l :: l in lines ==> NEWLINE !in l
    ensures Lines(Flatten(Terminated(lines))) == lines && Rest(Flatten(Terminated(lines))) == []
  {
    if lines != [] {
      var front, last := lines[..|lines| - 1], lines[|lines| - 1];
      LinesOfTerminated(front);
      assert Terminated(lines) == Terminated(front) + [last + [NEWLINE]];
      FlattenLast(Terminated(front), last);
      LinesLast(Flatten(Terminated(front)), last);
    }
  }

  /** A stream is cut into lines in one way. */
  lemma LinesExact(s: seq<byte>, lines: seq<seq<byte>>, rest: seq<byte>)
    ensures AreLines(s, lines, rest) <==> lines == Lines(s) && rest == Rest(s)
  {
    if AreLines(s, lines, rest) {
      LinesOfTerminated(lines);
      LinesExtend(Flatten(Terminated(lines)), rest);
      assert [] + rest == rest;
    }
    LinesSplit(s);
    RestHasNoNewline(s);
  }

  /** A line up to its 4096th byte. */
  predicate IsCut(line: seq<byte>, cut: seq<byte>) {
    cut <= line && (cut == line || |cut| == 4096) && |cut| <= 4096
  }

  lemma CutExact(line: seq<byte>, cut: seq<byte>)
    ensures cut == Cut(line) <==> IsCut(line, cut)
  {
  }

  // ----- Messages -----

  /** The message of the line at `i`: what matches there, up to its 160th character. */
  ghost predicate HasMessage(matcher: Matcher, lines: seq<seq<byte>>, i: nat, message: string) {
    i < |lines| && matcher(lines[i]).Some?
    && var text := matcher(lines[i]).value;
       message <= text && (message == text || |message| == 160) && |message| <= 160
  }

  /** The first line with its message. */
  ghost predicate IsNew(matcher: Matcher, lines: seq<seq<byte>>, i: nat) {
    exists message :: HasMessage(matcher, lines, i, message)
                      && forall j: nat :: j < i ==> !HasMessage(matcher, lines, j, message)
  }

  /** `messages` are those of the first lines with theirs, at `at`, of the first `n` lines and up to the limit. */
  ghost predicate Reported(
    matcher: Matcher, limit: int, lines: seq<seq<byte>>, n: nat, messages: seq<string>, at: seq<nat>)
  {
    && |at| == |messages| && (limit <= 0 ==> at == []) && (limit > 0 ==> |at| <= limit)
    && (forall i, j :: 0 <= i < j < |at| ==> at[i] < at[j])
    && (forall k :: 0 <= k < |at| ==>
          at[k] < n && IsNew(matcher, lines, at[k]) && HasMessage(matcher, lines, at[k], messages[k]))
    && forall i: nat :: i < n && IsNew(matcher, lines, i) ==>
         i in at || (|at| >= limit && forall k :: 0 <= k < |at| ==> at[k] < i)
  }

  lemma MessageExact(matcher: Matcher, lines: seq<seq<byte>>, i: nat, message: string)
    requires i < |lines|
    ensures HasMessage(matcher, lines, i, message)
            <==> matcher(lines[i]).Some? && message == Message(matcher(lines[i]).value)
  {
  }

  /** A line is new exactly if no line before it has its message. */
  lemma NewExact(matcher: Matcher, lines: seq<seq<byte>>, i: nat, message: string)
    requires HasMessage(matcher, lines, i, message)
    ensures IsNew(matcher, lines, i) <==> forall j: nat :: j < i ==> !HasMessage(matcher, lines, j, message)
  {
    MessageExact(matcher, lines, i, message);
    forall other | HasMessage(matcher, lines, i, other) ensures other == message {
      MessageExact(matcher, lines, i, other);
    }
  }

  /** The message of some line is that of a new one. */
  lemma {:induction false} FirstWith(matcher: Matcher, lines: seq<seq<byte>>, j: nat, message: string) returns (i: nat)
    requires HasMessage(matcher, lines, j, message)
    ensures i <= j && IsNew(matcher, lines, i) && HasMessage(matcher, lines, i, message)
    decreases j
  {
    if k: nat :| k < j && HasMessage(matcher, lines, k, message) {
      i := FirstWith(matcher, lines, k, message);
    } else {
      i := j;
    }
  }

  /** Below the limit, a line is new exactly if its message has not been reported. */
  lemma NewIffUnreported(
    matcher: Matcher, limit: int, lines: seq<seq<byte>>, n: nat, messages: seq<string>, at: seq<nat>, message: string)
    requires Reported(matcher, limit, lines, n, messages, at) && |at| < limit
    requires HasMessage(matcher, lines, n, message)
    ensures IsNew(matcher, lines, n) <==> message !in messages
  {
    NewExact(matcher, lines, n, message);
    if j: nat :| j < n && HasMessage(matcher, lines, j, message) {
      var i := FirstWith(matcher, lines, j, message);
      var k :| 0 <= k < |at| && at[k] == i;
      MessageExact(matcher, lines, i, message);
      MessageExact(matcher, lines, i, messages[k]);
      assert messages[k] in messages;
    }
  }

  lemma NoMessage(matcher: Matcher, lines: seq<seq<byte>>, i: nat)
    requires i < |lines| && matcher(lines[i]).None?
    ensures !IsNew(matcher, lines, i)
  {
  }

  /** Exactly the messages of new lines are reported, each once, in order, up to the limit. */
  lemma {:induction false} CollectExact(matcher: Matcher, limit: int, lines: seq<seq<byte>>, n: nat) returns (at: seq<nat>)
    requires n <= |lines|
    ensures Reported(matcher, limit, lines, n, Collect(matcher, limit, lines[..n]), at)
    decreases n
  {
    if n == 0 {
      at := [];
    } else {
      at := CollectExact(matcher, limit, lines, n - 1);
      assert lines[..n][..n - 1] == lines[..n - 1];
      var found, last := Collect(matcher, limit, lines[..n - 1]), matcher(lines[n - 1]);
      if |found| < limit && last.Some? {
        MessageExact(matcher, lines, n - 1, Message(last.value));
        NewIffUnreported(matcher, limit, lines, n - 1, found, at, Message(last.value));
        if Message(last.value) !in found {
          at := at + [n - 1];
        }
      } else if |found| < limit {
        NoMessage(matcher, lines, n - 1);
      }
    }
  }

  /**
   The errors of a stream are the messages of its lines, each up to its 4096th byte, a last one without a newline
   included if it has a byte.
   */
  lemma ErrorsExact(
    matcher: Matcher, limit: int, stream: seq<byte>, lines: seq<seq<byte>>, rest: seq<byte>, cut: seq<seq<byte>>)
    returns (at: seq<nat>)
    requires AreLines(stream, lines, rest)
    requires var all := lines + if rest == [] then [] else [rest];
             |cut| == |all| && forall i :: 0 <= i < |all| ==> IsCut(all[i], cut[i])
    ensures Reported(matcher, limit, cut, |cut|, OneShotErrors(Some(matcher), limit, stream), at)
  {
    LinesExact(stream, lines, rest);
    forall i | 0 <= i < |lines| ensures cut[i] == Cut(lines[i]) {
      CutExact(lines[i], cut[i]);
    }
    if rest != [] {
      CutExact(rest, cut[|lines|]);
    }
    assert cut == CutAll(lines) + if rest == [] then [] else [Cut(rest)];
    at := CollectExact(matcher, limit, cut, |cut|);
    assert cut[..|cut|] == cut;
  }

  // ----- Sizes -----

  /** The head takes an eighth of the limit, at least one byte, and no more than it was given. */
  lemma HeadLimitExact(maxBytes: nat, headBytes: int)
    ensures var h, t := HeadLimit(maxBytes, headBytes), TailLimit(maxBytes, headBytes);
            && h + t == maxBytes
            && if maxBytes == 0 then h == 0
               else
                 && h <= headBytes && (h <= 1 || 8 * h <= maxBytes)
                 && (h == headBytes || (h >= 1 && 8 * (h + 1) > maxBytes))
  {
  }

  lemma FinishSizes(marker: Marker, maxBytes: nat, head: seq<byte>, tailData: seq<byte>, a: Attempt)
    requires |head| <= maxBytes && a == Try(marker, maxBytes, head, tailData, a.printed)
    requires |tailData| == maxBytes - |head|
    ensures var r := Finish(maxBytes, head, a);
            var room := maxBytes - |head| - Width(marker, a.printed);
            && r.head == |head| && r.printed == a.printed
            && r.tail == |a.tail| == (if room > 0 then room else 0)
            && r.marker == if room >= 0 then Width(marker, a.printed) else 0
  {
  }

  /** A truncated stream loses what stands between its head and its tail, or all behind its head. */
  lemma SizesExact(marker: Marker, maxBytes: nat, headBytes: nat, stream: seq<byte>)
    requires GrowsSlowly(marker) && 0 < maxBytes < |stream|
    ensures var r := Render(marker, maxBytes, headBytes, stream);
            var room := maxBytes - HeadLimit(maxBytes, headBytes) - Width(marker, r.printed);
            && r.head == HeadLimit(maxBytes, headBytes)
            && r.head + r.printed + r.tail == |stream|
            && r.tail == (if room > 0 then room else 0)
            && r.marker == if room >= 0 then Width(marker, r.printed) else 0
  {
    var head := First(stream, HeadLimit(maxBytes, headBytes));
    var tailData := Last(stream[|head|..], TailLimit(maxBytes, headBytes));
    var a := SettleExact(marker, maxBytes, |stream|, head, tailData);
    FinishSizes(marker, maxBytes, head, tailData, a);
  }

  /** A stream that fits is split behind the head. */
  lemma WholeSizes(marker: Marker, maxBytes: nat, headBytes: int, stream: seq<byte>)
    requires maxBytes == 0 || |stream| <= maxBytes
    ensures var r := Render(marker, maxBytes, headBytes, stream);
            && r.head + r.tail == |stream| && r.marker == 0 && r.printed == 0
            && r.head == |First(stream, if maxBytes == 0 then |stream| else HeadLimit(maxBytes, headBytes))|
  {
  }

  /** The record gives the sizes of the stream and of what is kept of it. */
  lemma RecordExact(maxBytes: nat, headBytes: nat, pattern: Option<Matcher>, errorLimit: int, stream: seq<byte>)
    ensures var c := CaptureOf(maxBytes, headBytes, pattern, errorLimit, stream);
            && c.record.bytes == |stream| && c.record.maxBytes == maxBytes && c.record.retained == |c.file|
            && c.record.head + c.record.marker + c.record.tail == c.record.retained
            && (c.record.truncated <==> c.record.retained != c.record.bytes || c.file != stream)
            && (c.record.truncated ==> 0 < maxBytes && c.record.retained <= maxBytes < c.record.bytes)
            && (!c.record.truncated ==> c.file == stream && c.record.marker == 0)
            && (pattern == None ==> c.record.errors == [])
  {
    var marker := SourceMarker();
    if 0 < maxBytes < |stream| {
      SourceMarkerGrowsSlowly();
      SizesExact(marker, maxBytes, headBytes, stream);
      SourceRenderExact(maxBytes, headBytes, stream);
    } else {
      RenderWhole(marker, maxBytes, headBytes, stream);
      WholeSizes(marker, maxBytes, headBytes, stream);
    }
  }

  // ----- The marker -----

  lemma {:induction false} NumeralRead(n: nat)
    ensures NumeralValue(Numeral(n)) == n && (Numeral(n)[0] == '0' ==> Numeral(n) == "0")
  {
    if n >= 10 {
      NumeralRead(n / 10);
      var s := Numeral(n);
      assert s[..|s| - 1] == Numeral(n / 10);
      assert NumeralValue(Numeral(n)) == 10 * NumeralValue(Numeral(n / 10)) + n % 10;
    } else {
      assert Numeral(n)[..0] == [];
    }
  }

  const BEFORE_COUNT := "\n\n[... "

  function BehindCount(): string {
    " output bytes " + "omitted by " + "bounded capture " + "...]\n\n"
  }

  predicate Spells(bytes: seq<byte>, s: string) {
    |bytes| == |s| && forall i :: 0 <= i < |s| ==> bytes[i] == s[i] as int
  }

  lemma SpellsAppend(a: seq<byte>, s: string, b: seq<byte>, t: string)
    requires Spells(a, s) && Spells(b, t)
    ensures Spells(a + b, s + t)
  {
  }

  lemma MarkerEndSpelt()
    ensures Spells(MarkerEnd(), BehindCount())
  {
    var a, b, c, d := MarkerUnit(), Ascii("omitted by "), MarkerAgent(), Ascii("...]\n\n");
    SpellsAppend(a, " output bytes ", b, "omitted by ");
    SpellsAppend(a + b, " output bytes " + "omitted by ", c, "bounded capture ");
    SpellsAppend(a + b + c, " output bytes " + "omitted by " + "bounded capture ", d, "...]\n\n");
  }

  /** The marker is its text around digits that read as the omitted count and start with no zero but its own. */
  lemma MarkerExact(omitted: nat) returns (digits: string)
    ensures AllDigits(digits) && NumeralValue(digits) == omitted
    ensures digits != [] && (digits[0] == '0' ==> digits == "0")
    ensures Spells(SourceMarker()(omitted), BEFORE_COUNT + digits + BehindCount())
  {
    digits := Numeral(omitted);
    NumeralRead(omitted);
    MarkerEndSpelt();
    SpellsAppend(MarkerStart(), BEFORE_COUNT, NumeralBytes(omitted), digits);
    SpellsAppend(MarkerStart() + NumeralBytes(omitted), BEFORE_COUNT + digits, MarkerEnd(), BehindCount());
  }
}

/** What a reader thread of `xtask/src/native_smoke.rs` retains: a bounded prefix of the
    stream, an overflow flag and two rings of trace lines. */
module Capture {
  import opened Prelude
  import Refs

  const RETAINED_OUTPUT_BYTES: nat := 16 * 1024
  const RETAINED_TRACE_LINES: nat := 64
  const RETAINED_TRACE_LINE_BYTES: nat := 512
  const NEWLINE: byte := '\n' as int
  const STAGE_MARKER := "SMOKE_TRACE stage="
  const RESIZE_MARKER := "event=resize"

  /** `String::from_utf8_lossy(..).trim_end()`, about which nothing is assumed. */
  type Render = Str -> Str

  // ----- Retained bytes ---------------------------------------------------------------

  /** The bytes kept of a whole stream. */
  function Kept(stream: seq<byte>): (kept: seq<byte>)
    ensures |kept| == Min(|stream|, RETAINED_OUTPUT_BYTES) && kept <= stream
  {
    stream[..Min(|stream|, RETAINED_OUTPUT_BYTES)]
  }

  /** How many of `bytes` still fit: `retain`. */
  function Room(buffer: seq<byte>, bytes: seq<byte>): (n: nat)
    ensures n <= |bytes|
  {
    Min(|bytes|, if |buffer| < RETAINED_OUTPUT_BYTES then RETAINED_OUTPUT_BYTES - |buffer| else 0)
  }

  function Retain(buffer: seq<byte>, bytes: seq<byte>): seq<byte> {
    buffer + bytes[..Room(buffer, bytes)]
  }

  /** Retaining one more chunk keeps the prefix of the longer stream, and drops a byte exactly
      when that stream is too long. */
  lemma RetainExtends(stream: seq<byte>, bytes: seq<byte>)
    ensures Retain(Kept(stream), bytes) == Kept(stream + bytes)
    ensures bytes != [] ==> (Room(Kept(stream), bytes) != |bytes| <==> |stream + bytes| > RETAINED_OUTPUT_BYTES)
  {
  }

  // ----- Lines ---------------------------------------------------------------------------

  function Cap(line: seq<byte>): Str {
    line[..Min(|line|, RETAINED_TRACE_LINE_BYTES)]
  }

  datatype Scanned = Scanned(lines: seq<Str>, line: Str)

  /** One byte of the inner loop of `read_stream`. */
  function ScanByte(line: Str, b: byte): Str {
    if |line| < RETAINED_TRACE_LINE_BYTES then line + [b] else line
  }

  /** The inner loop: the lines completed by `bytes`, and the line left open. */
  function Scan(line: Str, bytes: seq<byte>): Scanned
    decreases |bytes|
  {
    if bytes == [] then Scanned([], line)
    else
      var before := Scan(line, bytes[..|bytes| - 1]);
      var b := bytes[|bytes| - 1];
      if b == NEWLINE then Scanned(before.lines + [before.line], [])
      else Scanned(before.lines, ScanByte(before.line, b))
  }

  lemma {:induction false} ScanAppend(line: Str, a: seq<byte>, b: seq<byte>)
    ensures Scan(line, a + b)
         == Scanned(Scan(line, a).lines + Scan(Scan(line, a).line, b).lines, Scan(Scan(line, a).line, b).line)
    decreases |b|
  {
    if b == [] {
      assert a + b == a;
    } else {
      var n := |b| - 1;
      assert (a + b)[..|a| + n] == a + b[..n];
      ScanAppend(line, a, b[..n]);
    }
  }

  const IsNewline: byte -> bool := (c: byte) => c == NEWLINE

  /** The lines of a stream, the last one possibly unterminated, each cut to its first 512 bytes. */
  function CappedLines(stream: seq<byte>): (lines: seq<Str>)
    ensures |lines| > 0
  {
    Refs.SplitIsSplit(stream, 0, |stream|, IsNewline);
    var pieces := Refs.Split(stream, 0, |stream|, IsNewline);
    seq(|pieces|, k requires 0 <= k < |pieces| => Cap(stream[pieces[k].lo..pieces[k].hi]))
  }

  function CappedFrom(stream: seq<byte>, lo: nat): (lines: seq<Str>)
    requires lo <= |stream|
    decreases |stream| - lo
  {
    var k := Refs.NextSeparator(stream, lo, |stream|, IsNewline);
    if k == |stream| then [Cap(stream[lo..])] else [Cap(stream[lo..k])] + CappedFrom(stream, k + 1)
  }

  lemma {:induction false} CappedFromIsSplit(stream: seq<byte>, lo: nat)
    requires lo <= |stream|
    ensures var pieces := Refs.Split(stream, lo, |stream|, IsNewline);
            && |CappedFrom(stream, lo)| == |pieces|
            && forall k :: 0 <= k < |pieces| ==>
                 (pieces[k].lo <= pieces[k].hi <= |stream|
                  && CappedFrom(stream, lo)[k] == Cap(stream[pieces[k].lo..pieces[k].hi]))
    decreases |stream| - lo
  {
    hide Cap;
    var k := Refs.NextSeparator(stream, lo, |stream|, IsNewline);
    if k < |stream| {
      CappedFromIsSplit(stream, k + 1);
      var rest := Refs.Split(stream, k + 1, |stream|, IsNewline);
      assert Refs.Split(stream, lo, |stream|, IsNewline) == [Refs.Span(lo, k)] + rest;
      assert CappedFrom(stream, lo) == [Cap(stream[lo..k])] + CappedFrom(stream, k + 1);
    } else {
      assert stream[lo..] == stream[lo..|stream|];
    }
  }

  /** Scanning from the middle of a line. */
  lemma {:induction false} ScanFrom(stream: seq<byte>, lo: nat, p: nat)
    requires lo <= p <= |stream|
    requires forall i :: lo <= i < p ==> stream[i] != NEWLINE
    ensures var s := Scan(Cap(stream[lo..p]), stream[p..]);
            s.lines + [s.line] == CappedFrom(stream, lo)
    decreases |stream| - p
  {
    hide Scan, CappedFrom;
    var line := Cap(stream[lo..p]);
    if p == |stream| {
      assert stream[p..] == [];
      ScanNone(line);
      CappedStep(stream, lo, p);
    } else {
      var (b, rest) := (stream[p], stream[p + 1..]);
      assert stream[p..] == [b] + rest;
      ScanAppend(line, [b], rest);
      ScanOne(line, b);
      if b == NEWLINE {
        CappedStep(stream, lo, p);
        assert Cap(stream[p + 1..p + 1]) == [];
        ScanFrom(stream, p + 1, p + 1);
        var s := Scan([], rest);
        assert Scan(line, stream[p..]) == Scanned([line] + s.lines, s.line);
        assert [line] + s.lines + [s.line] == [line] + (s.lines + [s.line]);
      } else {
        assert stream[lo..p + 1] == stream[lo..p] + [b];
        assert Cap(stream[lo..p + 1]) == ScanByte(line, b);
        ScanFrom(stream, lo, p + 1);
        var s := Scan(ScanByte(line, b), rest);
        assert [] + s.lines == s.lines;
        assert Scan(line, stream[p..]) == s;
      }
    }
  }

  lemma CappedStep(stream: seq<byte>, lo: nat, p: nat)
    requires lo <= p <= |stream|
    requires forall i :: lo <= i < p ==> stream[i] != NEWLINE
    requires p < |stream| ==> stream[p] == NEWLINE
    ensures CappedFrom(stream, lo) == [Cap(stream[lo..p])] + if p < |stream| then CappedFrom(stream, p + 1) else []
  {
    NoSeparator(stream, lo, p);
    assert stream[lo..|stream|] == stream[lo..];
  }

  lemma ScanNone(line: Str)
    ensures Scan(line, []) == Scanned([], line)
  {
  }

  lemma ScanOne(line: Str, b: byte)
    ensures Scan(line, [b]) == if b == NEWLINE then Scanned([line], []) else Scanned([], ScanByte(line, b))
  {
    assert [b][..0] == [];
  }

  lemma {:induction false} NoSeparator(stream: seq<byte>, lo: nat, p: nat)
    requires lo <= p <= |stream|
    requires forall i :: lo <= i < p ==> stream[i] != NEWLINE
    requires p < |stream| ==> stream[p] == NEWLINE
    ensures Refs.NextSeparator(stream, lo, |stream|, IsNewline) == p
    decreases p - lo
  {
    if lo < p {
      NoSeparator(stream, lo + 1, p);
    }
  }

  /** Byte by byte with a bounded line buffer sees exactly the capped lines. */
  lemma ScanSeesLines(stream: seq<byte>)
    ensures Scan([], stream).lines + [Scan([], stream).line] == CappedLines(stream)
  {
    assert stream[0..0] == [] && stream[0..] == stream;
    ScanFrom(stream, 0, 0);
    CappedFromIsSplit(stream, 0);
  }

  // ----- Trace rings --------------------------------------------------------------------------

  function Last<T>(history: seq<T>, n: nat): (tail: seq<T>)
    ensures |tail| == Min(|history|, n)
  {
    history[|history| - Min(|history|, n)..]
  }

  /** `retain_trace`. */
  function RetainTrace(ring: seq<Str>, text: Str): seq<Str> {
    (if |ring| == RETAINED_TRACE_LINES then ring[1..] else ring) + [text]
  }

  lemma RetainTraceIsLast(history: seq<Str>, text: Str)
    ensures RetainTrace(Last(history, RETAINED_TRACE_LINES), text) == Last(history + [text], RETAINED_TRACE_LINES)
  {
  }

  /** The rendered lines that carry `marker`, in order. */
  function Matching(lines: seq<Str>, render: Render, marker: string): seq<Str> {
    if lines == [] then []
    else
      var before := Matching(lines[..|lines| - 1], render, marker);
      var text := render(lines[|lines| - 1]);
      if Refs.Contains(text, Bytes(marker)) then before + [text] else before
  }

  lemma {:induction false} MatchingAppend(a: seq<Str>, b: seq<Str>, render: Render, marker: string)
    ensures Matching(a + b, render, marker) == Matching(a, render, marker) + Matching(b, render, marker)
    decreases |b|
  {
    hide Refs.Contains, Bytes;
    if b == [] {
      assert a + b == a;
    } else {
      assert (a + b)[..|a + b| - 1] == a + b[..|b| - 1];
      MatchingAppend(a, b[..|b| - 1], render, marker);
    }
  }

  lemma MatchingSnoc(lines: seq<Str>, line: Str, render: Render, marker: string)
    ensures Matching(lines + [line], render, marker)
         == Matching(lines, render, marker) + if Refs.Contains(render(line), Bytes(marker)) then [render(line)] else []
  {
    hide Refs.Contains, Bytes;
    assert (lines + [line])[..|lines|] == lines;
  }

  // ----- The capture object ----------------------------------------------------------------------

  datatype Stream = Stdout | Stderr

  function Flatten(chunks: seq<seq<byte>>): seq<byte> {
    if chunks == [] then [] else Flatten(chunks[..|chunks| - 1]) + chunks[|chunks| - 1]
  }

  /** `OutputCapture`, shared by the two readers. */
  class OutputCapture {
    var stdout: seq<byte>
    var stderr: seq<byte>
    var stageTrace: seq<Str>
    var resizeTrace: seq<Str>
    var readFailure: Option<Str>
    var exceeded: bool
    const render: Render

    constructor (render: Render)
      ensures stdout == stderr == [] && stageTrace == resizeTrace == [] && readFailure == None && !exceeded
      ensures this.render == render
    {
      stdout, stderr, stageTrace, resizeTrace, readFailure, exceeded := [], [], [], [], None, false;
      this.render := render;
    }

    function Buffer(stream: Stream): seq<byte>
      reads this
    {
      match stream case Stdout => stdout case Stderr => stderr
    }

    /** `retain`. */
    method RetainBytes(stream: Stream, bytes: seq<byte>)
      modifies this`stdout, this`stderr, this`exceeded
      ensures Buffer(stream) == Retain(old(Buffer(stream)), bytes)
      ensures forall other :: other != stream ==> Buffer(other) == old(Buffer(other))
      ensures exceeded <==> old(exceeded) || Room(old(Buffer(stream)), bytes) != |bytes|
    {
      var destination := Buffer(stream);
      var remaining := if |destination| < RETAINED_OUTPUT_BYTES then RETAINED_OUTPUT_BYTES - |destination| else 0;
      var retained := if |bytes| < remaining then |bytes| else remaining;
      match stream {
        case Stdout => stdout := stdout + bytes[..retained];
        case Stderr => stderr := stderr + bytes[..retained];
      }
      if retained != |bytes| {
        exceeded := true;
      }
    }

    /** `retain_trace_line`, with the histories of which the rings are the ends. */
    method RetainTraceLine(line: Str, ghost stages: seq<Str>, ghost resizes: seq<Str>, ghost lines: seq<Str>)
      requires stageTrace == Last(stages + Matching(lines, render, STAGE_MARKER), RETAINED_TRACE_LINES)
      requires resizeTrace == Last(resizes + Matching(lines, render, RESIZE_MARKER), RETAINED_TRACE_LINES)
      modifies this`stageTrace, this`resizeTrace
      ensures stageTrace == Last(stages + Matching(lines + [line], render, STAGE_MARKER), RETAINED_TRACE_LINES)
      ensures resizeTrace == Last(resizes + Matching(lines + [line], render, RESIZE_MARKER), RETAINED_TRACE_LINES)
    {
      hide Last, Matching, Refs.Contains, Bytes;
      var text := render(line);
      MatchingSnoc(lines, line, render, STAGE_MARKER);
      MatchingSnoc(lines, line, render, RESIZE_MARKER);
      if Refs.Contains(text, Bytes(STAGE_MARKER)) {
        RetainTraceIsLast(stages + Matching(lines, render, STAGE_MARKER), text);
        assert stages + Matching(lines, render, STAGE_MARKER) + [text]
            == stages + (Matching(lines, render, STAGE_MARKER) + [text]);
        stageTrace := RetainTrace(stageTrace, text);
      } else {
        assert Matching(lines, render, STAGE_MARKER) + [] == Matching(lines, render, STAGE_MARKER);
      }
      if Refs.Contains(text, Bytes(RESIZE_MARKER)) {
        RetainTraceIsLast(resizes + Matching(lines, render, RESIZE_MARKER), text);
        assert resizes + Matching(lines, render, RESIZE_MARKER) + [text]
            == resizes + (Matching(lines, render, RESIZE_MARKER) + [text]);
        resizeTrace := RetainTrace(resizeTrace, text);
      } else {
        assert Matching(lines, render, RESIZE_MARKER) + [] == Matching(lines, render, RESIZE_MARKER);
      }
    }

    /** The thread body of `read_stream`, run without interference over reads that deliver
        `chunks` and then end, in error when `failure` is given. What it retains is a function
        of the concatenated stream alone. */
    method ReadStream(stream: Stream, chunks: seq<seq<byte>>, failure: Option<Str>,
                      ghost stages: seq<Str>, ghost resizes: seq<Str>)
      requires forall chunk :: chunk in chunks ==> chunk != []
      requires Buffer(stream) == []
      requires stageTrace == Last(stages, RETAINED_TRACE_LINES) && resizeTrace == Last(resizes, RETAINED_TRACE_LINES)
      modifies this
      ensures Buffer(stream) == Kept(Flatten(chunks))
      ensures forall other :: other != stream ==> Buffer(other) == old(Buffer(other))
      ensures exceeded <==> old(exceeded) || |Flatten(chunks)| > RETAINED_OUTPUT_BYTES
      ensures readFailure == if old(readFailure).Some? then old(readFailure) else failure
      ensures stageTrace == Last(stages + Matching(CappedLines(Flatten(chunks)), render, STAGE_MARKER), RETAINED_TRACE_LINES)
      ensures resizeTrace == Last(resizes + Matching(CappedLines(Flatten(chunks)), render, RESIZE_MARKER), RETAINED_TRACE_LINES)
    {
      hide Last, Matching, Kept, Room, Retain, CappedLines, Flatten;
      var line: Str := [];
      ghost var seen: seq<byte> := [];
      assert Flatten([]) == [] by { FlattenEmpty(); }
      assert Kept([]) == [];
      assert stages + Matching([], render, STAGE_MARKER) == stages by { MatchingEmpty(render, STAGE_MARKER); }
      assert resizes + Matching([], render, RESIZE_MARKER) == resizes by { MatchingEmpty(render, RESIZE_MARKER); }
      for i := 0 to |chunks|
        invariant seen == Flatten(chunks[..i]) && line == Scan([], seen).line
        invariant Buffer(stream) == Kept(seen)
        invariant forall other :: other != stream ==> Buffer(other) == old(Buffer(other))
        invariant exceeded <==> old(exceeded) || |seen| > RETAINED_OUTPUT_BYTES
        invariant readFailure == old(readFailure)
        invariant stageTrace == Last(stages + Matching(Scan([], seen).lines, render, STAGE_MARKER), RETAINED_TRACE_LINES)
        invariant resizeTrace == Last(resizes + Matching(Scan([], seen).lines, render, RESIZE_MARKER), RETAINED_TRACE_LINES)
      {
        var chunk := chunks[i];
        RetainExtends(seen, chunk);
        RetainBytes(stream, chunk);
        line := ScanChunk(chunk, line, seen, stages, resizes);
        FlattenSnoc(chunks, i);
        seen := seen + chunk;
      }
      assert chunks[..|chunks|] == chunks;
      if failure.Some? && readFailure.None? {
        readFailure := failure;
      }
      ScanSeesLines(seen);
      RetainTraceLine(line, stages, resizes, Scan([], seen).lines);
    }

    /** The loop over the bytes of one chunk. */
    method ScanChunk(chunk: seq<byte>, open: Str, ghost seen: seq<byte>, ghost stages: seq<Str>, ghost resizes: seq<Str>)
      returns (line: Str)
      requires open == Scan([], seen).line
      requires stageTrace == Last(stages + Matching(Scan([], seen).lines, render, STAGE_MARKER), RETAINED_TRACE_LINES)
      requires resizeTrace == Last(resizes + Matching(Scan([], seen).lines, render, RESIZE_MARKER), RETAINED_TRACE_LINES)
      modifies this`stageTrace, this`resizeTrace
      ensures line == Scan([], seen + chunk).line
      ensures stageTrace == Last(stages + Matching(Scan([], seen + chunk).lines, render, STAGE_MARKER), RETAINED_TRACE_LINES)
      ensures resizeTrace == Last(resizes + Matching(Scan([], seen + chunk).lines, render, RESIZE_MARKER), RETAINED_TRACE_LINES)
    {
      hide Last, Matching;
      line := open;
      assert seen + chunk[..0] == seen;
      for j := 0 to |chunk|
        invariant line == Scan([], seen + chunk[..j]).line
        invariant stageTrace == Last(stages + Matching(Scan([], seen + chunk[..j]).lines, render, STAGE_MARKER), RETAINED_TRACE_LINES)
        invariant resizeTrace == Last(resizes + Matching(Scan([], seen + chunk[..j]).lines, render, RESIZE_MARKER), RETAINED_TRACE_LINES)
      {
        assert (seen + chunk[..j + 1])[..|seen| + j] == seen + chunk[..j];
        if chunk[j] == NEWLINE {
          RetainTraceLine(line, stages, resizes, Scan([], seen + chunk[..j]).lines);
          line := [];
        } else if |line| < RETAINED_TRACE_LINE_BYTES {
          line := line + [chunk[j]];
        }
      }
      assert chunk[..|chunk|] == chunk;
    }
  }

  lemma FlattenEmpty()
    ensures Flatten([]) == []
  {
  }

  lemma MatchingEmpty(render: Render, marker: string)
    ensures Matching([], render, marker) == []
  {
  }

  lemma FlattenSnoc(chunks: seq<seq<byte>>, i: nat)
    requires i < |chunks|
    ensures Flatten(chunks[..i + 1]) == Flatten(chunks[..i]) + chunks[i]
  {
    assert chunks[..i + 1][..i] == chunks[..i];
  }
}

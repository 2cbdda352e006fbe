/** Everything that runs beside the supervisor of `xtask/src/native_smoke.rs`: the child's
    process group, the two reader threads with the state they share, and the clock. One
    `Choice` is one atomic step of one of them; a run is any sequence of choices. */
module SmokeWorld {
  import opened Prelude
  import opened Capture
  import Refs

  datatype ExitStatus = Exited(code: int) | Killed {
    predicate Success() {
      this == Exited(0)
    }
  }

  datatype Leader = Running | Zombie(status: ExitStatus) | Reaped(status: ExitStatus)

  /** Where a reader thread stands in `read_stream`. */
  datatype Pc =
    | Reading
    | Failing(error: Str)
    | Storing(chunk: seq<byte>)
    | Flagging(chunk: seq<byte>)
    | Scanning(pending: seq<byte>)
    | Staging(pending: seq<byte>, closing: bool)
    | Resizing(pending: seq<byte>, closing: bool)
    | Sending
    | Finished

  /** `consumed` is the stream as far as it was handed to `retain`; `eof` records a read of
      zero bytes. */
  datatype Reader = Reader(pc: Pc, consumed: seq<byte>, line: Str, eof: bool)

  datatype Tagged = Tagged(stream: Stream, text: Str)

  /** `OutputCapture`, with the history of each ring. */
  datatype Shared = Shared(
    stdout: seq<byte>,
    stderr: seq<byte>,
    stageTrace: seq<Str>,
    resizeTrace: seq<Str>,
    stageLog: seq<Tagged>,
    resizeLog: seq<Tagged>,
    readFailure: Option<Str>,
    exceeded: bool)

  datatype Signal = Term | Kill

  datatype SignalEvent = SignalEvent(signal: Signal, at: nat)

  datatype State = State(
    now: nat,
    leader: Leader,
    others: nat,
    out: Reader,
    err: Reader,
    shared: Shared,
    signals: seq<SignalEvent>)

  const INITIAL_READER := Reader(Reading, [], [], false)
  const INITIAL_SHARED := Shared([], [], [], [], [], [], None, false)

  /** Just after `spawn`: the leader runs alone and the readers have read nothing. */
  function Spawned(now: nat): State {
    State(now, Running, 0, INITIAL_READER, INITIAL_READER, INITIAL_SHARED, [])
  }

  datatype ReadOutcome = Read(bytes: seq<byte>) | ReadError(error: Str)

  datatype Choice =
    | Tick(elapsed: nat)
    | LeaderExits(status: ExitStatus)
    | MemberForks
    | MemberExits
    | ReaderMoves(stream: Stream, read: ReadOutcome)

  // ----- Reader threads -------------------------------------------------------------

  datatype Moved = Moved(reader: Reader, shared: Shared)

  function Buffer(shared: Shared, stream: Stream): seq<byte> {
    match stream case Stdout => shared.stdout case Stderr => shared.stderr
  }

  function WithBuffer(shared: Shared, stream: Stream, buffer: seq<byte>): Shared {
    match stream case Stdout => shared.(stdout := buffer) case Stderr => shared.(stderr := buffer)
  }

  function Carries(render: Render, line: Str, marker: string): bool {
    Refs.Contains(render(line), Bytes(marker))
  }

  /** The next atomic step of one reader; `read` is what its next read delivers. */
  function ReaderStep(render: Render, stream: Stream, reader: Reader, shared: Shared, read: ReadOutcome): Moved {
    match reader.pc
    case Reading =>
      (match read
       case ReadError(error) => Moved(reader.(pc := Failing(error)), shared)
       case Read(bytes) =>
         if bytes == [] then Moved(reader.(pc := Staging([], true), eof := true), shared)
         else Moved(reader.(pc := Storing(bytes)), shared))
    case Failing(error) =>
      Moved(reader.(pc := Staging([], true)),
            if shared.readFailure.Some? then shared else shared.(readFailure := Some(error)))
    case Storing(chunk) =>
      var buffer := Buffer(shared, stream);
      Moved(reader.(pc := if Room(buffer, chunk) != |chunk| then Flagging(chunk) else Scanning(chunk),
                    consumed := reader.consumed + chunk),
            WithBuffer(shared, stream, Retain(buffer, chunk)))
    case Flagging(chunk) =>
      Moved(reader.(pc := Scanning(chunk)), shared.(exceeded := true))
    case Scanning(pending) =>
      if pending == [] then Moved(reader.(pc := Reading), shared)
      else if pending[0] == NEWLINE then Moved(reader.(pc := Staging(pending[1..], false)), shared)
      else Moved(reader.(pc := Scanning(pending[1..]), line := ScanByte(reader.line, pending[0])), shared)
    case Staging(pending, closing) =>
      var text := render(reader.line);
      Moved(reader.(pc := Resizing(pending, closing)),
            if Carries(render, reader.line, STAGE_MARKER)
            then shared.(stageTrace := RetainTrace(shared.stageTrace, text),
                         stageLog := shared.stageLog + [Tagged(stream, text)])
            else shared)
    case Resizing(pending, closing) =>
      var text := render(reader.line);
      Moved(if closing then reader.(pc := Sending) else reader.(pc := Scanning(pending), line := []),
            if Carries(render, reader.line, RESIZE_MARKER)
            then shared.(resizeTrace := RetainTrace(shared.resizeTrace, text),
                         resizeLog := shared.resizeLog + [Tagged(stream, text)])
            else shared)
    case Sending =>
      Moved(reader.(pc := Finished), shared)
    case Finished =>
      Moved(reader, shared)
  }

  /** One step of the environment. A choice that is not enabled changes nothing. */
  function Step(render: Render, w: State, choice: Choice): State {
    match choice
    case Tick(elapsed) => w.(now := w.now + elapsed)
    case LeaderExits(status) => if w.leader == Running then w.(leader := Zombie(status)) else w
    case MemberForks => if w.leader == Running || w.others > 0 then w.(others := w.others + 1) else w
    case MemberExits => if w.others > 0 then w.(others := w.others - 1) else w
    case ReaderMoves(Stdout, read) =>
      var moved := ReaderStep(render, Stdout, w.out, w.shared, read);
      w.(out := moved.reader, shared := moved.shared)
    case ReaderMoves(Stderr, read) =>
      var moved := ReaderStep(render, Stderr, w.err, w.shared, read);
      w.(err := moved.reader, shared := moved.shared)
  }

  function Run(render: Render, w: State, choices: seq<Choice>): State {
    if choices == [] then w
    else Step(render, Run(render, w, choices[..|choices| - 1]), choices[|choices| - 1])
  }

  // ----- What a reader has done so far --------------------------------------------------

  function Pending(pc: Pc): seq<byte> {
    match pc
    case Flagging(chunk) => chunk
    case Scanning(pending) => pending
    case Staging(pending, _) => pending
    case Resizing(pending, _) => pending
    case _ => []
  }

  /** The lines already offered to a ring, when `offered` says whether the line at hand was. */
  ghost function OfferedLines(reader: Reader, done: seq<byte>, offered: bool): seq<Str> {
    var scanned := Scan([], done);
    match reader.pc
    case Staging(_, closing) => if closing then scanned.lines else Front(scanned.lines)
    case Resizing(_, closing) =>
      if closing then (if offered then scanned.lines + [scanned.line] else scanned.lines)
      else (if offered then scanned.lines else Front(scanned.lines))
    case Sending => scanned.lines + [scanned.line]
    case Finished => scanned.lines + [scanned.line]
    case _ => scanned.lines
  }

  ghost function Front<T>(s: seq<T>): seq<T> {
    if s == [] then [] else s[..|s| - 1]
  }

  ghost function Of(log: seq<Tagged>, stream: Stream): seq<Str> {
    if log == [] then []
    else
      var before := Of(log[..|log| - 1], stream);
      var last := log[|log| - 1];
      if last.stream == stream then before + [last.text] else before
  }

  ghost function Texts(log: seq<Tagged>): (texts: seq<Str>)
    ensures |texts| == |log|
  {
    seq(|log|, i requires 0 <= i < |log| => log[i].text)
  }

  /** The open line, or the line being offered. */
  ghost predicate LineInv(reader: Reader, done: seq<byte>) {
    var scanned := Scan([], done);
    if (reader.pc.Staging? || reader.pc.Resizing?) && !reader.pc.closing then
      scanned.lines != [] && scanned.lines[|scanned.lines| - 1] == reader.line && scanned.line == []
    else reader.line == scanned.line
  }

  predicate IsClosed(pc: Pc) {
    match pc
    case Staging(_, closing) => closing
    case Resizing(_, closing) => closing
    case Sending => true
    case Finished => true
    case _ => false
  }

  /** What one reader has retained is a function of the bytes it consumed. */
  ghost predicate ReaderInv(render: Render, stream: Stream, reader: Reader, shared: Shared) {
    && Buffer(shared, stream) == Kept(reader.consumed)
    && (reader.pc.Storing? ==> reader.pc.chunk != [])
    && (|reader.consumed| > RETAINED_OUTPUT_BYTES && !reader.pc.Flagging? ==> shared.exceeded)
    && (reader.pc.Flagging? ==> |reader.consumed| > RETAINED_OUTPUT_BYTES)
    && TraceInv(render, stream, reader, shared)
    && (IsClosed(reader.pc) ==> reader.eof || shared.readFailure.Some?)
  }

  ghost predicate TraceInv(render: Render, stream: Stream, reader: Reader, shared: Shared) {
    && |Pending(reader.pc)| <= |reader.consumed|
    && (IsClosed(reader.pc) ==> Pending(reader.pc) == [])
    && var done := Done(reader);
    && reader.consumed == done + Pending(reader.pc)
    && LineInv(reader, done)
    && Of(shared.stageLog, stream) == Matching(OfferedLines(reader, done, true), render, STAGE_MARKER)
    && Of(shared.resizeLog, stream) == Matching(OfferedLines(reader, done, false), render, RESIZE_MARKER)
  }

  /** The consumed bytes whose lines have been scanned. */
  ghost function Done(reader: Reader): seq<byte> {
    reader.consumed[..|reader.consumed| - Min(|reader.consumed|, |Pending(reader.pc)|)]
  }

  ghost predicate RingInv(shared: Shared) {
    && shared.stageTrace == Last(Texts(shared.stageLog), RETAINED_TRACE_LINES)
    && shared.resizeTrace == Last(Texts(shared.resizeLog), RETAINED_TRACE_LINES)
  }

  ghost predicate Inv(render: Render, w: State) {
    && ReaderInv(render, Stdout, w.out, w.shared)
    && ReaderInv(render, Stderr, w.err, w.shared)
    && RingInv(w.shared)
    && (w.shared.exceeded ==> |w.out.consumed| > RETAINED_OUTPUT_BYTES || |w.err.consumed| > RETAINED_OUTPUT_BYTES)
  }

  // ----- Every step keeps the invariant ---------------------------------------------------

  lemma ScanSnoc(done: seq<byte>, b: byte)
    ensures var before := Scan([], done);
            Scan([], done + [b]) == if b == NEWLINE then Scanned(before.lines + [before.line], [])
                                    else Scanned(before.lines, ScanByte(before.line, b))
  {
    assert (done + [b])[..|done|] == done;
  }

  lemma OfSnoc(log: seq<Tagged>, last: Tagged, stream: Stream)
    ensures Of(log + [last], stream) == Of(log, stream) + if last.stream == stream then [last.text] else []
  {
    assert (log + [last])[..|log|] == log;
  }

  lemma TextsSnoc(log: seq<Tagged>, last: Tagged)
    ensures Texts(log + [last]) == Texts(log) + [last.text]
  {
  }

  lemma ScanKeepsTrace(render: Render, stream: Stream, reader: Reader, shared: Shared, read: ReadOutcome)
    requires TraceInv(render, stream, reader, shared)
    requires reader.pc.Scanning?
    ensures var moved := ReaderStep(render, stream, reader, shared, read);
            TraceInv(render, stream, moved.reader, moved.shared)
  {
    hide Scan, Matching, Of, ScanByte;
    var moved := ReaderStep(render, stream, reader, shared, read).reader;
    if reader.pc.pending == [] {
      assert Done(moved) == Done(reader);
    } else {
      ScanOffers(reader, moved, Done(reader));
      hide OfferedLines, LineInv, Done;
    }
  }

  lemma ScanOffers(reader: Reader, moved: Reader, done: seq<byte>)
    requires reader.pc.Scanning? && reader.pc.pending != [] && done == Done(reader) && LineInv(reader, done)
    requires |reader.pc.pending| <= |reader.consumed| && reader.consumed == done + reader.pc.pending
    requires var (b, rest) := (reader.pc.pending[0], reader.pc.pending[1..]);
             moved == if b == NEWLINE then reader.(pc := Staging(rest, false))
                      else reader.(pc := Scanning(rest), line := ScanByte(reader.line, b))
    ensures LineInv(moved, Done(moved)) && moved.consumed == Done(moved) + Pending(moved.pc)
    ensures OfferedLines(moved, Done(moved), true) == OfferedLines(reader, done, true)
    ensures OfferedLines(moved, Done(moved), false) == OfferedLines(reader, done, false)
  {
    hide Scan, ScanByte, Front;
    var (b, rest) := (reader.pc.pending[0], reader.pc.pending[1..]);
    assert Done(moved) == done + [b] by {
      assert reader.pc.pending == [b] + rest;
    }
    ScanSnoc(done, b);
    FrontOfSnoc(Scan([], done).lines, reader.line);
  }

  lemma FrontOfSnoc<T>(s: seq<T>, x: T)
    ensures Front(s + [x]) == s
  {
  }

  /** The lines both rings have been offered before the line at hand. */
  ghost function Before(reader: Reader): seq<Str>
    requires reader.pc.Staging? || reader.pc.Resizing?
  {
    var lines := Scan([], Done(reader)).lines;
    if reader.pc.closing then lines else Front(lines)
  }

  lemma StageKeepsTrace(render: Render, stream: Stream, reader: Reader, shared: Shared, read: ReadOutcome)
    requires TraceInv(render, stream, reader, shared)
    requires reader.pc.Staging?
    ensures var moved := ReaderStep(render, stream, reader, shared, read);
            TraceInv(render, stream, moved.reader, moved.shared)
  {
    hide Scan, Matching, Of, Carries;
    var moved := ReaderStep(render, stream, reader, shared, read);
    var (done, before) := (Done(reader), Before(reader));
    StageOffers(reader, moved.reader, done, before);
    hide OfferedLines, LineInv;
    MatchingStep(before, reader.line, render, STAGE_MARKER);
    OfSnoc(shared.stageLog, Tagged(stream, render(reader.line)), stream);
  }

  lemma StageOffers(reader: Reader, moved: Reader, done: seq<byte>, before: seq<Str>)
    requires reader.pc.Staging? && before == Before(reader) && done == Done(reader) && LineInv(reader, done)
    requires moved == reader.(pc := Resizing(reader.pc.pending, reader.pc.closing))
    ensures Done(moved) == done && LineInv(moved, done)
    ensures OfferedLines(reader, done, true) == OfferedLines(reader, done, false) == before
    ensures OfferedLines(moved, done, false) == before
    ensures OfferedLines(moved, done, true) == before + [reader.line]
  {
    hide Scan;
    var scanned := Scan([], done);
    if !reader.pc.closing {
      assert scanned.lines == Front(scanned.lines) + [reader.line];
    }
  }

  lemma ResizeKeepsTrace(render: Render, stream: Stream, reader: Reader, shared: Shared, read: ReadOutcome)
    requires TraceInv(render, stream, reader, shared)
    requires reader.pc.Resizing?
    ensures var moved := ReaderStep(render, stream, reader, shared, read);
            TraceInv(render, stream, moved.reader, moved.shared)
  {
    hide Scan, Matching, Of, Carries;
    var moved := ReaderStep(render, stream, reader, shared, read);
    var (done, before) := (Done(reader), Before(reader));
    ResizeOffers(reader, moved.reader, done, before);
    hide OfferedLines, LineInv;
    MatchingStep(before, reader.line, render, RESIZE_MARKER);
    OfSnoc(shared.resizeLog, Tagged(stream, render(reader.line)), stream);
  }

  lemma ResizeOffers(reader: Reader, moved: Reader, done: seq<byte>, before: seq<Str>)
    requires reader.pc.Resizing? && before == Before(reader) && done == Done(reader) && LineInv(reader, done)
    requires moved == if reader.pc.closing then reader.(pc := Sending) else reader.(pc := Scanning(reader.pc.pending), line := [])
    requires |Pending(reader.pc)| <= |reader.consumed| && reader.consumed == done + Pending(reader.pc)
    requires reader.pc.closing ==> reader.pc.pending == []
    ensures Done(moved) == done && LineInv(moved, done) && moved.consumed == done + Pending(moved.pc)
    ensures OfferedLines(reader, done, false) == before
    ensures OfferedLines(reader, done, true) == before + [reader.line]
    ensures OfferedLines(moved, done, true) == OfferedLines(moved, done, false) == before + [reader.line]
  {
    hide Scan;
    var scanned := Scan([], done);
    if !reader.pc.closing {
      assert scanned.lines == Front(scanned.lines) + [reader.line];
    }
  }

  lemma MatchingStep(lines: seq<Str>, line: Str, render: Render, marker: string)
    ensures Matching(lines + [line], render, marker)
         == if Carries(render, line, marker) then Matching(lines, render, marker) + [render(line)]
            else Matching(lines, render, marker)
  {
    hide Matching, Refs.Contains, Bytes;
    MatchingSnoc(lines, line, render, marker);
    assert Matching(lines, render, marker) + [] == Matching(lines, render, marker);
  }

  /** Away from the scanning loop no line is offered and the scanned part stays. */
  lemma QuietStepKeepsTrace(render: Render, stream: Stream, reader: Reader, shared: Shared, read: ReadOutcome)
    requires TraceInv(render, stream, reader, shared)
    requires !reader.pc.Scanning? && !reader.pc.Staging? && !reader.pc.Resizing?
    ensures var moved := ReaderStep(render, stream, reader, shared, read);
            TraceInv(render, stream, moved.reader, moved.shared)
  {
    hide Scan, Matching, Of, Retain, Room;
    var moved := ReaderStep(render, stream, reader, shared, read);
    assert moved.shared.stageLog == shared.stageLog && moved.shared.resizeLog == shared.resizeLog;
    assert moved.reader.consumed == Done(reader) + Pending(moved.reader.pc);
    QuietOffers(reader, moved.reader, Done(reader));
    hide OfferedLines, LineInv, Done, ReaderStep;
  }

  lemma QuietOffers(reader: Reader, moved: Reader, done: seq<byte>)
    requires !reader.pc.Scanning? && !reader.pc.Staging? && !reader.pc.Resizing? && !moved.pc.Resizing?
    requires moved.pc.Staging? ==> moved.pc.closing
    requires reader.pc.Sending? || reader.pc.Finished? <==> moved.pc.Sending? || moved.pc.Finished?
    requires done == Done(reader) && moved.line == reader.line && moved.consumed == done + Pending(moved.pc)
    requires LineInv(reader, done)
    ensures Done(moved) == done && LineInv(moved, done)
    ensures OfferedLines(moved, done, true) == OfferedLines(reader, done, true)
    ensures OfferedLines(moved, done, false) == OfferedLines(reader, done, false)
  {
    hide Scan;
  }

  lemma StepKeepsTrace(render: Render, stream: Stream, reader: Reader, shared: Shared, read: ReadOutcome)
    requires TraceInv(render, stream, reader, shared)
    ensures var moved := ReaderStep(render, stream, reader, shared, read);
            TraceInv(render, stream, moved.reader, moved.shared)
  {
    hide TraceInv, ReaderStep;
    match reader.pc
    case Scanning(_) => ScanKeepsTrace(render, stream, reader, shared, read);
    case Staging(_, _) => StageKeepsTrace(render, stream, reader, shared, read);
    case Resizing(_, _) => ResizeKeepsTrace(render, stream, reader, shared, read);
    case _ => QuietStepKeepsTrace(render, stream, reader, shared, read);
  }

  lemma StepKeepsBytes(render: Render, stream: Stream, reader: Reader, shared: Shared, read: ReadOutcome)
    requires ReaderInv(render, stream, reader, shared)
    ensures var moved := ReaderStep(render, stream, reader, shared, read);
            ReaderInv(render, stream, moved.reader, moved.shared)
  {
    hide TraceInv, Carries, Kept, Retain, Room, ScanByte;
    StepKeepsTrace(render, stream, reader, shared, read);
    if reader.pc.Storing? {
      RetainExtends(reader.consumed, reader.pc.chunk);
    }
  }

  /** One reader's step leaves what the other has retained. */
  lemma StepKeepsOther(render: Render, stream: Stream, reader: Reader, other: Stream, idle: Reader, shared: Shared, read: ReadOutcome)
    requires stream != other
    requires ReaderInv(render, other, idle, shared)
    ensures ReaderInv(render, other, idle, ReaderStep(render, stream, reader, shared, read).shared)
  {
    hide Carries, Kept, Retain, Room, Of, Matching, OfferedLines, LineInv;
    var text := render(reader.line);
    OfSnoc(shared.stageLog, Tagged(stream, text), other);
    OfSnoc(shared.resizeLog, Tagged(stream, text), other);
    assert Of(shared.stageLog, other) + [] == Of(shared.stageLog, other);
    assert Of(shared.resizeLog, other) + [] == Of(shared.resizeLog, other);
  }

  lemma StepKeepsRings(render: Render, stream: Stream, reader: Reader, shared: Shared, read: ReadOutcome)
    requires RingInv(shared)
    ensures RingInv(ReaderStep(render, stream, reader, shared, read).shared)
  {
    hide Carries, Last, Texts, RetainTrace;
    var text := render(reader.line);
    RetainTraceIsLast(Texts(shared.stageLog), text);
    RetainTraceIsLast(Texts(shared.resizeLog), text);
    TextsSnoc(shared.stageLog, Tagged(stream, text));
    TextsSnoc(shared.resizeLog, Tagged(stream, text));
  }

  lemma StepKeepsExcess(render: Render, stream: Stream, reader: Reader, shared: Shared, read: ReadOutcome)
    requires ReaderInv(render, stream, reader, shared)
    ensures var moved := ReaderStep(render, stream, reader, shared, read);
            && reader.consumed <= moved.reader.consumed
            && (moved.shared.exceeded ==> shared.exceeded || |moved.reader.consumed| > RETAINED_OUTPUT_BYTES)
  {
    hide TraceInv, Carries, Kept, Retain, Room, ScanByte;
  }

  lemma StepKeepsInv(render: Render, w: State, choice: Choice)
    requires Inv(render, w)
    ensures Inv(render, Step(render, w, choice))
  {
    hide ReaderInv, RingInv, ReaderStep;
    if choice.ReaderMoves? {
      var (reader, other, idle) := if choice.stream == Stdout then (w.out, Stderr, w.err) else (w.err, Stdout, w.out);
      StepKeepsBytes(render, choice.stream, reader, w.shared, choice.read);
      StepKeepsOther(render, choice.stream, reader, other, idle, w.shared, choice.read);
      StepKeepsRings(render, choice.stream, reader, w.shared, choice.read);
      StepKeepsExcess(render, choice.stream, reader, w.shared, choice.read);
    }
  }

  lemma SpawnedInv(render: Render, now: nat)
    ensures Inv(render, Spawned(now))
  {
  }

  /** In every interleaving, each buffer is the retained prefix of its own stream, each ring is
      the end of one merge of both readers' matching lines, and the overflow flag is right. */
  lemma {:induction false} RunKeepsInv(render: Render, now: nat, choices: seq<Choice>)
    ensures Inv(render, Run(render, Spawned(now), choices))
  {
    hide Inv;
    if choices == [] {
      SpawnedInv(render, now);
    } else {
      RunKeepsInv(render, now, choices[..|choices| - 1]);
      StepKeepsInv(render, Run(render, Spawned(now), choices[..|choices| - 1]), choices[|choices| - 1]);
    }
  }

  /** Once both readers have finished, everything retained is determined by the two streams,
      up to how their trace lines were merged. */
  lemma FinishedReadersRetain(render: Render, w: State)
    requires Inv(render, w) && w.out.pc == w.err.pc == Finished
    ensures w.shared.stdout == Kept(w.out.consumed) && w.shared.stderr == Kept(w.err.consumed)
    ensures w.shared.exceeded <==> |w.out.consumed| > RETAINED_OUTPUT_BYTES || |w.err.consumed| > RETAINED_OUTPUT_BYTES
    ensures w.shared.stageTrace == Last(Texts(w.shared.stageLog), RETAINED_TRACE_LINES)
    ensures w.shared.resizeTrace == Last(Texts(w.shared.resizeLog), RETAINED_TRACE_LINES)
    ensures Of(w.shared.stageLog, Stdout) == Matching(CappedLines(w.out.consumed), render, STAGE_MARKER)
    ensures Of(w.shared.stageLog, Stderr) == Matching(CappedLines(w.err.consumed), render, STAGE_MARKER)
    ensures Of(w.shared.resizeLog, Stdout) == Matching(CappedLines(w.out.consumed), render, RESIZE_MARKER)
    ensures Of(w.shared.resizeLog, Stderr) == Matching(CappedLines(w.err.consumed), render, RESIZE_MARKER)
    ensures w.shared.readFailure.None? ==> w.out.eof && w.err.eof
  {
    hide Scan, Matching, Of, Last, Texts, Kept, CappedLines;
    ScanSeesLines(w.out.consumed);
    ScanSeesLines(w.err.consumed);
    assert Done(w.out) == w.out.consumed && Done(w.err) == w.err.consumed;
  }

  // ----- What no step undoes -----------------------------------------------------------------

  /** What stays true however the environment goes on. */
  ghost predicate Later(w: State, later: State) {
    && w.now <= later.now
    && later.signals == w.signals
    && (w.leader.Reaped? ==> later.leader == w.leader)
    && (w.leader.Zombie? ==> later.leader == w.leader)
    && !(later.leader.Reaped? && !w.leader.Reaped?)
    && (GroupGone(w) ==> GroupGone(later))
    && (w.out.pc == Finished ==> later.out == w.out && later.shared.stdout == w.shared.stdout)
    && (w.err.pc == Finished ==> later.err == w.err && later.shared.stderr == w.shared.stderr)
    && (w.out.pc == w.err.pc == Finished ==> later.shared == w.shared)
    && (w.shared.exceeded ==> later.shared.exceeded)
    && (w.shared.readFailure.Some? ==> later.shared.readFailure == w.shared.readFailure)
    && w.shared.stdout <= later.shared.stdout && w.shared.stderr <= later.shared.stderr
  }

  /** Nothing is left that `kill(-pgid, 0)` would find: the leader is reaped and no other
      member lives. */
  predicate GroupGone(w: State) {
    w.leader.Reaped? && w.others == 0
  }

  lemma LaterIsTransitive(a: State, b: State, c: State)
    requires Later(a, b) && Later(b, c)
    ensures Later(a, c)
  {
  }

  lemma StepIsLater(render: Render, w: State, choice: Choice)
    ensures Later(w, Step(render, w, choice))
  {
    hide Carries, Room, ScanByte, RetainTrace;
  }
}

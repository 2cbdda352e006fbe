/** The supervisor thread of `xtask/src/native_smoke.rs`, run against an environment that may
    take any number of steps before each of its actions. */
module Supervisor {
  import opened Prelude
  import opened Capture
  import opened SmokeWorld
  import Refs

  // Durations in nanoseconds.
  const KILL_SETTLE: nat := 50_000_000
  const POLL_INTERVAL: nat := 2_000_000

  /** What holds from any moment on: as `Later`, but the supervisor itself may reap and signal. */
  ghost predicate Onward(w: State, later: State) {
    && w.now <= later.now
    && (w.leader.Reaped? ==> later.leader == w.leader)
    && (GroupGone(w) ==> GroupGone(later))
    && (w.out.pc == Finished ==> later.out == w.out && later.shared.stdout == w.shared.stdout)
    && (w.err.pc == Finished ==> later.err == w.err && later.shared.stderr == w.shared.stderr)
    && (w.out.pc == w.err.pc == Finished ==> later.shared == w.shared)
    && (w.shared.exceeded ==> later.shared.exceeded)
    && (w.shared.readFailure.Some? ==> later.shared.readFailure == w.shared.readFailure)
    && w.shared.stdout <= later.shared.stdout && w.shared.stderr <= later.shared.stderr
  }

  datatype PollResult = StillRunning | ExitedWith(status: ExitStatus) | PollError(error: Str)

  /** What one call of the supervisor was told. */
  datatype Observation =
    | SawExcess(exceeded: bool)
    | SawReadFailure(failure: Option<Str>)
    | SawChild(polled: PollResult)
    | SawTime(now: nat)
    | SawGroup(present: Result<bool, Str>)
    | SawReader(stream: Stream, finished: bool)
    | Signalled(signal: Signal, error: Option<Str>)

  // ----- The supervisor's view of the world ---------------------------------------------

  class World {
    var w: State
    const render: Render

    /** What the calls since the spawn were told, in order. */
    ghost var log: seq<Observation>

    ghost predicate Valid()
      reads this
    {
      Inv(render, w)
    }

    constructor (render: Render, w: State)
      ensures this.render == render && this.w == w && log == []
    {
      this.render := render;
      this.w := w;
      log := [];
    }

    /** Any number of steps of the other threads and processes. */
    method Interfere()
      requires Valid()
      modifies `w
      ensures Valid() && Later(old(w), w)
    {
      hide Inv, Later, Step;
      var steps: nat := *;
      StepIsLater(render, w, Tick(0));
      LaterIsReflexive(w);
      while steps > 0
        invariant Valid() && Later(old(w), w)
        decreases steps
      {
        var choice: Choice := *;
        StepKeepsInv(render, w, choice);
        StepIsLater(render, w, choice);
        LaterIsTransitive(old(w), w, Step(render, w, choice));
        w := Step(render, w, choice);
        steps := steps - 1;
      }
    }

    /** `spawn`, which may fail. */
    method Spawn() returns (error: Option<Str>)
      modifies this
      ensures error.None? ==> Valid() && w.signals == [] && !w.leader.Reaped? && log == []
    {
      hide Inv;
      var fails: bool := *;
      if fails {
        error := Some([]);
        return;
      }
      SpawnedInv(render, w.now);
      w, log := Spawned(w.now), [];
      Interfere();
      error := None;
    }

    /** `poll_child`: `try_wait`, or an injected or real failure of it. */
    method PollChild() returns (r: PollResult)
      requires Valid()
      modifies this
      ensures Valid() && Onward(old(w), w) && w.signals == old(w).signals
      ensures r.ExitedWith? ==> w.leader == Reaped(r.status)
      ensures r.StillRunning? ==> w.leader == Running
      ensures log == old(log) + [SawChild(r)]
    {
      hide ReaderInv, RingInv;
      Interfere();
      var fails: bool := *;
      if fails {
        var error: Str := *;
        r := PollError(error);
      } else {
        match w.leader {
          case Running => r := StillRunning;
          case Zombie(status) =>
            w := w.(leader := Reaped(status));
            r := ExitedWith(status);
          case Reaped(status) => r := ExitedWith(status);
        }
      }
      log := log + [SawChild(r)];
    }

    /** `signal_group`. */
    method SignalGroup(signal: Signal) returns (error: Option<Str>)
      requires Valid()
      modifies this
      ensures Valid() && Onward(old(w), w)
      ensures w.signals == old(w).signals + [SignalEvent(signal, w.now)]
      ensures log == old(log) + [Signalled(signal, error)]
    {
      hide ReaderInv, RingInv;
      Interfere();
      w := w.(signals := w.signals + [SignalEvent(signal, w.now)]);
      error := *;
      log := log + [Signalled(signal, error)];
    }

    /** `group_exists`. A leader that exited but was not reaped still holds the group. */
    method GroupExists() returns (r: Result<bool, Str>)
      requires Valid()
      modifies this
      ensures Valid() && Onward(old(w), w) && w.signals == old(w).signals
      ensures r.Ok? ==> (r.value <==> !GroupGone(w))
      ensures log == old(log) + [SawGroup(r)]
    {
      hide Inv;
      Interfere();
      var fails: bool := *;
      if fails {
        var error: Str := *;
        r := Err(error);
      } else {
        r := Ok(!GroupGone(w));
      }
      log := log + [SawGroup(r)];
    }

    method Now() returns (now: nat)
      requires Valid()
      modifies this
      ensures Valid() && Onward(old(w), w) && w.signals == old(w).signals
      ensures now == w.now && log == old(log) + [SawTime(now)]
    {
      hide Inv;
      Interfere();
      now := w.now;
      log := log + [SawTime(now)];
    }

    method Sleep(duration: nat)
      requires Valid()
      modifies `w
      ensures Valid() && Onward(old(w), w) && w.signals == old(w).signals
      ensures w.now >= old(w).now + duration
    {
      hide Inv, Later;
      ghost var before := w;
      StepKeepsInv(render, w, Tick(duration));
      StepIsLater(render, w, Tick(duration));
      w := Step(render, w, Tick(duration));
      ghost var woken := w;
      Interfere();
      LaterIsTransitive(before, woken, w);
      LaterIsOnward(before, w);
      LaterIsOnward(woken, w);
    }

    method Exceeded() returns (exceeded: bool)
      requires Valid()
      modifies this
      ensures Valid() && Onward(old(w), w) && w.signals == old(w).signals
      ensures exceeded == w.shared.exceeded && log == old(log) + [SawExcess(exceeded)]
    {
      hide Inv;
      Interfere();
      exceeded := w.shared.exceeded;
      log := log + [SawExcess(exceeded)];
    }

    method ReadFailure() returns (failure: Option<Str>)
      requires Valid()
      modifies this
      ensures Valid() && Onward(old(w), w) && w.signals == old(w).signals
      ensures failure == w.shared.readFailure && log == old(log) + [SawReadFailure(failure)]
    {
      hide Inv;
      Interfere();
      failure := w.shared.readFailure;
      log := log + [SawReadFailure(failure)];
    }

    /** `try_recv` on one reader's channel. */
    method TryReceive(stream: Stream) returns (received: bool)
      requires Valid()
      modifies this
      ensures Valid() && Onward(old(w), w) && w.signals == old(w).signals
      ensures received <==> (if stream == Stdout then w.out else w.err).pc == Finished
      ensures log == old(log) + [SawReader(stream, received)]
    {
      hide Inv;
      Interfere();
      received := (if stream == Stdout then w.out else w.err).pc == Finished;
      log := log + [SawReader(stream, received)];
    }

    /** One locked read of `diagnostics`. */
    method Snapshot() returns (shared: Shared)
      requires Valid()
      modifies `w
      ensures Valid() && Onward(old(w), w) && w.signals == old(w).signals
      ensures shared == w.shared
    {
      hide Inv;
      Interfere();
      shared := w.shared;
    }
  }

  lemma LaterIsReflexive(w: State)
    ensures Later(w, w)
  {
  }

  lemma LaterIsOnward(w: State, later: State)
    requires Later(w, later)
    ensures Onward(w, later) && later.signals == w.signals && w.now <= later.now
  {
  }

  lemma OnwardIsTransitive(a: State, b: State, c: State)
    requires Onward(a, b) && Onward(b, c)
    ensures Onward(a, c) && a.now <= c.now
  {
  }

  /** `ReaderTasks`: sticky completion flags over the two channels. */
  class ReaderTasks {
    const world: World
    var stdoutFinished: bool
    var stderrFinished: bool

    ghost predicate Valid()
      reads this, world
    {
      && (stdoutFinished ==> world.w.out.pc == Pc.Finished)
      && (stderrFinished ==> world.w.err.pc == Pc.Finished)
      && (stdoutFinished <==> SawReader(Stdout, true) in world.log)
      && (stderrFinished <==> SawReader(Stderr, true) in world.log)
    }

    constructor (world: World)
      requires SawReader(Stdout, true) !in world.log && SawReader(Stderr, true) !in world.log
      ensures this.world == world && Valid()
    {
      this.world := world;
      stdoutFinished, stderrFinished := false, false;
    }

    method Finished() returns (finished: bool)
      requires Valid() && world.Valid()
      modifies this, world
      ensures Valid() && world.Valid() && Onward(old(world.w), world.w) && world.w.signals == old(world.w).signals
      ensures finished ==> world.w.out.pc == world.w.err.pc == Pc.Finished
      ensures finished <==> SawReader(Stdout, true) in world.log && SawReader(Stderr, true) in world.log
      ensures old(world.log) <= world.log
      ensures forall k :: |old(world.log)| <= k < |world.log| ==> world.log[k].SawReader?
    {
      hide Inv;
      if !stdoutFinished {
        stdoutFinished := world.TryReceive(Stdout);
      }
      if !stderrFinished {
        stderrFinished := world.TryReceive(Stderr);
      }
      finished := stdoutFinished && stderrFinished;
    }
  }

  // ----- Cleanup ----------------------------------------------------------------------------

  /** `Cleanup::error`, by the call that it names. */
  datatype CleanupError =
    | TermFailed(error: Str)
    | KillFailed(error: Str)
    | WaitFailed(error: Str)
    | ProbeFailed(error: Str)
    | DeadlineReached(leaderReaped: bool, groupGone: bool, readersFinished: bool)

  datatype Cleanup = Cleanup(killed: bool, reaped: bool, error: Option<CleanupError>)

  function CleanupDeadline(cleanupStarted: nat, started: nat, parentDeadline: nat, grace: nat): nat {
    Min(cleanupStarted + grace, started + (parentDeadline + grace))
  }

  /** `cleanup_deadline - KILL_SETTLE`, or the start of the cleanup when that underflows. */
  function KillAt(cleanupStarted: nat, deadline: nat): nat {
    if deadline >= KILL_SETTLE then deadline - KILL_SETTLE else cleanupStarted
  }

  /** Nothing of the child is left and both streams were read to their end. */
  ghost predicate Settled(w: State) {
    GroupGone(w) && w.out.pc == w.err.pc == Finished
  }

  /** SIGTERM once and first; SIGKILL at most once, not before `killAt`. */
  ghost predicate Disciplined(signals: seq<SignalEvent>, before: seq<SignalEvent>, killed: bool, killAt: nat) {
    && |signals| == |before| + (if killed then 2 else 1)
    && before <= signals
    && signals[|before|].signal == Term
    && (killed ==>
          && signals[|before| + 1].signal == Kill
          && signals[|before| + 1].at >= killAt
          && signals[|before|].at <= signals[|before| + 1].at)
  }

  lemma TermIsDisciplined(before: seq<SignalEvent>, at: nat, killAt: nat)
    ensures Disciplined(before + [SignalEvent(Term, at)], before, false, killAt)
  {
  }

  lemma KillIsDisciplined(signals: seq<SignalEvent>, before: seq<SignalEvent>, at: nat, killAt: nat)
    requires Disciplined(signals, before, false, killAt)
    requires at >= killAt && forall event :: event in signals[|before|..] ==> event.at <= at
    ensures Disciplined(signals + [SignalEvent(Kill, at)], before, true, killAt)
  {
    assert signals[|before|] in signals[|before|..];
  }

  // ----- What the cleanup has been told -------------------------------------------------------

  ghost predicate SeenReaped(log: seq<Observation>) {
    exists k :: 0 <= k < |log| && log[k].SawChild? && log[k].polled.ExitedWith?
  }

  /** The last answer about the group was that it is gone. */
  ghost predicate SeenGone(log: seq<Observation>) {
    exists k ::
      && 0 <= k < |log| && log[k] == SawGroup(Ok(false))
      && forall later :: k < later < |log| ==> !log[later].SawGroup?
  }

  ghost predicate SeenFinished(log: seq<Observation>) {
    SawReader(Stdout, true) in log && SawReader(Stderr, true) in log
  }

  ghost predicate AllClear(log: seq<Observation>) {
    SeenReaped(log) && SeenGone(log) && SeenFinished(log)
  }

  function ErrorOf(seen: Observation): Option<CleanupError> {
    match seen
    case Signalled(Term, Some(error)) => Some(TermFailed(error))
    case Signalled(Kill, Some(error)) => Some(KillFailed(error))
    case SawChild(PollError(error)) => Some(WaitFailed(error))
    case SawGroup(Err(error)) => Some(ProbeFailed(error))
    case _ => None
  }

  /** `error` is that of the last call since `from` which failed. */
  ghost predicate IsLastError(log: seq<Observation>, from: nat, error: Option<CleanupError>) {
    match error
    case None => forall k :: from <= k < |log| ==> ErrorOf(log[k]).None?
    case Some(_) =>
      exists k ::
        && from <= k < |log| && ErrorOf(log[k]) == error
        && forall later :: k < later < |log| ==> ErrorOf(log[later]).None?
  }

  /** Some look at the clock after the first one was at or past `due`. */
  ghost predicate SeenDue(log: seq<Observation>, from: nat, due: nat) {
    exists k :: from < k < |log| && log[k].SawTime? && log[k].now >= due
  }

  /** No earlier round of probes had found everything gone. */
  ghost predicate NotYetClear(log: seq<Observation>, from: nat) {
    forall k :: from < k < |log| && log[k].SawTime? ==> !AllClear(log[..k])
  }

  lemma ReapedSnoc(log: seq<Observation>, seen: Observation)
    ensures SeenReaped(log + [seen]) <==> SeenReaped(log) || (seen.SawChild? && seen.polled.ExitedWith?)
  {
    var longer := log + [seen];
    assert longer[|log|] == seen;
    if SeenReaped(log) {
      var k :| 0 <= k < |log| && log[k].SawChild? && log[k].polled.ExitedWith?;
      assert longer[k].SawChild?;
    }
  }

  lemma GoneSnoc(log: seq<Observation>, seen: Observation)
    ensures SeenGone(log + [seen]) <==> if seen.SawGroup? then seen.present == Ok(false) else SeenGone(log)
  {
    var longer := log + [seen];
    assert longer[|log|] == seen;
    if SeenGone(log) && !seen.SawGroup? {
      var k :| 0 <= k < |log| && log[k] == SawGroup(Ok(false)) && forall later :: k < later < |log| ==> !log[later].SawGroup?;
      assert longer[k] == SawGroup(Ok(false));
    }
    if SeenGone(longer) && !seen.SawGroup? {
      var k :| 0 <= k < |longer| && longer[k] == SawGroup(Ok(false)) && forall later :: k < later < |longer| ==> !longer[later].SawGroup?;
      assert log[k] == SawGroup(Ok(false)) && forall later :: k < later < |log| ==> log[later] == longer[later];
    }
  }

  lemma LastErrorSnoc(log: seq<Observation>, from: nat, error: Option<CleanupError>, seen: Observation)
    requires from <= |log| && IsLastError(log, from, error)
    ensures IsLastError(log + [seen], from, if ErrorOf(seen).Some? then ErrorOf(seen) else error)
  {
    hide ErrorOf;
    var longer := log + [seen];
    assert longer[|log|] == seen;
    if ErrorOf(seen).None? && error.Some? {
      var k :| from <= k < |log| && ErrorOf(log[k]) == error && forall later :: k < later < |log| ==> ErrorOf(log[later]).None?;
      assert ErrorOf(longer[k]) == error;
    }
  }

  lemma DueSnoc(log: seq<Observation>, from: nat, due: nat, seen: Observation)
    requires from < |log|
    ensures SeenDue(log + [seen], from, due) <==> SeenDue(log, from, due) || (seen.SawTime? && seen.now >= due)
  {
    var longer := log + [seen];
    assert longer[|log|] == seen;
    if SeenDue(log, from, due) {
      var k :| from < k < |log| && log[k].SawTime? && log[k].now >= due;
      assert longer[k].SawTime?;
    }
  }

  lemma NotYetClearSnoc(log: seq<Observation>, from: nat, seen: Observation)
    requires from < |log| && NotYetClear(log, from)
    requires seen.SawTime? ==> !AllClear(log)
    ensures NotYetClear(log + [seen], from)
  {
    hide AllClear;
    var longer := log + [seen];
    forall k | from < k < |longer| && longer[k].SawTime?
      ensures !AllClear(longer[..k])
    {
      if k < |log| {
        assert longer[..k] == log[..k];
      } else {
        assert longer[..k] == log;
      }
    }
  }

  /** What the cleanup's variables say about its log. */
  ghost predicate Informed(log: seq<Observation>, from: nat, leaderReaped: bool, error: Option<CleanupError>) {
    && from < |log|
    && (leaderReaped <==> SeenReaped(log))
    && IsLastError(log, from, error)
  }

  /** What the earlier rounds were told, as far as they looked at the clock. */
  ghost predicate Timed(log: seq<Observation>, from: nat, killed: bool, killAt: nat, deadline: nat) {
    && from < |log|
    && (killed <==> SeenDue(log, from, killAt))
    && NotYetClear(log, from)
    && !SeenDue(log, from, deadline)
  }

  lemma InformedSnoc(log: seq<Observation>, from: nat, leaderReaped: bool, error: Option<CleanupError>, seen: Observation)
    requires Informed(log, from, leaderReaped, error)
    ensures Informed(log + [seen], from, leaderReaped || (seen.SawChild? && seen.polled.ExitedWith?),
                     if ErrorOf(seen).Some? then ErrorOf(seen) else error)
  {
    hide SeenReaped, IsLastError, ErrorOf;
    ReapedSnoc(log, seen);
    LastErrorSnoc(log, from, error, seen);
  }

  lemma TimedSnoc(log: seq<Observation>, from: nat, killed: bool, killAt: nat, deadline: nat, seen: Observation)
    requires Timed(log, from, killed, killAt, deadline)
    requires !seen.SawTime?
    ensures Timed(log + [seen], from, killed, killAt, deadline)
  {
    hide SeenDue, NotYetClear;
    DueSnoc(log, from, killAt, seen);
    DueSnoc(log, from, deadline, seen);
    NotYetClearSnoc(log, from, seen);
  }

  /** Answers of the readers concern neither the leader nor the clock nor an error. */
  lemma {:induction false} ReadersOnly(
    log: seq<Observation>, later: seq<Observation>, from: nat, leaderReaped: bool, killed: bool,
    error: Option<CleanupError>, killAt: nat, deadline: nat)
    requires log <= later && forall k :: |log| <= k < |later| ==> later[k].SawReader?
    requires Informed(log, from, leaderReaped, error) && Timed(log, from, killed, killAt, deadline)
    ensures Informed(later, from, leaderReaped, error) && Timed(later, from, killed, killAt, deadline)
    ensures SeenGone(later) <==> SeenGone(log)
    decreases |later|
  {
    hide Informed, Timed, SeenGone;
    if |later| == |log| {
      assert later == log;
    } else {
      var (init, last) := (later[..|later| - 1], later[|later| - 1]);
      assert later == init + [last];
      ReadersOnly(log, init, from, leaderReaped, killed, error, killAt, deadline);
      InformedSnoc(init, from, leaderReaped, error, last);
      TimedSnoc(init, from, killed, killAt, deadline, last);
      GoneSnoc(init, last);
    }
  }

  /** The probes of one round: the leader, the group, then the readers. */
  method ProbeRound(world: World, alreadyReaped: bool, readers: ReaderTasks, alreadyFailed: Option<CleanupError>,
                    ghost from: nat, ghost killed: bool, ghost killAt: nat, ghost deadline: nat)
    returns (leaderReaped: bool, groupGone: bool, readersFinished: bool, error: Option<CleanupError>)
    requires world.Valid() && readers.Valid() && readers.world == world
    requires alreadyReaped ==> world.w.leader.Reaped?
    requires Informed(world.log, from, alreadyReaped, alreadyFailed) && Timed(world.log, from, killed, killAt, deadline)
    modifies world, readers
    ensures world.Valid() && readers.Valid()
    ensures Onward(old(world.w), world.w) && world.w.signals == old(world.w).signals
    ensures leaderReaped ==> world.w.leader.Reaped?
    ensures leaderReaped && groupGone && readersFinished ==> Settled(world.w)
    ensures old(world.log) <= world.log
    ensures Informed(world.log, from, leaderReaped, error) && Timed(world.log, from, killed, killAt, deadline)
    ensures (groupGone <==> SeenGone(world.log)) && (readersFinished <==> SeenFinished(world.log))
    ensures leaderReaped && groupGone && readersFinished <==> AllClear(world.log)
  {
    hide Inv, Informed, Timed, SeenGone;
    leaderReaped, error := alreadyReaped, alreadyFailed;
    ghost var before := world.log;
    if !leaderReaped {
      var polled := world.PollChild();
      InformedSnoc(before, from, leaderReaped, error, SawChild(polled));
      TimedSnoc(before, from, killed, killAt, deadline, SawChild(polled));
      match polled {
        case ExitedWith(_) => leaderReaped := true;
        case StillRunning =>
        case PollError(waitError) => error := Some(WaitFailed(waitError));
      }
    }
    ghost var polledLog := world.log;
    var found := world.GroupExists();
    InformedSnoc(polledLog, from, leaderReaped, error, SawGroup(found));
    TimedSnoc(polledLog, from, killed, killAt, deadline, SawGroup(found));
    GoneSnoc(polledLog, SawGroup(found));
    groupGone := false;
    match found {
      case Ok(exists_) => groupGone := !exists_;
      case Err(groupError) => error := Some(ProbeFailed(groupError));
    }
    ghost var probedLog := world.log;
    readersFinished := readers.Finished();
    ReadersOnly(probedLog, world.log, from, leaderReaped, killed, error, killAt, deadline);
    InformedReaped(world.log, from, leaderReaped, error);
  }

  lemma InformedReaped(log: seq<Observation>, from: nat, leaderReaped: bool, error: Option<CleanupError>)
    requires Informed(log, from, leaderReaped, error)
    ensures leaderReaped <==> SeenReaped(log)
  {
  }

  /** What the cleanup loop keeps between rounds. */
  ghost predicate CleanupInv(entry: State, w: State, start: nat, leaderReaped: bool, killed: bool, killAt: nat) {
    && Onward(entry, w)
    && start <= w.now
    && (leaderReaped ==> w.leader.Reaped?)
    && entry.signals <= w.signals && Disciplined(w.signals, entry.signals, killed, killAt)
    && (forall event :: event in w.signals[|entry.signals|..] ==> event.at <= w.now)
  }

  lemma CleanupInvStays(entry: State, w: State, later: State, start: nat, leaderReaped: bool, killed: bool, killAt: nat)
    requires CleanupInv(entry, w, start, leaderReaped, killed, killAt)
    requires Onward(w, later) && later.signals == w.signals
    ensures CleanupInv(entry, later, start, leaderReaped, killed, killAt)
  {
    hide Disciplined;
  }

  /** The SIGKILL of one round, once its time has come. */
  method KillIfDue(world: World, alreadyKilled: bool, killAt: nat, now: nat, alreadyFailed: Option<CleanupError>,
                   ghost entry: State, ghost start: nat, ghost leaderReaped: bool, ghost from: nat)
    returns (killed: bool, error: Option<CleanupError>)
    requires world.Valid() && now == world.w.now
    requires CleanupInv(entry, world.w, start, leaderReaped, alreadyKilled, killAt)
    requires Informed(world.log, from, leaderReaped, alreadyFailed)
    modifies world
    ensures world.Valid() && CleanupInv(entry, world.w, start, leaderReaped, killed, killAt)
    ensures killed <==> alreadyKilled || now >= killAt
    ensures Informed(world.log, from, leaderReaped, error)
    ensures world.log == old(world.log)
         || exists failure :: world.log == old(world.log) + [Signalled(Kill, failure)]
    ensures Onward(old(world.w), world.w)
  {
    hide Inv, Disciplined, Informed;
    killed, error := alreadyKilled, alreadyFailed;
    if !killed && now >= killAt {
      killed := true;
      ghost var (signals, log) := (world.w.signals, world.log);
      var killError := world.SignalGroup(Kill);
      KillIsDisciplined(signals, entry.signals, world.w.now, killAt);
      InformedSnoc(log, from, leaderReaped, error, Signalled(Kill, killError));
      if killError.Some? {
        error := Some(KillFailed(killError.value));
      }
    }
  }

  /** What the calls of a cleanup since `from` were told, when it ended with `cleanup`. */
  ghost predicate IsCleanup(log: seq<Observation>, from: nat, cleanup: Cleanup, killAt: nat, deadline: nat) {
    && from < |log|
    && (cleanup.reaped <==> AllClear(log))
    && (cleanup.reaped ==> IsLastError(log, from, cleanup.error))
    && (!cleanup.reaped ==>
          && cleanup.error.Some?
          && (if IsLastError(log, from, None) then
                cleanup.error.value == DeadlineReached(SeenReaped(log), SeenGone(log), SeenFinished(log))
              else IsLastError(log, from, cleanup.error)))
    && (cleanup.killed <==> SeenDue(log, from, killAt))
    && (cleanup.reaped <==> !SeenDue(log, from, deadline))
    && NotYetClear(log, from)
  }

  /** One round of the cleanup loop: the probes, a look at the clock, and the SIGKILL once it is
      due. It ends the loop when everything is gone or the deadline has come. */
  method CleanupRound(world: World, alreadyReaped: bool, alreadyKilled: bool, readers: ReaderTasks, killAt: nat,
                      deadline: nat, alreadyFailed: Option<CleanupError>, ghost entry: State, ghost start: nat, ghost from: nat)
    returns (leaderReaped: bool, killed: bool, error: Option<CleanupError>, ended: Option<Cleanup>)
    requires world.Valid() && readers.Valid() && readers.world == world
    requires CleanupInv(entry, world.w, start, alreadyReaped, alreadyKilled, killAt)
    requires Informed(world.log, from, alreadyReaped, alreadyFailed)
    requires Timed(world.log, from, alreadyKilled, killAt, deadline)
    requires killAt <= start || killAt <= deadline
    modifies world, readers
    ensures world.Valid() && readers.Valid() && old(world.log) <= world.log && old(world.w).now <= world.w.now
    ensures CleanupInv(entry, world.w, start, leaderReaped, killed, killAt)
    ensures ended.None? ==>
              && Informed(world.log, from, leaderReaped, error) && Timed(world.log, from, killed, killAt, deadline)
              && old(world.w).now < deadline
    ensures ended.Some? ==>
              && ended.value.killed == killed && IsCleanup(world.log, from, ended.value, killAt, deadline)
              && (ended.value.reaped ==> Settled(world.w))
              && (!ended.value.reaped ==> killed && ended.value.error.Some? && world.w.now >= deadline)
  {
    hide Inv, Disciplined, Informed, Timed, IsCleanup, AllClear, SeenGone, SeenReaped, SeenFinished, Settled, CleanupInv;
    var groupGone, readersFinished;
    ghost var round := world.w;
    leaderReaped, groupGone, readersFinished, error :=
      ProbeRound(world, alreadyReaped, readers, alreadyFailed, from, alreadyKilled, killAt, deadline)
    by {
      CleanupInvFacts(entry, round, start, alreadyReaped, alreadyKilled, killAt);
    }
    killed := alreadyKilled;
    CleanupInvStays(entry, round, world.w, start, alreadyReaped, killed, killAt);
    CleanupInvReaped(entry, world.w, start, alreadyReaped, leaderReaped, killed, killAt);
    if leaderReaped && groupGone && readersFinished {
      ended := Some(Cleanup(killed, true, error));
      ClearEnds(world.log, from, leaderReaped, ended.value, killAt, deadline);
      return;
    }
    ghost var (probed, probedLog) := (world.w, world.log);
    var now := world.Now();
    CleanupInvStays(entry, probed, world.w, start, leaderReaped, killed, killAt);
    CleanupInvFacts(entry, world.w, start, leaderReaped, killed, killAt);
    InformedSnoc(probedLog, from, leaderReaped, error, SawTime(now));
    ghost var timedLog := world.log;
    killed, error := KillIfDue(world, killed, killAt, now, error, entry, start, leaderReaped, from);
    if now >= deadline {
      ended := Some(Cleanup(killed, false,
        if error.Some? then error else Some(DeadlineReached(leaderReaped, groupGone, readersFinished))));
      DeadlineEnds(probedLog, from, alreadyKilled, killAt, deadline, now, timedLog, world.log, leaderReaped, groupGone,
                   readersFinished, error, ended.value);
    } else {
      RoundEnds(probedLog, from, alreadyKilled, killAt, deadline, now, timedLog, world.log, killed);
      ended := None;
    }
  }

  /** `cleanup_group`. The loop ends because every round that does not return sleeps while the
      time left to the cleanup deadline is positive. */
  method CleanupGroup(
    world: World, alreadyReaped: bool, readers: ReaderTasks, started: nat, parentDeadline: nat, grace: nat
  ) returns (cleanup: Cleanup, ghost cleanupStarted: nat)
    requires world.Valid() && readers.Valid() && readers.world == world
    requires alreadyReaped ==> world.w.leader.Reaped?
    requires alreadyReaped <==> SeenReaped(world.log)
    modifies world, readers
    ensures world.Valid() && Onward(old(world.w), world.w)
    ensures cleanup.reaped ==> Settled(world.w)
    ensures !cleanup.reaped ==> cleanup.killed && cleanup.error.Some?
    ensures old(world.w).now <= cleanupStarted
    ensures Disciplined(world.w.signals, old(world.w).signals, cleanup.killed,
                        KillAt(cleanupStarted, CleanupDeadline(cleanupStarted, started, parentDeadline, grace)))
    ensures !cleanup.reaped ==> world.w.now >= CleanupDeadline(cleanupStarted, started, parentDeadline, grace)
    ensures old(world.log) + [SawTime(cleanupStarted)] <= world.log
    ensures IsCleanup(world.log, |old(world.log)|, cleanup,
                      KillAt(cleanupStarted, CleanupDeadline(cleanupStarted, started, parentDeadline, grace)),
                      CleanupDeadline(cleanupStarted, started, parentDeadline, grace))
  {
    hide Inv, Disciplined, Informed, Timed, IsCleanup, SeenReaped;
    ghost var (entry, entryLog) := (world.w, world.log);
    var start := world.Now();
    cleanupStarted := start;
    var deadline := CleanupDeadline(start, started, parentDeadline, grace);
    var killAt := KillAt(start, deadline);
    assert killAt <= start || killAt <= deadline;
    var termError := world.SignalGroup(Term);
    var error := if termError.Some? then Some(TermFailed(termError.value)) else None;
    TermIsDisciplined(entry.signals, world.w.now, killAt);
    TermInforms(entryLog, start, termError, alreadyReaped, killAt, deadline);
    var (leaderReaped, killed) := (alreadyReaped, false);
    assert CleanupInv(entry, world.w, start, leaderReaped, killed, killAt);
    while true
      invariant world.Valid() && readers.Valid()
      invariant CleanupInv(entry, world.w, start, leaderReaped, killed, killAt)
      invariant entryLog + [SawTime(start)] <= world.log
      invariant Informed(world.log, |entryLog|, leaderReaped, error)
      invariant Timed(world.log, |entryLog|, killed, killAt, deadline)
      decreases if world.w.now < deadline then deadline - world.w.now else 0
    {
      hide CleanupInv, Settled, KillAt, CleanupDeadline;
      var ended;
      leaderReaped, killed, error, ended :=
        CleanupRound(world, leaderReaped, killed, readers, killAt, deadline, error, entry, start, |entryLog|);
      CleanupInvFacts(entry, world.w, start, leaderReaped, killed, killAt);
      if ended.Some? {
        return ended.value, start;
      }
      ghost var signalled := world.w;
      world.Sleep(POLL_INTERVAL);
      CleanupInvStays(entry, signalled, world.w, start, leaderReaped, killed, killAt);
    }
  }

  lemma TermInforms(log: seq<Observation>, start: nat, termError: Option<Str>, alreadyReaped: bool, killAt: nat, deadline: nat)
    requires alreadyReaped <==> SeenReaped(log)
    ensures var later := log + [SawTime(start)] + [Signalled(Term, termError)];
            && Informed(later, |log|, alreadyReaped, if termError.Some? then Some(TermFailed(termError.value)) else None)
            && Timed(later, |log|, false, killAt, deadline)
  {
    hide SeenReaped, AllClear;
    var begun := log + [SawTime(start)];
    ReapedSnoc(log, SawTime(start));
    assert Informed(begun, |log|, alreadyReaped, None);
    assert Timed(begun, |log|, false, killAt, deadline);
    hide Informed, Timed;
    InformedSnoc(begun, |log|, alreadyReaped, None, Signalled(Term, termError));
    TimedSnoc(begun, |log|, false, killAt, deadline, Signalled(Term, termError));
  }

  lemma ClearEnds(log: seq<Observation>, from: nat, leaderReaped: bool, cleanup: Cleanup, killAt: nat, deadline: nat)
    requires Informed(log, from, leaderReaped, cleanup.error) && Timed(log, from, cleanup.killed, killAt, deadline)
    requires cleanup.reaped && AllClear(log)
    ensures IsCleanup(log, from, cleanup, killAt, deadline)
  {
    hide AllClear, SeenDue, NotYetClear, IsLastError;
  }

  /** The look at the clock that ends a round, and the SIGKILL that may follow it. */
  lemma RoundEnds(
    log: seq<Observation>, from: nat, knewKilled: bool, killAt: nat, deadline: nat, now: nat,
    timed: seq<Observation>, later: seq<Observation>, killed: bool)
    requires Timed(log, from, knewKilled, killAt, deadline) && !AllClear(log)
    requires timed == log + [SawTime(now)]
    requires later == timed || exists failure :: later == timed + [Signalled(Kill, failure)]
    requires killed <==> knewKilled || now >= killAt
    ensures from < |later| && (killed <==> SeenDue(later, from, killAt)) && NotYetClear(later, from)
    ensures SeenDue(later, from, deadline) <==> now >= deadline
    ensures AllClear(later) ==> false
    ensures SeenGone(later) == SeenGone(log) && SeenReaped(later) == SeenReaped(log) && SeenFinished(later) == SeenFinished(log)
    ensures now < deadline ==> Timed(later, from, killed, killAt, deadline)
  {
    hide SeenDue, NotYetClear, SeenGone, SeenReaped;
    DueSnoc(log, from, killAt, SawTime(now));
    DueSnoc(log, from, deadline, SawTime(now));
    NotYetClearSnoc(log, from, SawTime(now));
    GoneSnoc(log, SawTime(now));
    ReapedSnoc(log, SawTime(now));
    if later != timed {
      var failure :| later == timed + [Signalled(Kill, failure)];
      DueSnoc(timed, from, killAt, Signalled(Kill, failure));
      DueSnoc(timed, from, deadline, Signalled(Kill, failure));
      NotYetClearSnoc(timed, from, Signalled(Kill, failure));
      GoneSnoc(timed, Signalled(Kill, failure));
      ReapedSnoc(timed, Signalled(Kill, failure));
    }
  }

  lemma DeadlineEnds(
    log: seq<Observation>, from: nat, knewKilled: bool, killAt: nat, deadline: nat, now: nat,
    timed: seq<Observation>, later: seq<Observation>, leaderReaped: bool, groupGone: bool, readersFinished: bool,
    error: Option<CleanupError>, cleanup: Cleanup)
    requires Timed(log, from, knewKilled, killAt, deadline) && !AllClear(log)
    requires (groupGone <==> SeenGone(log)) && (readersFinished <==> SeenFinished(log))
    requires timed == log + [SawTime(now)]
    requires later == timed || exists failure :: later == timed + [Signalled(Kill, failure)]
    requires cleanup.killed <==> knewKilled || now >= killAt
    requires now >= deadline && !cleanup.reaped && Informed(later, from, leaderReaped, error)
    requires cleanup.error == if error.Some? then error else Some(DeadlineReached(leaderReaped, groupGone, readersFinished))
    ensures IsCleanup(later, from, cleanup, killAt, deadline)
  {
    RoundEnds(log, from, knewKilled, killAt, deadline, now, timed, later, cleanup.killed);
    hide AllClear, SeenDue, NotYetClear, SeenGone, SeenReaped, SeenFinished, ErrorOf;
  }

  lemma CleanupInvFacts(entry: State, w: State, start: nat, leaderReaped: bool, killed: bool, killAt: nat)
    requires CleanupInv(entry, w, start, leaderReaped, killed, killAt)
    ensures Onward(entry, w) && start <= w.now && (leaderReaped ==> w.leader.Reaped?)
    ensures Disciplined(w.signals, entry.signals, killed, killAt)
  {
    hide Disciplined, Onward;
  }

  lemma CleanupInvReaped(entry: State, w: State, start: nat, knew: bool, leaderReaped: bool, killed: bool, killAt: nat)
    requires CleanupInv(entry, w, start, knew, killed, killAt)
    requires leaderReaped ==> w.leader.Reaped?
    ensures CleanupInv(entry, w, start, leaderReaped, killed, killAt)
  {
    hide Disciplined, Onward;
  }

  // ----- Supervision -----------------------------------------------------------------------------

  datatype Diagnostics = Diagnostics(stdout: Str, stderr: Str, stageTrace: seq<Str>, resizeTrace: seq<Str>, reaped: bool)

  datatype Receipt = Receipt(diagnostics: Diagnostics, passed: bool)

  datatype Failure =
    | SpawnFailure(error: Str)
    | WaitFailure(error: Str, diagnostics: Diagnostics)
    | ReadFailed(error: Str, diagnostics: Diagnostics)
    | CleanupFailure(cause: CleanupError, diagnostics: Diagnostics)
    | ExitFailure(status: ExitStatus, diagnostics: Diagnostics)
    | TimedOut(killed: bool, diagnostics: Diagnostics)
    | OutputLimit(diagnostics: Diagnostics)
    | ProofMissing(diagnostics: Diagnostics)

  datatype Verdict =
    | Success
    | Waiting(error: Str)
    | Unreadable(error: Str)
    | Exiting(status: ExitStatus)
    | TimingOut
    | Overflowing

  /** Why the polling loop ended, as facts about the world from then on. */
  ghost predicate Grounded(verdict: Verdict, w: State, started: nat, deadline: nat) {
    match verdict
    case Success => w.leader == Reaped(Exited(0))
    case Waiting(_) => true
    case Unreadable(error) => w.shared.readFailure == Some(error)
    case Exiting(status) => w.leader == Reaped(status) && !status.Success()
    case TimingOut => w.now >= started + deadline
    case Overflowing => w.shared.exceeded
  }

  lemma GroundedStays(verdict: Verdict, w: State, later: State, started: nat, deadline: nat)
    requires Grounded(verdict, w, started, deadline) && Onward(w, later)
    ensures Grounded(verdict, later, started, deadline)
  {
  }

  /** What one answer decides, if anything. */
  function Decision(seen: Observation, started: nat, deadline: nat): Option<Verdict> {
    match seen
    case SawExcess(true) => Some(Overflowing)
    case SawReadFailure(Some(error)) => Some(Unreadable(error))
    case SawChild(ExitedWith(status)) => Some(if status.Success() then Success else Exiting(status))
    case SawChild(PollError(error)) => Some(Waiting(error))
    case SawTime(now) => if now >= started + deadline then Some(TimingOut) else None
    case _ => None
  }

  /** The four questions of a round of polling, in turn. */
  predicate InTurn(log: seq<Observation>, from: nat, to: nat)
    requires to <= |log|
  {
    forall k :: from <= k < to ==>
      match (k - from) % 4
      case 0 => log[k].SawExcess?
      case 1 => log[k].SawReadFailure?
      case 2 => log[k].SawChild?
      case _ => log[k].SawTime?
  }

  predicate Undecided(log: seq<Observation>, from: nat, to: nat, started: nat, deadline: nat)
    requires to <= |log|
  {
    forall k :: from <= k < to ==> Decision(log[k], started, deadline).None?
  }

  /** The answers from `from` up to `to` were asked for in turn and the last is the first to decide. */
  ghost predicate Judged(log: seq<Observation>, from: nat, to: nat, verdict: Verdict, started: nat, deadline: nat) {
    && from < to <= |log|
    && InTurn(log, from, to)
    && Undecided(log, from, to - 1, started, deadline)
    && Decision(log[to - 1], started, deadline) == Some(verdict)
  }

  /** What polling keeps between its questions: the answers so far were asked for in turn and decided nothing. */
  ghost predicate Asking(log: seq<Observation>, from: nat, started: nat, deadline: nat) {
    from <= |log| && InTurn(log, from, |log|) && Undecided(log, from, |log|, started, deadline)
  }

  lemma AskedInTurn(log: seq<Observation>, from: nat, seen: Observation, started: nat, deadline: nat)
    requires Asking(log, from, started, deadline)
    requires match (|log| - from) % 4
             case 0 => seen.SawExcess?
             case 1 => seen.SawReadFailure?
             case 2 => seen.SawChild?
             case _ => seen.SawTime?
    ensures var later := log + [seen];
            match Decision(seen, started, deadline)
            case None => Asking(later, from, started, deadline)
            case Some(verdict) => Judged(later, from, |later|, verdict, started, deadline)
  {
    hide Decision;
    var later := log + [seen];
    assert later[|log|] == seen;
    assert forall k :: from <= k < |log| ==> later[k] == log[k];
  }

  /** One round of the polling loop, up to its sleep. */
  method PollRound(world: World, started: nat, deadline: nat, ghost from: nat)
    returns (verdict: Option<Verdict>, leaderReaped: bool)
    requires world.Valid() && Asking(world.log, from, started, deadline) && (|world.log| - from) % 4 == 0
    modifies world
    ensures world.Valid() && Onward(old(world.w), world.w) && world.w.signals == old(world.w).signals
    ensures old(world.log) <= world.log
    ensures verdict.None? ==>
              && Asking(world.log, from, started, deadline) && (|world.log| - from) % 4 == 0
              && old(world.w).now < started + deadline
    ensures verdict.Some? ==>
              && Grounded(verdict.value, world.w, started, deadline)
              && Judged(world.log, from, |world.log|, verdict.value, started, deadline)
              && (leaderReaped <==> verdict.value.Success? || verdict.value.Exiting?)
              && (leaderReaped ==> world.w.leader.Reaped?)
  {
    hide Inv, Asking, Judged, Onward;
    ghost var (entry, log) := (world.w, world.log);
    var exceeded := world.Exceeded();
    AskedInTurn(log, from, SawExcess(exceeded), started, deadline);
    if exceeded {
      return Some(Overflowing), false;
    }
    ghost var before := world.w;
    log := world.log;
    var failure := world.ReadFailure();
    OnwardIsTransitive(entry, before, world.w);
    AskedInTurn(log, from, SawReadFailure(failure), started, deadline);
    if failure.Some? {
      return Some(Unreadable(failure.value)), false;
    }
    before, log := world.w, world.log;
    var polled := world.PollChild();
    OnwardIsTransitive(entry, before, world.w);
    AskedInTurn(log, from, SawChild(polled), started, deadline);
    match polled {
      case ExitedWith(status) =>
        return Some(if status.Success() then Success else Exiting(status)), true;
      case PollError(error) =>
        return Some(Waiting(error)), false;
      case StillRunning =>
        before, log := world.w, world.log;
        var now := world.Now();
        OnwardIsTransitive(entry, before, world.w);
        AskedInTurn(log, from, SawTime(now), started, deadline);
        return if now >= started + deadline then Some(TimingOut) else None, false;
    }
  }

  /** The polling loop of `supervise_with`, up to the cleanup. */
  method PollUntilVerdict(world: World, started: nat, deadline: nat) returns (verdict: Verdict, leaderReaped: bool)
    requires world.Valid()
    modifies world
    ensures world.Valid() && Onward(old(world.w), world.w) && world.w.signals == old(world.w).signals
    ensures Grounded(verdict, world.w, started, deadline)
    ensures leaderReaped ==> world.w.leader.Reaped?
    ensures old(world.log) <= world.log
    ensures Judged(world.log, |old(world.log)|, |world.log|, verdict, started, deadline)
    ensures leaderReaped <==> verdict.Success? || verdict.Exiting?
  {
    hide Inv, Judged, Grounded;
    ghost var from := |world.log|;
    while true
      invariant world.Valid() && Onward(old(world.w), world.w) && world.w.signals == old(world.w).signals
      invariant old(world.log) <= world.log && (|world.log| - from) % 4 == 0
      invariant Asking(world.log, from, started, deadline)
      decreases if world.w.now < started + deadline then started + deadline - world.w.now else 0
    {
      hide Asking;
      var decided;
      decided, leaderReaped := PollRound(world, started, deadline, from);
      if decided.Some? {
        return decided.value, leaderReaped;
      }
      world.Sleep(POLL_INTERVAL);
    }
  }

  /** Diagnostics of any world: what was retained of each stream at some earlier moment. */
  ghost predicate IsGlimpsed(w: State, d: Diagnostics, lossy: Render) {
    exists stdout, stderr :: AreGlimpses(w, d, lossy, stdout, stderr)
  }

  ghost predicate AreGlimpses(w: State, d: Diagnostics, lossy: Render, stdout: seq<byte>, stderr: seq<byte>) {
    stdout <= w.shared.stdout && stderr <= w.shared.stderr && d.stdout == lossy(stdout) && d.stderr == lossy(stderr)
  }

  /** `diagnostics`: four separately locked reads, decoded leniently. */
  method TakeDiagnostics(world: World, lossy: Render, reaped: bool) returns (d: Diagnostics)
    requires world.Valid()
    modifies world`w
    ensures world.Valid() && Onward(old(world.w), world.w) && world.w.signals == old(world.w).signals
    ensures old(Settled(world.w)) ==>
              Settled(world.w) && d == Diagnostics(lossy(world.w.shared.stdout), lossy(world.w.shared.stderr),
                               world.w.shared.stageTrace, world.w.shared.resizeTrace, reaped)
    ensures IsGlimpsed(world.w, d, lossy) && d.reaped == reaped
  {
    hide Inv;
    var stdout := world.Snapshot();
    var stderr := world.Snapshot();
    var stages := world.Snapshot();
    var resizes := world.Snapshot();
    d := Diagnostics(lossy(stdout.stdout), lossy(stderr.stderr), stages.stageTrace, resizes.resizeTrace, reaped);
    assert AreGlimpses(world.w, d, lossy, stdout.stdout, stderr.stderr);
  }

  /** What a pass means: the leader exited 0 and was reaped, its group is gone, both streams
      ended without a failed read, what was retained is the whole of each, and the required
      marker stands in it. */
  ghost predicate Passed(w: State, receipt: Receipt, marker: Option<Str>, lossy: Render) {
    && receipt.passed
    && w.leader == Reaped(Exited(0)) && Settled(w)
    && w.shared.readFailure.None? && w.out.eof && w.err.eof
    && w.shared.stdout == w.out.consumed && w.shared.stderr == w.err.consumed
    && receipt.diagnostics == Diagnostics(lossy(w.out.consumed), lossy(w.err.consumed),
                                          w.shared.stageTrace, w.shared.resizeTrace, true)
    && (marker.Some? ==> Refs.Contains(lossy(w.out.consumed), marker.value))
  }

  /** Diagnostics of a settled world: the retained prefix of each stream, and both rings. */
  ghost predicate IsDiagnosed(w: State, d: Diagnostics, lossy: Render) {
    Settled(w)
    && d == Diagnostics(lossy(Kept(w.out.consumed)), lossy(Kept(w.err.consumed)),
                        w.shared.stageTrace, w.shared.resizeTrace, true)
  }

  /** What each failure other than a failed spawn means: but for a failed cleanup, a settled world
      truly diagnosed and more. */
  ghost predicate Explained(w: State, failure: Failure, marker: Option<Str>, lossy: Render, started: nat, deadline: nat) {
    match failure
    case SpawnFailure(_) => true
    case CleanupFailure(_, d) => IsGlimpsed(w, d, lossy) && !d.reaped
    case WaitFailure(_, d) => IsDiagnosed(w, d, lossy)
    case ReadFailed(error, d) => IsDiagnosed(w, d, lossy) && w.shared.readFailure == Some(error)
    case ExitFailure(status, d) => IsDiagnosed(w, d, lossy) && w.leader == Reaped(status) && !status.Success()
    case TimedOut(_, d) => IsDiagnosed(w, d, lossy) && w.now >= started + deadline
    case OutputLimit(d) =>
      && IsDiagnosed(w, d, lossy)
      && (|w.out.consumed| > RETAINED_OUTPUT_BYTES || |w.err.consumed| > RETAINED_OUTPUT_BYTES)
    case ProofMissing(d) =>
      && IsDiagnosed(w, d, lossy) && w.leader == Reaped(Exited(0)) && d.stdout == lossy(w.out.consumed)
      && marker.Some? && !Refs.Contains(lossy(w.out.consumed), marker.value)
  }

  /** The required marker stands in all of the standard output. */
  predicate IsProven(w: State, marker: Option<Str>, lossy: Render) {
    marker.None? || Refs.Contains(lossy(w.shared.stdout), marker.value)
  }

  /** Which result a verdict leads to over a settled world. */
  ghost predicate Answers(verdict: Verdict, w: State, marker: Option<Str>, lossy: Render, result: Result<Receipt, Failure>) {
    match result
    case Ok(_) => verdict.Success? && !w.shared.exceeded && w.shared.readFailure.None? && IsProven(w, marker, lossy)
    case Err(SpawnFailure(_)) => false
    case Err(CleanupFailure(_, _)) => false
    case Err(WaitFailure(error, _)) => verdict == Waiting(error)
    case Err(ExitFailure(status, _)) => verdict == Exiting(status)
    case Err(TimedOut(_, _)) => verdict == TimingOut
    case Err(OutputLimit(_)) => verdict == Overflowing || (verdict.Success? && w.shared.exceeded)
    case Err(ReadFailed(error, _)) =>
      verdict == Unreadable(error) || (verdict.Success? && !w.shared.exceeded && w.shared.readFailure == Some(error))
    case Err(ProofMissing(_)) =>
      verdict.Success? && !w.shared.exceeded && w.shared.readFailure.None? && !IsProven(w, marker, lossy)
  }

  /** The final match of `supervise_with`, over a settled world. */
  method Conclude(world: World, verdict: Verdict, killed: bool, d: Diagnostics, marker: Option<Str>, lossy: Render,
                  ghost started: nat, ghost deadline: nat)
    returns (result: Result<Receipt, Failure>)
    requires world.Valid() && Settled(world.w) && Grounded(verdict, world.w, started, deadline)
    requires d == Diagnostics(lossy(world.w.shared.stdout), lossy(world.w.shared.stderr),
                              world.w.shared.stageTrace, world.w.shared.resizeTrace, true)
    modifies world
    ensures world.Valid() && world.w.signals == old(world.w).signals && old(world.log) <= world.log && Settled(world.w)
    ensures result.Ok? ==> Passed(world.w, result.value, marker, lossy)
    ensures result.Err? ==> Explained(world.w, result.error, marker, lossy, started, deadline)
    ensures Answers(verdict, world.w, marker, lossy, result)
    ensures result.Err? ==> !result.error.SpawnFailure? && !result.error.CleanupFailure?
    ensures result.Err? && result.error.TimedOut? ==> result.error.killed == killed
  {
    hide Inv, Refs.Contains, Kept;
    SettledFacts(world.render, world.w);
    match verdict {
      case Success =>
        var exceeded := world.Exceeded();
        if exceeded {
          return Err(OutputLimit(d));
        }
        var failure := world.ReadFailure();
        if failure.Some? {
          return Err(ReadFailed(failure.value, d));
        }
        if marker.Some? && !Refs.Contains(d.stdout, marker.value) {
          return Err(ProofMissing(d));
        }
        return Ok(Receipt(d, true));
      case Waiting(error) => return Err(WaitFailure(error, d));
      case Unreadable(error) => return Err(ReadFailed(error, d));
      case Exiting(status) => return Err(ExitFailure(status, d));
      case TimingOut => return Err(TimedOut(killed, d));
      case Overflowing => return Err(OutputLimit(d));
    }
  }

  /** Which answers made up the polling, and which the cleanup: the log is one look at the clock,
      then the polling up to `judged`, then the cleanup up to `cleaned`. */
  datatype Story = Story(started: nat, judged: nat, cleanupStarted: nat, cleaned: nat, cleanup: Cleanup) {
    function CleanupEnd(deadline: nat, grace: nat): nat {
      CleanupDeadline(cleanupStarted, started, deadline, grace)
    }

    function KillTime(deadline: nat, grace: nat): nat {
      KillAt(cleanupStarted, CleanupEnd(deadline, grace))
    }
  }

  /** How the result of a supervision follows from what its calls were told, in a world `w`. */
  ghost predicate Supervised(
    log: seq<Observation>, story: Story, w: State, deadline: nat, grace: nat, marker: Option<Str>, lossy: Render,
    result: Result<Receipt, Failure>)
  {
    && 1 < story.judged < story.cleaned <= |log|
    && log[0] == SawTime(story.started) && log[story.judged] == SawTime(story.cleanupStarted)
    && IsCleanup(log[..story.cleaned], story.judged, story.cleanup, story.KillTime(deadline, grace), story.CleanupEnd(deadline, grace))
    && exists verdict ::
         && Judged(log[..story.judged], 1, story.judged, verdict, story.started, deadline)
         && (if story.cleanup.reaped then Answers(verdict, w, marker, lossy, result)
             else result.Err? && result.error.CleanupFailure? && Some(result.error.cause) == story.cleanup.error)
  }

  /** `supervise_with`. */
  method SuperviseWith(world: World, deadline: nat, termGrace: nat, marker: Option<Str>, lossy: Render)
    returns (result: Result<Receipt, Failure>, ghost story: Story)
    modifies world
    ensures result.Ok? || !result.error.SpawnFailure? ==>
              && world.Valid()
              && Supervised(world.log, story, world.w, deadline, termGrace, marker, lossy, result)
              && Disciplined(world.w.signals, [], story.cleanup.killed, story.KillTime(deadline, termGrace))
              && (story.cleanup.reaped ==> Settled(world.w))
    ensures result.Ok? ==> Passed(world.w, result.value, marker, lossy)
    ensures result.Err? ==> Explained(world.w, result.error, marker, lossy, story.started, deadline)
    ensures result.Err? && result.error.CleanupFailure? ==> story.cleanup.killed
    ensures result.Err? && result.error.TimedOut? ==> result.error.killed == story.cleanup.killed
  {
    hide Inv, Disciplined, Refs.Contains, CleanupDeadline, KillAt, Passed, Grounded, Judged, IsCleanup, Answers, SeenReaped;
    var spawnError := world.Spawn();
    if spawnError.Some? {
      story := Story(0, 0, 0, 0, Cleanup(false, false, None));
      return Err(SpawnFailure(spawnError.value)), story;
    }
    var start := world.Now();
    var readers := new ReaderTasks(world);
    var verdict, leaderReaped := PollUntilVerdict(world, start, deadline);
    ghost var (judged, polling) := (world.w, world.log);
    JudgedReaders(polling, verdict, start, deadline);
    var cleanup;
    ghost var cleanupStarted;
    cleanup, cleanupStarted := CleanupGroup(world, leaderReaped, readers, start, deadline, termGrace);
    GroundedStays(verdict, judged, world.w, start, deadline);
    ghost var (cleaned, cleaning) := (world.w, world.log);
    story := Story(start, |polling|, cleanupStarted, |cleaning|, cleanup);
    var d := TakeDiagnostics(world, lossy, cleanup.reaped);
    GroundedStays(verdict, cleaned, world.w, start, deadline);
    if !cleanup.reaped {
      result := Err(CleanupFailure(cleanup.error.value, d));
    } else {
      result := Conclude(world, verdict, cleanup.killed, d, marker, lossy, start, deadline);
    }
    StoryIsTold(world.log, polling, cleaning, story, verdict, world.w, deadline, termGrace, marker, lossy, result);
  }

  lemma StoryIsTold(
    log: seq<Observation>, polling: seq<Observation>, cleaning: seq<Observation>, story: Story, verdict: Verdict, w: State,
    deadline: nat, grace: nat, marker: Option<Str>, lossy: Render, result: Result<Receipt, Failure>)
    requires polling + [SawTime(story.cleanupStarted)] <= cleaning <= log
    requires [SawTime(story.started)] <= polling && story.judged == |polling| && story.cleaned == |cleaning|
    requires Judged(polling, 1, |polling|, verdict, story.started, deadline)
    requires IsCleanup(cleaning, |polling|, story.cleanup, story.KillTime(deadline, grace), story.CleanupEnd(deadline, grace))
    requires if story.cleanup.reaped then Answers(verdict, w, marker, lossy, result)
             else result.Err? && result.error.CleanupFailure? && Some(result.error.cause) == story.cleanup.error
    ensures Supervised(log, story, w, deadline, grace, marker, lossy, result)
  {
    hide IsCleanup, Answers;
    assert cleaning[|polling|] == SawTime(story.cleanupStarted);
    assert log[..story.judged] == polling && log[..story.cleaned] == cleaning;
    hide Judged;
  }

  /** Polling asks nothing about the readers, and it has seen the leader reaped exactly when its
      verdict says so. */
  lemma JudgedReaders(log: seq<Observation>, verdict: Verdict, started: nat, deadline: nat)
    requires 1 <= |log| && log[0].SawTime? && Judged(log, 1, |log|, verdict, started, deadline)
    ensures SawReader(Stdout, true) !in log && SawReader(Stderr, true) !in log
    ensures SeenReaped(log) <==> verdict.Success? || verdict.Exiting?
  {
    forall k | 0 <= k < |log|
      ensures !log[k].SawReader?
    {
      assert k > 0 ==> 0 <= (k - 1) % 4 < 4;
    }
    if verdict.Success? || verdict.Exiting? {
      assert log[|log| - 1].SawChild?;
    }
  }

  /** The last answer of the polling, and whether the cleanup found everything gone, fix the kind of
      the result and what it carries; no earlier answer gave reason to stop. */
  lemma LastAnswerDecides(
    log: seq<Observation>, story: Story, w: State, deadline: nat, grace: nat, marker: Option<Str>, lossy: Render,
    result: Result<Receipt, Failure>)
    requires Supervised(log, story, w, deadline, grace, marker, lossy, result)
    ensures forall k :: 1 <= k < story.judged - 1 ==>
              || log[k] == SawExcess(false) || log[k] == SawReadFailure(None) || log[k] == SawChild(StillRunning)
              || (log[k].SawTime? && log[k].now < story.started + deadline)
    ensures result.Err? && result.error.CleanupFailure? <==> !story.cleanup.reaped
    ensures story.cleanup.reaped ==>
              match log[story.judged - 1]
              case SawExcess(exceeded) => exceeded && result.Err? && result.error.OutputLimit?
              case SawReadFailure(failure) => result.Err? && result.error.ReadFailed? && failure == Some(result.error.error)
              case SawChild(StillRunning) => false
              case SawChild(PollError(error)) => result.Err? && result.error.WaitFailure? && result.error.error == error
              case SawChild(ExitedWith(Killed)) => result.Err? && result.error.ExitFailure? && result.error.status == Killed
              case SawChild(ExitedWith(Exited(code))) =>
                if code != 0 then result.Err? && result.error.ExitFailure? && result.error.status == Exited(code)
                else if w.shared.exceeded then result.Err? && result.error.OutputLimit?
                else if w.shared.readFailure.Some? then
                  result.Err? && result.error.ReadFailed? && w.shared.readFailure == Some(result.error.error)
                else if marker.Some? && !Refs.Contains(lossy(w.shared.stdout), marker.value) then
                  result.Err? && result.error.ProofMissing?
                else result.Ok?
              case SawTime(now) => now >= story.started + deadline && result.Err? && result.error.TimedOut?
              case _ => false
  {
    hide Refs.Contains, IsCleanup, InTurn;
    var polling := log[..story.judged];
    var verdict :|
      && Judged(polling, 1, story.judged, verdict, story.started, deadline)
      && (if story.cleanup.reaped then Answers(verdict, w, marker, lossy, result)
          else result.Err? && result.error.CleanupFailure? && Some(result.error.cause) == story.cleanup.error);
    forall k | 1 <= k < story.judged - 1
      ensures Decision(log[k], story.started, deadline).None?
      ensures log[k].SawExcess? || log[k].SawReadFailure? || log[k].SawChild? || log[k].SawTime?
    {
      assert polling[k] == log[k];
      QuestionsInTurn(polling, story.judged, k);
    }
    assert polling[story.judged - 1] == log[story.judged - 1];
  }

  lemma QuestionsInTurn(log: seq<Observation>, to: nat, k: nat)
    requires 1 <= k < to <= |log| && InTurn(log, 1, to)
    ensures log[k].SawExcess? || log[k].SawReadFailure? || log[k].SawChild? || log[k].SawTime?
  {
    assert 0 <= (k - 1) % 4 < 4;
  }

  /** A wait failure carries an error that polling the child returned. */
  lemma WaitFailureIsSeen(
    log: seq<Observation>, story: Story, w: State, deadline: nat, grace: nat, marker: Option<Str>, lossy: Render,
    result: Result<Receipt, Failure>)
    requires Supervised(log, story, w, deadline, grace, marker, lossy, result)
    requires result.Err? && result.error.WaitFailure?
    ensures log[story.judged - 1] == SawChild(PollError(result.error.error))
  {
    LastAnswerDecides(log, story, w, deadline, grace, marker, lossy, result);
  }

  /** When the child was seen to exit with 0, its group was last seen gone and both readers were seen
      to finish, the supervision passes exactly when all of both streams was retained, no read
      failed and the marker stands in the output. */
  lemma CleanExitPasses(
    log: seq<Observation>, story: Story, render: Render, w: State, deadline: nat, grace: nat, marker: Option<Str>,
    lossy: Render, result: Result<Receipt, Failure>, gone: nat)
    requires Supervised(log, story, w, deadline, grace, marker, lossy, result)
    requires Inv(render, w) && (story.cleanup.reaped ==> Settled(w))
    requires SawChild(ExitedWith(Exited(0))) in log[1..story.judged]
    requires gone < story.cleaned && log[gone] == SawGroup(Ok(false))
    requires forall later :: gone < later < story.cleaned ==> !log[later].SawGroup?
    requires SawReader(Stdout, true) in log[..story.cleaned] && SawReader(Stderr, true) in log[..story.cleaned]
    ensures result.Ok? <==>
              && |w.out.consumed| <= RETAINED_OUTPUT_BYTES && |w.err.consumed| <= RETAINED_OUTPUT_BYTES
              && w.shared.readFailure.None?
              && (marker.Some? ==> Refs.Contains(lossy(w.out.consumed), marker.value))
  {
    hide Inv, Refs.Contains;
    var cleaning := log[..story.cleaned];
    assert cleaning[gone] == SawGroup(Ok(false));
    var k :| 0 <= k < story.judged - 1 && log[1..story.judged][k] == SawChild(ExitedWith(Exited(0)));
    assert log[k + 1] == cleaning[k + 1] == SawChild(ExitedWith(Exited(0)));
    assert story.cleanup.reaped;
    LastAnswerDecides(log, story, w, deadline, grace, marker, lossy, result);
    assert k + 1 == story.judged - 1;
    SettledFacts(render, w);
  }

  /** What a failed cleanup was told: the clock past its end, and the last failure of a call; when no call
      failed, its error tells which of the leader, the group and the readers had not been seen to end,
      and one of them had not. */
  ghost predicate IsFailedCleanup(log: seq<Observation>, from: nat, error: CleanupError, end: nat)
    requires from < |log|
  {
    var cleaning := log[from + 1..];
    && (exists k :: 0 <= k < |cleaning| && cleaning[k].SawTime? && cleaning[k].now >= end)
    && match error
       case TermFailed(e) => Signalled(Term, Some(e)) in cleaning
       case KillFailed(e) => Signalled(Kill, Some(e)) in cleaning
       case WaitFailed(e) => SawChild(PollError(e)) in cleaning
       case ProbeFailed(e) => SawGroup(Err(e)) in cleaning
       case DeadlineReached(leaderReaped, groupGone, readersFinished) =>
         && !(leaderReaped && groupGone && readersFinished)
         && (leaderReaped <==> exists k :: 0 <= k < |log| && log[k].SawChild? && log[k].polled.ExitedWith?)
         && (readersFinished <==> SawReader(Stdout, true) in log && SawReader(Stderr, true) in log)
         && (groupGone <==>
               exists k :: 0 <= k < |log| && log[k] == SawGroup(Ok(false))
                           && forall later :: k < later < |log| ==> !log[later].SawGroup?)
  }

  lemma CleanupFailureIsSeen(
    log: seq<Observation>, story: Story, w: State, deadline: nat, grace: nat, marker: Option<Str>, lossy: Render,
    result: Result<Receipt, Failure>)
    requires Supervised(log, story, w, deadline, grace, marker, lossy, result)
    requires result.Err? && result.error.CleanupFailure?
    ensures IsFailedCleanup(log[..story.cleaned], story.judged, result.error.cause, story.CleanupEnd(deadline, grace))
  {
    LastAnswerDecides(log, story, w, deadline, grace, marker, lossy, result);
    hide Judged, IsCleanup, Answers, CleanupDeadline, KillAt, IsFailedCleanup;
    assert log[..story.cleaned][story.judged] == log[story.judged];
    UnclearIsFailed(log[..story.cleaned], story.judged, story.cleanup, story.KillTime(deadline, grace), story.CleanupEnd(deadline, grace));
  }

  lemma UnclearIsFailed(log: seq<Observation>, from: nat, cleanup: Cleanup, killAt: nat, end: nat)
    requires IsCleanup(log, from, cleanup, killAt, end) && !cleanup.reaped && log[from].SawTime?
    ensures cleanup.error.Some? && IsFailedCleanup(log, from, cleanup.error.value, end)
  {
    hide NotYetClear, ErrorOf, IsLastError;
    var k :| from < k < |log| && log[k].SawTime? && log[k].now >= end;
    assert log[from + 1..][k - (from + 1)] == log[k];
    if !IsLastError(log, from, None) {
      ErrorIsSeen(log, from, cleanup.error.value);
    }
  }

  lemma ErrorIsSeen(log: seq<Observation>, from: nat, error: CleanupError)
    requires from < |log| && log[from].SawTime? && IsLastError(log, from, Some(error))
    ensures var later := log[from + 1..];
            match error
            case TermFailed(e) => Signalled(Term, Some(e)) in later
            case KillFailed(e) => Signalled(Kill, Some(e)) in later
            case WaitFailed(e) => SawChild(PollError(e)) in later
            case ProbeFailed(e) => SawGroup(Err(e)) in later
            case DeadlineReached(_, _, _) => false
  {
    var k :| from <= k < |log| && ErrorOf(log[k]) == Some(error);
    assert log[from + 1..][k - (from + 1)] == log[k];
  }

  lemma SettledFacts(render: Render, w: State)
    requires Inv(render, w) && Settled(w)
    ensures w.shared.exceeded <==> |w.out.consumed| > RETAINED_OUTPUT_BYTES || |w.err.consumed| > RETAINED_OUTPUT_BYTES
    ensures w.shared.stdout == Kept(w.out.consumed) && w.shared.stderr == Kept(w.err.consumed)
    ensures !w.shared.exceeded ==> w.shared.stdout == w.out.consumed && w.shared.stderr == w.err.consumed
    ensures w.shared.readFailure.None? ==> w.out.eof && w.err.eof
  {
    FinishedReadersRetain(render, w);
  }
}

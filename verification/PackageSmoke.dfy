/** The package lifecycle smoke: `run_smoke`, `run_stage_plan`, `record_stage` and the plan
    builders of `xtask/src/package_smoke.rs`, over an arbitrary executor and file system. */
module PackageSmoke {
  import opened Prelude
  import Hex

  const MAX_OUTPUT_BYTES: nat := 16 * 1024

  datatype Kind = MacosAppZip | MacosDmg | LinuxDeb | LinuxRpm | LinuxTarZst

  datatype Platform = Macos | Linux | OtherPlatform

  datatype Stage = Install | Open | Uninstall

  datatype Stream = Stdout | Stderr

  datatype Command = Command(stage: Stage, program: Str, args: seq<Str>)

  datatype Plan = Plan(commands: seq<Command>, cleanup: seq<Command>)

  datatype Status = Passed | Failed | TimedOut | Skipped

  datatype Outcome = Outcome(
    status: Status, exitCode: Option<int>, killed: bool, reaped: bool, stdout: seq<byte>, stderr: seq<byte>)

  datatype Request = Request(
    kind: Kind, package: Str, packageSha256: Str, expectedExecutableSha256: Str, sourceCommit: Str,
    installTarget: Str, installParent: Option<Str>, binaryPath: Str, evidenceDir: Str)

  datatype Captured = Captured(sha256: Str, device: nat, inode: nat, bytes: nat)

  datatype SmokeError =
    | InvalidRequest
    | PlatformMismatch
    | PackageUnreadable
    | PackageHashMismatch
    | PackageIdentityRace
    | StalePreExistingBinary
    | Io
    | PublishFailed

  /** The text of a failure, by its origin. */
  datatype Failure =
    | ExecutorError(message: Str)
    | StageFailed(stage: Stage, status: Status)
    | HashMismatch(measured: Str)
    | HashFailed(message: Str)
    | ChangedDuringOpen(measured: Str)
    | Residue

  // ----- The world ------------------------------------------------------------------------------

  /** What was done and observed, in order. */
  datatype Event =
    | Captures(captured: Option<Captured>)
    | Prepared(ok: bool)
    | Executed(command: Command, result: Result<Outcome, Str>)
    | Wrote(stage: Stage, stream: Stream, content: seq<byte>, ok: bool)
    | Hashed(digest: Result<Str, Str>)
    | SawBinary(present: bool)
    | SawTarget(present: bool)
    | Published(ok: bool)

  /** How everything outside behaves: any answers at all, possibly depending on all that happened. */
  datatype Nature = Nature(
    platform: Platform,
    pathsAreSafe: bool,
    captures: seq<Event> -> Option<Captured>,
    prepares: seq<Event> -> bool,
    executes: (seq<Event>, Command) -> Result<Outcome, Str>,
    writes: seq<Event> -> bool,
    hashes: seq<Event> -> Result<Str, Str>,
    binaryExists: seq<Event> -> bool,
    targetExists: seq<Event> -> bool,
    publishes: seq<Event> -> bool,
    sha256: seq<byte> -> seq<byte>)

  /** `event` is what nature answers after all that happened before it. */
  ghost predicate Answers(nature: Nature, before: seq<Event>, event: Event) {
    match event
    case Captures(captured) => captured == nature.captures(before)
    case Prepared(ok) => ok == nature.prepares(before)
    case Executed(command, result) => result == nature.executes(before, command)
    case Wrote(_, _, _, ok) => ok == nature.writes(before)
    case Hashed(digest) => digest == nature.hashes(before)
    case SawBinary(present) => present == nature.binaryExists(before)
    case SawTarget(present) => present == nature.targetExists(before)
    case Published(ok) => ok == nature.publishes(before)
  }

  ghost predicate Obeys(nature: Nature, trace: seq<Event>) {
    forall k :: 0 <= k < |trace| ==> Answers(nature, trace[..k], trace[k])
  }

  lemma ObeysMore(nature: Nature, trace: seq<Event>, event: Event)
    requires Obeys(nature, trace) && Answers(nature, trace, event)
    ensures Obeys(nature, trace + [event])
  {
    var more := trace + [event];
    hide Answers;
    forall k | 0 <= k < |more| ensures Answers(nature, more[..k], more[k]) {
      assert more[..k] == trace[..k];
      assert trace[..|trace|] == trace;
    }
  }

  class Lab {
    const nature: Nature
    var trace: seq<Event>

    ghost predicate Valid()
      reads this
    {
      Obeys(nature, trace)
    }

    constructor (nature: Nature)
      ensures this.nature == nature && trace == [] && Valid()
    {
      this.nature := nature;
      trace := [];
    }

    /** `SmokeExecutor::execute`. */
    method Execute(command: Command) returns (result: Result<Outcome, Str>)
      requires Valid()
      modifies this
      ensures Valid()
      ensures trace == old(trace) + [Executed(command, result)]
    {
      result := nature.executes(trace, command);
      ObeysMore(nature, trace, Executed(command, result));
      trace := trace + [Executed(command, result)];
    }

    method CapturePackage() returns (result: Option<Captured>)
      requires Valid()
      modifies this
      ensures Valid()
      ensures trace == old(trace) + [Captures(result)] && result == nature.captures(old(trace))
    {
      result := nature.captures(trace);
      ObeysMore(nature, trace, Captures(result));
      trace := trace + [Captures(result)];
    }

    method PrepareEvidenceDir() returns (ok: bool)
      requires Valid()
      modifies this
      ensures Valid()
      ensures trace == old(trace) + [Prepared(ok)] && ok == nature.prepares(old(trace))
    {
      ok := nature.prepares(trace);
      ObeysMore(nature, trace, Prepared(ok));
      trace := trace + [Prepared(ok)];
    }

    /** `write_create_only`. */
    method Write(stage: Stage, stream: Stream, bytes: seq<byte>) returns (ok: bool)
      requires Valid()
      modifies this
      ensures Valid()
      ensures trace == old(trace) + [Wrote(stage, stream, bytes, ok)]
    {
      ok := nature.writes(trace);
      ObeysMore(nature, trace, Wrote(stage, stream, bytes, ok));
      trace := trace + [Wrote(stage, stream, bytes, ok)];
    }

    /** `hash_installed_binary`. */
    method HashBinary() returns (digest: Result<Str, Str>)
      requires Valid()
      modifies this
      ensures Valid()
      ensures trace == old(trace) + [Hashed(digest)]
    {
      digest := nature.hashes(trace);
      ObeysMore(nature, trace, Hashed(digest));
      trace := trace + [Hashed(digest)];
    }

    method BinaryExists() returns (present: bool)
      requires Valid()
      modifies this
      ensures Valid()
      ensures trace == old(trace) + [SawBinary(present)] && present == nature.binaryExists(old(trace))
    {
      present := nature.binaryExists(trace);
      ObeysMore(nature, trace, SawBinary(present));
      trace := trace + [SawBinary(present)];
    }

    method TargetExists() returns (present: bool)
      requires Valid()
      modifies this
      ensures Valid()
      ensures trace == old(trace) + [SawTarget(present)]
    {
      present := nature.targetExists(trace);
      ObeysMore(nature, trace, SawTarget(present));
      trace := trace + [SawTarget(present)];
    }

    method PublishReceipt() returns (ok: bool)
      requires Valid()
      modifies this
      ensures Valid()
      ensures trace == old(trace) + [Published(ok)]
    {
      ok := nature.publishes(trace);
      ObeysMore(nature, trace, Published(ok));
      trace := trace + [Published(ok)];
    }
  }

  // ----- Plans --------------------------------------------------------------------------------

  function Extension(kind: Kind): string {
    match kind
    case MacosAppZip => ".zip"
    case MacosDmg => ".dmg"
    case LinuxDeb => ".deb"
    case LinuxRpm => ".rpm"
    case LinuxTarZst => ".tar.zst"
  }

  function PlatformOf(kind: Kind): Platform {
    if kind.MacosAppZip? || kind.MacosDmg? then Macos else Linux
  }

  predicate EndsWith(s: Str, suffix: Str) {
    |suffix| <= |s| && s[|s| - |suffix|..] == suffix
  }

  function Single(command: Command): Plan {
    Plan([command], [])
  }

  function MountPoint(request: Request): Str {
    request.evidenceDir + Bytes("/.smoke-mount")
  }

  function Attach(request: Request): Command {
    Command(Install, Bytes("/usr/bin/hdiutil"),
            [Bytes("attach"), Bytes("-mountpoint"), MountPoint(request), Bytes("-nobrowse"), Bytes("-readonly"),
             Bytes("-noverify"), request.package])
  }

  function CopyFromMount(request: Request): Command {
    Command(Install, Bytes("/usr/bin/ditto"), [MountPoint(request) + Bytes("/Rutile.app"), request.installTarget])
  }

  function Detach(request: Request): Command {
    Command(Install, Bytes("/usr/bin/hdiutil"), [Bytes("detach"), MountPoint(request), Bytes("-force")])
  }

  /** `build_install_plan`. */
  function InstallPlan(request: Request): Result<Plan, SmokeError> {
    var _ :- Need(EndsWith(request.package, Bytes(Extension(request.kind))), InvalidRequest);
    match request.kind
    case MacosAppZip =>
      if request.installParent.None? then Err(InvalidRequest)
      else Ok(Single(Command(Install, Bytes("/usr/bin/ditto"),
                             [Bytes("-x"), Bytes("-k"), request.package, request.installParent.value])))
    case MacosDmg =>
      Ok(Plan([Attach(request), CopyFromMount(request), Detach(request)], [Detach(request)]))
    case LinuxDeb =>
      Ok(Single(Command(Install, Bytes("/usr/bin/apt-get"),
                        [Bytes("install"), Bytes("-y"), Bytes("--no-install-recommends"), request.package])))
    case LinuxRpm =>
      Ok(Single(Command(Install, Bytes("/usr/bin/dnf"), [Bytes("install"), Bytes("-y"), request.package])))
    case LinuxTarZst =>
      Ok(Plan([Command(Install, Bytes("/bin/mkdir"), [Bytes("-p"), request.installTarget]),
               Command(Install, Bytes("/usr/bin/tar"),
                       [Bytes("--extract"), Bytes("--zstd"), Bytes("--file"), request.package, Bytes("--directory"),
                        request.installTarget, Bytes("--strip-components=1"), Bytes("--no-same-owner")])], []))
  }

  /** `build_open_plan`. */
  function OpenPlan(request: Request): Plan {
    if PlatformOf(request.kind) == Macos
    then Single(Command(Open, Bytes("/usr/bin/open"),
                        [Bytes("-W"), Bytes("-n"), request.installTarget, Bytes("--args"), Bytes("--native-smoke")]))
    else Single(Command(Open, request.binaryPath, [Bytes("--native-smoke"), Bytes("--single-shot")]))
  }

  /** `build_uninstall_plan`. */
  function UninstallPlan(request: Request): Plan {
    match request.kind
    case LinuxDeb => Single(Command(Uninstall, Bytes("/usr/bin/apt-get"), [Bytes("purge"), Bytes("-y"), Bytes("rutile")]))
    case LinuxRpm => Single(Command(Uninstall, Bytes("/usr/bin/dnf"), [Bytes("remove"), Bytes("-y"), Bytes("rutile")]))
    case _ => Single(Command(Uninstall, Bytes("/bin/rm"), [Bytes("-rf"), request.installTarget]))
  }

  // ----- Running a plan --------------------------------------------------------------------------

  predicate IsPass(event: Event) {
    event.Executed? && event.result.Ok? && event.result.value.status == Passed
  }

  predicate AreCommands(events: seq<Event>, commands: seq<Command>) {
    && |events| == |commands|
    && forall k :: 0 <= k < |events| ==> events[k].Executed? && events[k].command == commands[k]
  }

  /** All commands ran in order, and all passed. */
  predicate RanToTheEnd(plan: Plan, events: seq<Event>) {
    AreCommands(events, plan.commands) && forall k :: 0 <= k < |events| ==> IsPass(events[k])
  }

  /** The first `n` commands ran in order, only the last of them did not pass, and then the whole
      cleanup ran. */
  predicate BrokeOff(plan: Plan, events: seq<Event>, n: nat) {
    && 0 < n <= |plan.commands| && n <= |events|
    && AreCommands(events[..n], plan.commands[..n])
    && (forall k :: 0 <= k < n - 1 ==> IsPass(events[k]))
    && !IsPass(events[n - 1])
    && AreCommands(events[n..], plan.cleanup)
  }

  ghost predicate IsPlanRun(plan: Plan, events: seq<Event>) {
    RanToTheEnd(plan, events) || exists n: nat :: BrokeOff(plan, events, n)
  }

  /** What a pipe's retained output is: the first 16 KiB. */
  function Bounded(bytes: seq<byte>): seq<byte> {
    bytes[..Min(|bytes|, MAX_OUTPUT_BYTES)]
  }

  function OutputOf(events: seq<Event>, stream: Stream): seq<byte> {
    if events == [] then []
    else
      var last := events[|events| - 1];
      OutputOf(events[..|events| - 1], stream)
      + if last.Executed? && last.result.Ok?
        then (if stream == Stdout then last.result.value.stdout else last.result.value.stderr)
        else []
  }

  /** `append_bounded`. */
  method AppendBounded(destination: seq<byte>, source: seq<byte>) returns (r: seq<byte>)
    ensures r == if |destination| <= MAX_OUTPUT_BYTES then Bounded(destination + source) else destination
  {
    r := destination;
    var remaining := if |destination| < MAX_OUTPUT_BYTES then MAX_OUTPUT_BYTES - |destination| else 0;
    if remaining > 0 {
      var take := Min(|source|, remaining);
      r := r + source[..take];
    }
  }

  lemma BoundedAppend(a: seq<byte>, b: seq<byte>)
    ensures Bounded(Bounded(a) + b) == Bounded(a + b)
  {
  }

  method RunCleanup(lab: Lab, cleanup: seq<Command>) returns (ghost events: seq<Event>)
    requires lab.Valid()
    modifies lab
    ensures lab.Valid()
    ensures lab.trace == old(lab.trace) + events && AreCommands(events, cleanup)
  {
    events := [];
    for k := 0 to |cleanup|
      invariant lab.Valid()
      invariant lab.trace == old(lab.trace) + events && AreCommands(events, cleanup[..k])
    {
      var result := lab.Execute(cleanup[k]);
      events := events + [Executed(cleanup[k], result)];
    }
    assert cleanup[..|cleanup|] == cleanup;
  }

  /** The last exit code any of the commands reported. */
  function LastExit(events: seq<Event>): Option<int> {
    if events == [] then None
    else
      var last := events[|events| - 1];
      if last.Executed? && last.result.Ok? && last.result.value.exitCode.Some? then last.result.value.exitCode
      else LastExit(events[..|events| - 1])
  }

  predicate AllReaped(events: seq<Event>) {
    forall k :: 0 <= k < |events| ==> events[k].Executed? && events[k].result.Ok? ==> events[k].result.value.reaped
  }

  /** How a broken-off run shows in the stage's outcome: what all commands up to the break left, and how
      the last of them ended; the text of an executor error is appended whole. */
  predicate ReportsBreak(ran: seq<Event>, outcome: Outcome)
    requires ran != [] && ran[|ran| - 1].Executed?
  {
    && (outcome.reaped <==> AllReaped(ran))
    && outcome.stdout == Bounded(OutputOf(ran, Stdout))
    && match ran[|ran| - 1].result
       case Ok(last) =>
         && outcome.status == last.status && outcome.killed == last.killed && outcome.exitCode == LastExit(ran)
         && outcome.stderr == Bounded(OutputOf(ran, Stderr))
       case Err(error) =>
         && outcome.status == Failed && !outcome.killed && outcome.exitCode == None
         && outcome.stderr == Bounded(OutputOf(ran, Stderr)) + error
  }

  /** What a stage's outcome says about its run. */
  ghost predicate Describes(plan: Plan, events: seq<Event>, outcome: Outcome) {
    && IsPlanRun(plan, events)
    && (forall n: nat :: BrokeOff(plan, events, n) ==> ReportsBreak(events[..n], outcome))
    && (outcome.status == Passed ==> outcome.exitCode == LastExit(events) && !outcome.killed)
    && (outcome.status == Passed <==> RanToTheEnd(plan, events))
    && (outcome.status == Passed ==>
          && (outcome.reaped <==> AllReaped(events))
          && outcome.stdout == Bounded(OutputOf(events, Stdout))
          && outcome.stderr == Bounded(OutputOf(events, Stderr)))
  }

  /** What has been retained of the commands run so far. */
  datatype Retained = Retained(stdout: seq<byte>, stderr: seq<byte>, exitCode: Option<int>, reaped: bool)

  ghost predicate Retains(retained: Retained, events: seq<Event>) {
    && (retained.reaped <==> AllReaped(events))
    && retained.exitCode == LastExit(events)
    && retained.stdout == Bounded(OutputOf(events, Stdout))
    && retained.stderr == Bounded(OutputOf(events, Stderr))
  }

  method Retain(retained: Retained, outcome: Outcome, ghost events: seq<Event>, ghost event: Event) returns (more: Retained)
    requires Retains(retained, events)
    requires event.Executed? && event.result == Ok(outcome)
    ensures Retains(more, events + [event])
  {
    assert (events + [event])[..|events|] == events;
    assert forall k :: 0 <= k < |events| ==> (events + [event])[k] == events[k];
    assert (events + [event])[|events|] == event;
    BoundedAppend(OutputOf(events, Stdout), outcome.stdout);
    BoundedAppend(OutputOf(events, Stderr), outcome.stderr);
    var stdout := AppendBounded(retained.stdout, outcome.stdout);
    var stderr := AppendBounded(retained.stderr, outcome.stderr);
    hide Bounded;
    more := Retained(stdout, stderr, if outcome.exitCode.Some? then outcome.exitCode else retained.exitCode,
                     retained.reaped && outcome.reaped);
  }

  /** A command that could not be executed leaves nothing to retain. */
  lemma NothingRetained(events: seq<Event>, event: Event)
    requires event.Executed? && event.result.Err?
    ensures forall stream :: OutputOf(events + [event], stream) == OutputOf(events, stream)
    ensures AllReaped(events + [event]) <==> AllReaped(events)
  {
    var more := events + [event];
    assert more[..|events|] == events;
    assert forall k :: 0 <= k < |events| ==> more[k] == events[k];
  }

  /** One command of a plan. `broken` is the stage's outcome when it did not pass. */
  method RunCommand(lab: Lab, command: Command, retained: Retained, failure: Option<Failure>, ghost events: seq<Event>)
    returns (broken: Option<Outcome>, more: Retained, failed: Option<Failure>, ghost event: Event)
    requires Retains(retained, events)
    requires lab.Valid()
    modifies lab
    ensures lab.Valid()
    ensures lab.trace == old(lab.trace) + [event]
    ensures event.Executed? && event.command == command
    ensures broken.None? <==> IsPass(event)
    ensures broken.Some? ==> broken.value.status != Passed && ReportsBreak(events + [event], broken.value)
    ensures broken.None? ==> failed == failure && Retains(more, events + [event])
    ensures failure.Some? ==> failed == failure
  {
    hide Bounded, OutputOf, AllReaped, LastExit;
    failed, more := failure, retained;
    var result := lab.Execute(command);
    event := Executed(command, result);
    assert (events + [event])[|events|] == event;
    if result.Err? {
      NothingRetained(events, event);
      if failed.None? {
        failed := Some(ExecutorError(result.error));
      }
      broken := Some(Outcome(Failed, None, false, more.reaped, more.stdout, more.stderr + result.error));
    } else {
      more := Retain(more, result.value, events, event);
      if result.value.status == Passed {
        broken := None;
      } else {
        broken := Some(Outcome(result.value.status, more.exitCode, result.value.killed, more.reaped, more.stdout, more.stderr));
      }
    }
  }

  /** `run_stage_plan`. */
  method RunStagePlan(lab: Lab, plan: Plan, failure: Option<Failure>)
    returns (outcome: Outcome, failed: Option<Failure>, ghost events: seq<Event>)
    requires lab.Valid()
    modifies lab
    ensures lab.Valid()
    ensures lab.trace == old(lab.trace) + events
    ensures Describes(plan, events, outcome)
    ensures failure.Some? ==> failed == failure
    ensures failed.Some? && failure.None? ==> outcome.status != Passed
  {
    failed := failure;
    events := [];
    var retained := Retained([], [], None, true);
    hide *;
    NonePassed(plan);
    for k := 0 to |plan.commands|
      invariant lab.Valid()
      invariant lab.trace == old(lab.trace) + events
      invariant HavePassed(plan, events, k)
      invariant Retains(retained, events)
      invariant failed == failure
    {
      var broken, more, failedNow, event := RunCommand(lab, plan.commands[k], retained, failed, events);
      OneMoreRan(plan, events, k, event);
      retained, failed := more, failedNow;
      if broken.Some? {
        ghost var cleaned := RunCleanup(lab, plan.cleanup);
        BrokenRun(plan, events, event, cleaned, k, broken.value);
        events := events + [event] + cleaned;
        return broken.value, failed, events;
      }
      events := events + [event];
    }
    outcome := Outcome(Passed, retained.exitCode, false, retained.reaped, retained.stdout, retained.stderr);
    FullRun(plan, events, retained, outcome);
  }

  /** The first `n` commands ran, and passed. */
  predicate HavePassed(plan: Plan, events: seq<Event>, n: nat) {
    && n <= |plan.commands|
    && AreCommands(events, plan.commands[..n])
    && forall k :: 0 <= k < n ==> IsPass(events[k])
  }

  lemma NonePassed(plan: Plan)
    ensures HavePassed(plan, [], 0) && Retains(Retained([], [], None, true), [])
  {
  }

  lemma OneMoreRan(plan: Plan, events: seq<Event>, n: nat, event: Event)
    requires HavePassed(plan, events, n) && n < |plan.commands|
    requires event.Executed? && event.command == plan.commands[n]
    ensures IsPass(event) ==> HavePassed(plan, events + [event], n + 1)
  {
  }

  lemma FullRun(plan: Plan, ran: seq<Event>, retained: Retained, outcome: Outcome)
    requires HavePassed(plan, ran, |plan.commands|)
    requires Retains(retained, ran)
    requires outcome.status == Passed && outcome.reaped == retained.reaped && !outcome.killed
    requires outcome.exitCode == retained.exitCode
    requires outcome.stdout == retained.stdout && outcome.stderr == retained.stderr
    ensures Describes(plan, ran, outcome)
  {
    hide IsPass, OutputOf, Bounded, AllReaped;
    assert plan.commands[..|plan.commands|] == plan.commands;
  }

  lemma BreakIsUnique(plan: Plan, events: seq<Event>, m: nat, n: nat)
    requires BrokeOff(plan, events, m) && BrokeOff(plan, events, n)
    ensures m == n
  {
    hide IsPass, AreCommands;
  }

  lemma BrokenRun(plan: Plan, ran: seq<Event>, event: Event, cleaned: seq<Event>, n: nat, outcome: Outcome)
    requires HavePassed(plan, ran, n) && n < |plan.commands|
    requires event.Executed? && event.command == plan.commands[n] && !IsPass(event)
    requires AreCommands(cleaned, plan.cleanup)
    requires outcome.status != Passed && ReportsBreak(ran + [event], outcome)
    ensures Describes(plan, ran + [event] + cleaned, outcome)
  {
    var events := ran + [event] + cleaned;
    hide IsPass, OutputOf, ReportsBreak, AllReaped, LastExit, Bounded;
    assert events[..n + 1] == ran + [event] && events[n + 1..] == cleaned;
    assert events[n] == event && forall k :: 0 <= k < n ==> events[k] == ran[k];
    assert BrokeOff(plan, events, n + 1);
    forall m: nat | BrokeOff(plan, events, m) ensures m == n + 1 {
      BreakIsUnique(plan, events, m, n + 1);
    }
  }

  /** Whatever the executor does, a disk-image install that ran anything began with the attach
      and ended with the detach. */
  lemma ImageIsDetached(request: Request, events: seq<Event>)
    requires request.kind == MacosDmg && InstallPlan(request).Ok?
    requires IsPlanRun(InstallPlan(request).value, events)
    ensures events != []
    ensures events[0].Executed? && events[0].command == Attach(request)
    ensures var last := events[|events| - 1]; last.Executed? && last.command == Detach(request)
  {
    hide Attach, Detach, CopyFromMount, Bytes;
    var plan := InstallPlan(request).value;
    if RanToTheEnd(plan, events) {
      assert plan.commands[2] == Detach(request);
    } else {
      var n: nat :| BrokeOff(plan, events, n);
      assert events[..n][0] == events[0] && plan.commands[..n][0] == Attach(request);
      assert |events| == n + 1 && events[n..][0] == events[n];
    }
  }

  // ----- The stages ---------------------------------------------------------------------------

  datatype EvidenceRef = EvidenceRef(stage: Stage, stream: Stream, bytes: nat, sha256: Str)

  datatype Row = Row(status: Status, exitCode: Option<int>, reaped: bool, observedBinary: bool, executableSha256: Option<Str>)

  function RefOf(nature: Nature, stage: Stage, stream: Stream, bytes: seq<byte>): EvidenceRef {
    EvidenceRef(stage, stream, |bytes|, Hex.Encode(nature.sha256(bytes)))
  }

  /** Both logs were written, and the last two refs are theirs. */
  ghost predicate IsRecorded(nature: Nature, stage: Stage, events: seq<Event>, refs: seq<EvidenceRef>) {
    && |events| == 2 && |refs| == 2
    && events[0].Wrote? && events[0].ok && events[0].stage == stage && events[0].stream == Stdout
    && events[1].Wrote? && events[1].ok && events[1].stage == stage && events[1].stream == Stderr
    && |events[0].content| <= MAX_OUTPUT_BYTES && |events[1].content| <= MAX_OUTPUT_BYTES
    && refs[0] == RefOf(nature, stage, Stdout, events[0].content)
    && refs[1] == RefOf(nature, stage, Stderr, events[1].content)
  }

  /** `record_stage`. */
  method RecordStage(lab: Lab, stage: Stage, outcome: Outcome)
    returns (r: Result<seq<EvidenceRef>, SmokeError>, ghost events: seq<Event>)
    requires lab.Valid()
    modifies lab
    ensures lab.Valid()
    ensures lab.trace == old(lab.trace) + events
    ensures r.Ok? ==> IsRecorded(lab.nature, stage, events, r.value)
    ensures r.Ok? ==> events[0].content == Bounded(outcome.stdout) && events[1].content == Bounded(outcome.stderr)
    ensures r.Err? ==> exists k :: 0 <= k < |events| && events[k].Wrote? && !events[k].ok
    ensures forall k :: 0 <= k < |events| ==> events[k].Wrote?
  {
    var (stdout, stderr) := (Bounded(outcome.stdout), Bounded(outcome.stderr));
    var ok := lab.Write(stage, Stdout, stdout);
    events := [Wrote(stage, Stdout, stdout, ok)];
    if !ok {
      assert events[0].Wrote? && !events[0].ok;
      return Err(PublishFailed), events;
    }
    ok := lab.Write(stage, Stderr, stderr);
    events := events + [Wrote(stage, Stderr, stderr, ok)];
    if !ok {
      assert events[1].Wrote? && !events[1].ok;
      return Err(PublishFailed), events;
    }
    return Ok([RefOf(lab.nature, stage, Stdout, stdout), RefOf(lab.nature, stage, Stderr, stderr)]), events;
  }

  /** What a stage did: its plan run (empty when it was skipped), its records, its checks. */
  datatype Story = Story(run: seq<Event>, record: seq<Event>, checks: seq<Event>)

  function EventsOf(story: Story): seq<Event> {
    story.run + story.record + story.checks
  }

  datatype Staged = Staged(outcome: Outcome, refs: seq<EvidenceRef>, observed: bool)

  /** The binary hashed to the expected digest after the stage had run to its end. */
  ghost predicate SawExpectedBinary(request: Request, plan: Plan, story: Story) {
    RanToTheEnd(plan, story.run) && story.checks == [Hashed(Ok(request.expectedExecutableSha256))]
  }

  ghost predicate IsStage(lab: Lab, plan: Plan, stage: Stage, story: Story, staged: Staged) {
    && Describes(plan, story.run, staged.outcome)
    && IsRecorded(lab.nature, stage, story.record, staged.refs)
  }

  ghost predicate WasNotRecorded(story: Story) {
    && story.checks == []
    && (forall k :: 0 <= k < |story.record| ==> story.record[k].Wrote?)
    && exists k :: 0 <= k < |story.record| && story.record[k].Wrote? && !story.record[k].ok
  }

  /** The install stage of `run_smoke`. */
  method InstallStage(request: Request, lab: Lab, plan: Plan)
    returns (r: Result<Staged, SmokeError>, failure: Option<Failure>, ghost story: Story)
    requires lab.Valid()
    modifies lab
    ensures lab.Valid()
    ensures lab.trace == old(lab.trace) + EventsOf(story)
    ensures IsPlanRun(plan, story.run)
    ensures r.Err? ==> WasNotRecorded(story)
    ensures r.Ok? ==>
              && IsStage(lab, plan, Install, story, r.value)
              && (r.value.observed <==> SawExpectedBinary(request, plan, story))
              && (failure.None? <==> r.value.observed)
  {
    hide Bounded, OutputOf, IsPlanRun, RanToTheEnd, IsRecorded;
    ghost var before := lab.trace;
    var outcome, failed, run := RunStagePlan(lab, plan, None);
    failure := failed;
    var recorded, record := RecordStage(lab, Install, outcome);
    story := Story(run, record, []);
    if recorded.Err? {
      return Err(recorded.error), failure, story;
    }
    if outcome.status == Passed {
      var digest := lab.HashBinary();
      story := story.(checks := [Hashed(digest)]);
      match digest {
        case Ok(measured) =>
          if measured != request.expectedExecutableSha256 && failure.None? {
            failure := Some(HashMismatch(measured));
          }
        case Err(message) =>
          if failure.None? {
            failure := Some(HashFailed(message));
          }
      }
      return Ok(Staged(outcome, recorded.value, failure.None?)), failure, story;
    }
    if failure.None? {
      failure := Some(StageFailed(Install, outcome.status));
    }
    return Ok(Staged(outcome, recorded.value, false)), failure, story;
  }

  const SKIPPED := Outcome(Skipped, None, false, true, [], [])

  /** The open stage of `run_smoke`; it is skipped unless the install left the expected binary. */
  method OpenStage(request: Request, lab: Lab, plan: Plan, installed: bool, before: Option<Failure>)
    returns (r: Result<Staged, SmokeError>, failure: Option<Failure>, ghost story: Story)
    requires before.None? <==> installed
    requires lab.Valid()
    modifies lab
    ensures lab.Valid()
    ensures lab.trace == old(lab.trace) + EventsOf(story)
    ensures installed ==> IsPlanRun(plan, story.run)
    ensures !installed ==> story.run == [] && story.checks == [] && failure == before
    ensures r.Err? ==> WasNotRecorded(story)
    ensures r.Ok? ==>
              && IsRecorded(lab.nature, Open, story.record, r.value.refs)
              && (installed ==> Describes(plan, story.run, r.value.outcome))
              && (!installed ==> r.value.outcome == SKIPPED)
              && (r.value.observed <==> installed && SawExpectedBinary(request, plan, story))
              && (failure.None? <==> before.None? && r.value.observed)
  {
    hide Bounded, OutputOf, IsPlanRun, RanToTheEnd, IsRecorded;
    failure := before;
    var outcome := SKIPPED;
    ghost var run: seq<Event> := [];
    if installed {
      outcome, failure, run := RunStagePlan(lab, plan, before);
    }
    var recorded, record := RecordStage(lab, Open, outcome);
    story := Story(run, record, []);
    if recorded.Err? {
      return Err(recorded.error), failure, story;
    }
    if outcome.status == Passed {
      var digest := lab.HashBinary();
      story := story.(checks := [Hashed(digest)]);
      match digest {
        case Ok(measured) =>
          if measured != request.expectedExecutableSha256 && failure.None? {
            failure := Some(ChangedDuringOpen(measured));
          }
        case Err(message) =>
          if failure.None? {
            failure := Some(HashFailed(message));
          }
      }
      return Ok(Staged(outcome, recorded.value, failure.None?)), failure, story;
    }
    if failure.None? {
      failure := Some(StageFailed(Open, outcome.status));
    }
    return Ok(Staged(outcome, recorded.value, false)), failure, story;
  }

  /** `is_residue_candidate`. */
  predicate IsResidueCandidate(request: Request) {
    request.installTarget != Bytes("/") && request.installTarget != request.binaryPath
  }

  /** The uninstall ran to its end, and what it should have removed is gone. */
  ghost predicate LeftNothing(request: Request, plan: Plan, story: Story) {
    && RanToTheEnd(plan, story.run)
    && story.checks == [SawBinary(false)] + if IsResidueCandidate(request) then [SawTarget(false)] else []
  }

  /** The uninstall stage of `run_smoke`, with its residue check. */
  method UninstallStage(request: Request, lab: Lab, plan: Plan, before: Option<Failure>)
    returns (r: Result<Staged, SmokeError>, failure: Option<Failure>, ghost story: Story)
    requires lab.Valid()
    modifies lab
    ensures lab.Valid()
    ensures lab.trace == old(lab.trace) + EventsOf(story)
    ensures IsPlanRun(plan, story.run)
    ensures r.Err? ==> WasNotRecorded(story)
    ensures r.Ok? ==>
              && IsStage(lab, plan, Uninstall, story, r.value)
              && (failure.None? <==> before.None? && LeftNothing(request, plan, story))
              && (r.value.observed <==> (r.value.outcome.status == Passed ==> LeftNothing(request, plan, story)))
  {
    hide Bounded, OutputOf, IsPlanRun, RanToTheEnd, IsRecorded, IsResidueCandidate;
    var outcome, failed, run := RunStagePlan(lab, plan, before);
    failure := failed;
    var recorded, record := RecordStage(lab, Uninstall, outcome);
    story := Story(run, record, []);
    if recorded.Err? {
      return Err(recorded.error), failure, story;
    }
    if outcome.status != Passed && failure.None? {
      failure := Some(StageFailed(Uninstall, outcome.status));
    }
    var residue := false;
    if outcome.status == Passed {
      var binary := lab.BinaryExists();
      story := story.(checks := [SawBinary(binary)]);
      residue := binary;
      assert story.checks[0] == SawBinary(binary);
      assert [SawBinary(false)] + [] == [SawBinary(false)];
      if IsResidueCandidate(request) {
        var target := lab.TargetExists();
        story := story.(checks := story.checks + [SawTarget(target)]);
        residue := residue || target;
        assert story.checks[0] == SawBinary(binary) && story.checks[1] == SawTarget(target);
      }
      if residue && failure.None? {
        failure := Some(Residue);
      }
    }
    return Ok(Staged(outcome, recorded.value, !residue)), failure, story;
  }

  // ----- The whole smoke -------------------------------------------------------------------------

  /** `validate_request_shape`, without its look at the paths. */
  predicate IsShaped(request: Request) {
    && EndsWith(request.package, Bytes(Extension(request.kind)))
    && Hex.IsLowerHex(request.packageSha256, 64)
    && Hex.IsLowerHex(request.expectedExecutableSha256, 64)
    && Hex.IsLowerHex(request.sourceCommit, 40)
  }

  /** Nothing was run. */
  predicate RanNothing(events: seq<Event>) {
    forall k :: 0 <= k < |events| ==> !events[k].Executed?
  }

  /** Every check before the first command passes. */
  ghost predicate IsReady(request: Request, nature: Nature, before: seq<Event>) {
    && IsShaped(request) && nature.pathsAreSafe && PlatformOf(request.kind) == nature.platform
    && InstallPlan(request).Ok?
    && var captured := nature.captures(before);
    && captured.Some? && captured.value.sha256 == request.packageSha256
    && nature.captures(before + [Captures(captured)]) == captured
    && !nature.binaryExists(before + [Captures(captured), Captures(captured)])
    && nature.prepares(before + [Captures(captured), Captures(captured), SawBinary(false)])
  }

  /** What has to hold before the first command: a package of the kind's extension on the kind's platform,
      well-formed digests, paths that are safe, the package there twice alike and with the requested
      digest, no binary there yet, and a place for the evidence. */
  lemma ReadyIsExact(request: Request, nature: Nature, before: seq<Event>)
    ensures IsReady(request, nature, before) <==>
              && (match request.kind
                  case MacosAppZip => EndsWith(request.package, Bytes(".zip")) && nature.platform == Macos && request.installParent.Some?
                  case MacosDmg => EndsWith(request.package, Bytes(".dmg")) && nature.platform == Macos
                  case LinuxDeb => EndsWith(request.package, Bytes(".deb")) && nature.platform == Linux
                  case LinuxRpm => EndsWith(request.package, Bytes(".rpm")) && nature.platform == Linux
                  case LinuxTarZst => EndsWith(request.package, Bytes(".tar.zst")) && nature.platform == Linux)
              && Hex.IsLowerHex(request.packageSha256, 64) && Hex.IsLowerHex(request.expectedExecutableSha256, 64)
              && Hex.IsLowerHex(request.sourceCommit, 40)
              && nature.pathsAreSafe
              && nature.captures(before).Some? && nature.captures(before).value.sha256 == request.packageSha256
              && var capture := Captures(nature.captures(before));
              && nature.captures(before + [capture]) == nature.captures(before)
              && !nature.binaryExists(before + [capture, capture])
              && nature.prepares(before + [capture, capture, SawBinary(false)])
  {
    hide Bytes, Hex.IsLowerHex;
  }

  /** Every command is of its plan's stage; the package is installed by name; what is opened, and outside of
      a package manager what is removed, is the place it was installed to. */
  lemma PlansAreOfRequest(request: Request)
    ensures InstallPlan(request).Ok? ==>
              var plan := InstallPlan(request).value;
              && (forall k :: 0 <= k < |plan.commands| ==> plan.commands[k].stage == Install)
              && (forall k :: 0 <= k < |plan.cleanup| ==> plan.cleanup[k].stage == Install)
              && (exists k :: 0 <= k < |plan.commands| && request.package in plan.commands[k].args)
    ensures var (open, uninstall) := (OpenPlan(request), UninstallPlan(request));
            && |open.commands| == |uninstall.commands| == 1 && open.cleanup == uninstall.cleanup == []
            && open.commands[0].stage == Open && uninstall.commands[0].stage == Uninstall
            && (if request.kind.MacosAppZip? || request.kind.MacosDmg? then request.installTarget in open.commands[0].args
                else open.commands[0].program == request.binaryPath)
            && (!request.kind.LinuxDeb? && !request.kind.LinuxRpm? ==> uninstall.commands[0].args[1..] == [request.installTarget])
  {
    hide Bytes;
    if InstallPlan(request).Ok? {
      var plan := InstallPlan(request).value;
      var installer := if request.kind.LinuxTarZst? then 1 else 0;
      assert request.package in plan.commands[installer].args;
    }
  }

  /** Everything `run_smoke` checks before the first command. */
  method Preflight(request: Request, lab: Lab) returns (r: Result<(Captured, Plan), SmokeError>, ghost events: seq<Event>)
    requires lab.Valid()
    modifies lab
    ensures lab.Valid()
    ensures lab.trace == old(lab.trace) + events && RanNothing(events)
    ensures r.Ok? <==> IsReady(request, lab.nature, old(lab.trace))
    ensures r.Ok? ==>
              && IsShaped(request) && PlatformOf(request.kind) == lab.nature.platform
              && r.value.0.sha256 == request.packageSha256
              && events == [Captures(Some(r.value.0)), Captures(Some(r.value.0)), SawBinary(false), Prepared(true)]
              && InstallPlan(request) == Ok(r.value.1)
  {
    hide InstallPlan, Hex.IsLowerHex, EndsWith, Bytes, Obeys;
    ghost var before := lab.trace;
    events := [];
    if !IsShaped(request) || !lab.nature.pathsAreSafe {
      return Err(InvalidRequest), events;
    }
    if lab.nature.platform != PlatformOf(request.kind) {
      return Err(PlatformMismatch), events;
    }
    var captured := lab.CapturePackage();
    events := [Captures(captured)];
    if captured.None? {
      return Err(PackageUnreadable), events;
    }
    if captured.value.sha256 != request.packageSha256 {
      return Err(PackageHashMismatch), events;
    }
    assert lab.trace == before + events;
    var again := lab.CapturePackage();
    events := [Captures(captured), Captures(again)];
    if again.None? {
      return Err(PackageUnreadable), events;
    }
    if again != captured {
      return Err(PackageIdentityRace), events;
    }
    assert lab.trace == before + events;
    var stale := lab.BinaryExists();
    events := [Captures(captured), Captures(again), SawBinary(stale)];
    if stale {
      return Err(StalePreExistingBinary), events;
    }
    assert lab.trace == before + events;
    var ok := lab.PrepareEvidenceDir();
    events := [Captures(captured), Captures(again), SawBinary(stale), Prepared(ok)];
    if !ok {
      return Err(Io), events;
    }
    var plan := InstallPlan(request);
    if plan.Err? {
      return Err(plan.error), events;
    }
    return Ok((captured.value, plan.value)), events;
  }

  datatype Receipt = Receipt(
    kind: Kind, platform: Platform, sourceCommit: Str, expectedExecutableSha256: Str, package: Captured,
    install: Row, open: Row, uninstall: Row, evidenceRefs: seq<EvidenceRef>, passed: bool)

  datatype Execution = Execution(receipt: Receipt, failure: Option<Failure>)

  /** All that `run_smoke` did. A stage that was not reached has an empty story. */
  datatype Saga = Saga(preflight: seq<Event>, install: Story, open: Story, uninstall: Story, receipt: seq<Event>)

  const UNTOLD := Story([], [], [])

  ghost function EventsOfAll(saga: Saga): seq<Event> {
    saga.preflight + EventsOf(saga.install) + EventsOf(saga.open) + EventsOf(saga.uninstall) + saga.receipt
  }

  function RowOf(staged: Staged, observed: bool, digest: Option<Str>): Row {
    Row(staged.outcome.status, staged.outcome.exitCode, staged.outcome.reaped, observed, digest)
  }

  /** What a passed smoke was. */
  ghost predicate IsPassed(request: Request, saga: Saga) {
    && InstallPlan(request).Ok?
    && SawExpectedBinary(request, InstallPlan(request).value, saga.install)
    && SawExpectedBinary(request, OpenPlan(request), saga.open)
    && LeftNothing(request, UninstallPlan(request), saga.uninstall)
  }

  /** The three stages, each with its story. */
  datatype Stages = Stages(install: Staged, open: Staged, uninstall: Staged)

  ghost predicate AreStaged(request: Request, nature: Nature, stages: Stages, saga: Saga) {
    && InstallPlan(request).Ok? && Describes(InstallPlan(request).value, saga.install.run, stages.install.outcome)
    && (stages.install.observed <==> SawExpectedBinary(request, InstallPlan(request).value, saga.install))
    && (stages.open.observed <==>
          stages.install.observed && SawExpectedBinary(request, OpenPlan(request), saga.open))
    && (if stages.install.observed then Describes(OpenPlan(request), saga.open.run, stages.open.outcome)
        else saga.open.run == [] && stages.open.outcome == SKIPPED)
    && Describes(UninstallPlan(request), saga.uninstall.run, stages.uninstall.outcome)
    && (stages.uninstall.observed <==>
          (stages.uninstall.outcome.status == Passed ==> LeftNothing(request, UninstallPlan(request), saga.uninstall)))
    && IsRecorded(nature, Install, saga.install.record, stages.install.refs)
    && IsRecorded(nature, Open, saga.open.record, stages.open.refs)
    && IsRecorded(nature, Uninstall, saga.uninstall.record, stages.uninstall.refs)
  }

  /** Both logs of a stage were written. */
  predicate WasRecorded(story: Story) {
    && |story.record| == 2
    && story.record[0].Wrote? && story.record[0].ok && story.record[1].Wrote? && story.record[1].ok
  }

  /** How a smoke without a receipt ended: after an install, the uninstall plan was left out exactly
      when the records of an earlier stage could not be written. */
  ghost predicate IsAborted(request: Request, saga: Saga) {
    saga.install != UNTOLD ==>
      && InstallPlan(request).Ok? && IsPlanRun(InstallPlan(request).value, saga.install.run)
      && (WasRecorded(saga.install) || (WasNotRecorded(saga.install) && saga.open == UNTOLD))
      && (saga.uninstall != UNTOLD ==> IsPlanRun(UninstallPlan(request), saga.uninstall.run))
      && (saga.uninstall == UNTOLD <==> WasNotRecorded(saga.install) || WasNotRecorded(saga.open))
  }

  lemma RecordedIsTold(nature: Nature, stage: Stage, story: Story, refs: seq<EvidenceRef>)
    requires IsRecorded(nature, stage, story.record, refs)
    ensures story != UNTOLD && WasRecorded(story) && !WasNotRecorded(story)
  {
  }

  lemma UntoldWasRecorded()
    ensures !WasNotRecorded(UNTOLD) && !WasRecorded(UNTOLD)
  {
  }

  method RunStages(request: Request, lab: Lab, installPlan: Plan)
    returns (r: Result<Stages, SmokeError>, failure: Option<Failure>, ghost saga: Saga)
    requires InstallPlan(request) == Ok(installPlan)
    requires lab.Valid()
    modifies lab
    ensures lab.Valid()
    ensures saga.preflight == saga.receipt == [] && saga.install != UNTOLD
    ensures lab.trace == old(lab.trace) + EventsOf(saga.install) + EventsOf(saga.open) + EventsOf(saga.uninstall)
    ensures r.Ok? ==> AreStaged(request, lab.nature, r.value, saga)
    ensures r.Ok? ==>
              (failure.None? <==>
                 && r.value.install.observed && r.value.open.observed
                 && LeftNothing(request, UninstallPlan(request), saga.uninstall))
    ensures r.Err? ==> IsAborted(request, saga)
  {
    hide IsPlanRun, RanToTheEnd, InstallPlan, OpenPlan, UninstallPlan, IsRecorded, SawExpectedBinary, LeftNothing, OutputOf,
      Bounded, AllReaped, EventsOf, WasNotRecorded;
    saga := Saga([], UNTOLD, UNTOLD, UNTOLD, []);
    UntoldWasRecorded();
    Untold();
    var installed, failed, installStory := InstallStage(request, lab, installPlan);
    saga, failure := saga.(install := installStory), failed;
    if installed.Err? {
      UnrecordedIsTold(installStory);
      return Err(installed.error), failure, saga;
    }
    RecordedIsTold(lab.nature, Install, installStory, installed.value.refs);
    var launched, failedOpen, openStory := OpenStage(request, lab, OpenPlan(request), installed.value.observed, failure);
    saga, failure := saga.(open := openStory), failedOpen;
    if launched.Err? {
      return Err(launched.error), failure, saga;
    }
    RecordedIsTold(lab.nature, Open, openStory, launched.value.refs);
    var removed, failedRemove, removeStory := UninstallStage(request, lab, UninstallPlan(request), failure);
    saga, failure := saga.(uninstall := removeStory), failedRemove;
    if removed.Err? {
      UnrecordedIsTold(removeStory);
      return Err(removed.error), failure, saga;
    }
    return Ok(Stages(installed.value, launched.value, removed.value)), failure, saga;
  }

  lemma Untold()
    ensures EventsOf(UNTOLD) == []
  {
  }

  lemma UnrecordedIsTold(story: Story)
    requires WasNotRecorded(story)
    ensures story != UNTOLD
  {
  }

  /** `run_smoke`. */
  method RunSmoke(request: Request, lab: Lab) returns (r: Result<Execution, SmokeError>, ghost saga: Saga)
    requires lab.trace == [] && lab.Valid()
    modifies lab
    ensures lab.Valid()
    ensures lab.trace == EventsOfAll(saga) && RanNothing(saga.preflight) && RanNothing(saga.receipt)
    ensures saga.install != UNTOLD <==> IsReady(request, lab.nature, [])
    ensures r.Ok? ==> IsReceipted(request, lab.nature, r.value, saga)
    ensures r.Err? ==> IsAborted(request, saga)
  {
    hide AreStaged, IsAborted, EventsOf, IsReceipted, InstallPlan, IsReady, Obeys, LeftNothing;
    saga := Saga([], UNTOLD, UNTOLD, UNTOLD, []);
    NothingAborted(request, []);
    Untold();
    var ready, preflight := Preflight(request, lab);
    NothingAborted(request, preflight);
    if ready.Err? {
      saga := saga.(preflight := preflight);
      return Err(ready.error), saga;
    }
    var staged, failure, stages := RunStages(request, lab, ready.value.1);
    saga := stages.(preflight := preflight);
    AbortedIsAboutStages(request, stages, preflight, []);
    if staged.Err? {
      return Err(staged.error), saga;
    }
    var receipt := ReceiptOf(request, lab.nature, ready.value.0, staged.value, failure);
    var ok := lab.PublishReceipt();
    saga := saga.(receipt := [Published(ok)]);
    if !ok {
      StagedIsAborted(request, lab.nature, staged.value, stages, saga);
      return Err(PublishFailed), saga;
    }
    ReceiptIsRight(request, lab.nature, ready.value.0, staged.value, failure, stages, saga);
    return Ok(Execution(receipt, failure)), saga;
  }

  function ReceiptOf(request: Request, nature: Nature, captured: Captured, stages: Stages, failure: Option<Failure>): Receipt {
    var (install, open, uninstall) := (stages.install, stages.open, stages.uninstall);
    var digest := if install.observed then Some(request.expectedExecutableSha256) else None;
    Receipt(
      request.kind, nature.platform, request.sourceCommit, request.expectedExecutableSha256, captured,
      RowOf(install, install.observed, digest), RowOf(open, open.observed, digest),
      RowOf(uninstall, uninstall.observed, None), install.refs + open.refs + uninstall.refs,
      failure.None? && install.outcome.status == Passed && open.outcome.status == Passed
      && install.observed && open.observed && uninstall.outcome.status == Passed && uninstall.observed)
  }

  /** What a receipt's row says about a stage whose plan was run: how the run ended, the last exit code
      up to there, and whether all processes up to there were reaped. */
  ghost predicate RowTells(plan: Plan, run: seq<Event>, row: Row) {
    && (row.status == Passed <==> RanToTheEnd(plan, run))
    && (RanToTheEnd(plan, run) ==> row.exitCode == LastExit(run) && (row.reaped <==> AllReaped(run)))
    && forall n: nat :: BrokeOff(plan, run, n) ==>
         && (row.reaped <==> AllReaped(run[..n]))
         && match run[n - 1].result
            case Ok(last) => row.status == last.status && row.exitCode == LastExit(run[..n])
            case Err(_) => row.status == Failed && row.exitCode == None
  }

  lemma DescribedRowTells(plan: Plan, run: seq<Event>, staged: Staged, observed: bool, digest: Option<Str>)
    requires Describes(plan, run, staged.outcome)
    ensures RowTells(plan, run, RowOf(staged, observed, digest))
  {
    hide AreCommands, IsPass, Bounded, OutputOf, AllReaped, LastExit;
    forall n: nat | BrokeOff(plan, run, n)
      ensures run[..n][n - 1] == run[n - 1]
    {
    }
  }

  /** The three rows: the digest stands in the first two exactly when the install left the expected
      binary, and in the last never; a row has its binary observed when the stage ended with the
      expected one, the last row unless it ended with something left behind. */
  ghost predicate RowsTell(request: Request, receipt: Receipt, saga: Saga)
    requires InstallPlan(request).Ok?
  {
    var installed := SawExpectedBinary(request, InstallPlan(request).value, saga.install);
    var digest := if installed then Some(request.expectedExecutableSha256) else None;
    && RowTells(InstallPlan(request).value, saga.install.run, receipt.install)
    && (receipt.install.observedBinary <==> installed)
    && receipt.install.executableSha256 == digest
    && (if installed then RowTells(OpenPlan(request), saga.open.run, receipt.open)
        else saga.open.run == [] && receipt.open.status == Skipped && receipt.open.exitCode == None && receipt.open.reaped)
    && (receipt.open.observedBinary <==> installed && SawExpectedBinary(request, OpenPlan(request), saga.open))
    && receipt.open.executableSha256 == digest
    && RowTells(UninstallPlan(request), saga.uninstall.run, receipt.uninstall)
    && (receipt.uninstall.observedBinary <==>
          (RanToTheEnd(UninstallPlan(request), saga.uninstall.run) ==> LeftNothing(request, UninstallPlan(request), saga.uninstall)))
    && receipt.uninstall.executableSha256 == None
  }

  /** The receipt is about this request, on the platform of its kind, and about the package as it was
      captured, twice alike, before anything was run. */
  ghost predicate IsOfRequest(request: Request, nature: Nature, receipt: Receipt, saga: Saga) {
    && receipt.kind == request.kind && receipt.platform == nature.platform == PlatformOf(request.kind)
    && receipt.sourceCommit == request.sourceCommit
    && receipt.expectedExecutableSha256 == request.expectedExecutableSha256
    && receipt.package.sha256 == request.packageSha256
    && saga.preflight == [Captures(Some(receipt.package)), Captures(Some(receipt.package)), SawBinary(false), Prepared(true)]
  }

  /** What every smoke with a receipt is: it passes exactly when there is no failure, which is exactly
      when every stage ran to its end, the expected binary was seen after install and after open, and
      nothing remained; and whatever happened, its whole uninstall plan was run, its logs recorded, and
      its rows tell of the stages and its head of the request. */
  ghost predicate IsReceipted(request: Request, nature: Nature, execution: Execution, saga: Saga) {
    && (execution.receipt.passed <==> execution.failure.None?)
    && (execution.receipt.passed <==> IsPassed(request, saga))
    && InstallPlan(request).Ok? && IsPlanRun(InstallPlan(request).value, saga.install.run)
    && IsPlanRun(UninstallPlan(request), saga.uninstall.run)
    && RowsTell(request, execution.receipt, saga)
    && IsOfRequest(request, nature, execution.receipt, saga)
    && saga.receipt == [Published(true)]
    && |execution.receipt.evidenceRefs| == 6
    && IsRecorded(nature, Install, saga.install.record, execution.receipt.evidenceRefs[..2])
    && IsRecorded(nature, Open, saga.open.record, execution.receipt.evidenceRefs[2..4])
    && IsRecorded(nature, Uninstall, saga.uninstall.record, execution.receipt.evidenceRefs[4..])
  }

  lemma NothingAborted(request: Request, preflight: seq<Event>)
    ensures IsAborted(request, Saga(preflight, UNTOLD, UNTOLD, UNTOLD, []))
  {
  }

  lemma AbortedIsAboutStages(request: Request, saga: Saga, preflight: seq<Event>, receipt: seq<Event>)
    ensures IsAborted(request, saga) <==> IsAborted(request, saga.(preflight := preflight, receipt := receipt))
  {
    hide WasNotRecorded, IsPlanRun, InstallPlan, UninstallPlan;
  }

  lemma StagedIsAborted(request: Request, nature: Nature, stages: Stages, told: Saga, saga: Saga)
    requires AreStaged(request, nature, stages, told)
    requires saga.install == told.install && saga.open == told.open && saga.uninstall == told.uninstall
    ensures IsAborted(request, saga)
  {
    RecordedIsTold(nature, Install, saga.install, stages.install.refs);
    RecordedIsTold(nature, Open, saga.open, stages.open.refs);
    RecordedIsTold(nature, Uninstall, saga.uninstall, stages.uninstall.refs);
    hide WasNotRecorded, IsPlanRun, InstallPlan, UninstallPlan, OpenPlan, IsRecorded, RanToTheEnd, SawExpectedBinary, LeftNothing;
  }

  lemma ReceiptIsRight(
      request: Request, nature: Nature, captured: Captured, stages: Stages, failure: Option<Failure>, told: Saga, saga: Saga)
    requires AreStaged(request, nature, stages, told)
    requires saga == told.(preflight := saga.preflight, receipt := [Published(true)])
    requires nature.platform == PlatformOf(request.kind) && captured.sha256 == request.packageSha256
    requires saga.preflight == [Captures(Some(captured)), Captures(Some(captured)), SawBinary(false), Prepared(true)]
    requires failure.None? <==>
               && stages.install.observed && stages.open.observed
               && LeftNothing(request, UninstallPlan(request), told.uninstall)
    ensures IsReceipted(request, nature, Execution(ReceiptOf(request, nature, captured, stages, failure), failure), saga)
  {
    var refs := ReceiptOf(request, nature, captured, stages, failure).evidenceRefs;
    assert refs[..2] == stages.install.refs && refs[2..4] == stages.open.refs && refs[4..] == stages.uninstall.refs;
    RowsAreRight(request, nature, captured, stages, failure, saga);
    hide IsPlanRun, InstallPlan, UninstallPlan, OpenPlan, IsRecorded, RanToTheEnd, IsResidueCandidate, RowsTell, BrokeOff;
  }

  lemma RowsAreRight(
      request: Request, nature: Nature, captured: Captured, stages: Stages, failure: Option<Failure>, saga: Saga)
    requires AreStaged(request, nature, stages, saga)
    ensures RowsTell(request, ReceiptOf(request, nature, captured, stages, failure), saga)
  {
    var receipt := ReceiptOf(request, nature, captured, stages, failure);
    DescribedRowTells(InstallPlan(request).value, saga.install.run, stages.install, receipt.install.observedBinary,
                      receipt.install.executableSha256);
    if stages.install.observed {
      DescribedRowTells(OpenPlan(request), saga.open.run, stages.open, receipt.open.observedBinary, receipt.open.executableSha256);
    }
    DescribedRowTells(UninstallPlan(request), saga.uninstall.run, stages.uninstall, receipt.uninstall.observedBinary, None);
    hide IsPlanRun, InstallPlan, UninstallPlan, OpenPlan, IsRecorded, RanToTheEnd, LeftNothing, SawExpectedBinary, RowTells, BrokeOff;
  }

  /** Every disk image that was attached was detached afterwards, in every run of the smoke that
      reached the install, with or without a receipt. */
  lemma EverySmokeDetaches(request: Request, saga: Saga)
    requires request.kind == MacosDmg && saga.install != UNTOLD
    requires IsAborted(request, saga) || exists nature, execution :: IsReceipted(request, nature, execution, saga)
    ensures var run := saga.install.run;
            && run != []
            && run[0].Executed? && run[0].command == Attach(request)
            && run[|run| - 1].Executed? && run[|run| - 1].command == Detach(request)
  {
    hide IsPlanRun, InstallPlan, UninstallPlan, IsRecorded, IsPassed;
    ImageIsDetached(request, saga.install.run);
  }

  // ----- A smoke that leaves the uninstall out ------------------------------------------------------

  /** Where no log can be written, the install plan runs and nothing after it does, uninstall included,
      whatever the commands do. */
  lemma LostLogsLoseUninstall(request: Request, nature: Nature, saga: Saga)
    requires IsAborted(request, saga) || exists execution :: IsReceipted(request, nature, execution, saga)
    requires Obeys(nature, EventsOfAll(saga)) && saga.install != UNTOLD
    requires forall before: seq<Event> :: !nature.writes(before)
    ensures InstallPlan(request).Ok? && IsPlanRun(InstallPlan(request).value, saga.install.run)
    ensures WasNotRecorded(saga.install) && saga.open == saga.uninstall == UNTOLD
    ensures forall execution :: !IsReceipted(request, nature, execution, saga)
  {
    hide IsPlanRun, InstallPlan, UninstallPlan, IsPassed, Obeys;
    var (start, trace) := (|saga.preflight| + |saga.install.run|, EventsOfAll(saga));
    if saga.install.record != [] && saga.install.record[0].Wrote? {
      assert trace[start] == saga.install.record[0];
      NoLogIsWritten(nature, trace, start);
    }
  }

  lemma NoLogIsWritten(nature: Nature, trace: seq<Event>, k: nat)
    requires Obeys(nature, trace) && k < |trace| && trace[k].Wrote?
    requires forall before: seq<Event> :: !nature.writes(before)
    ensures !trace[k].ok
  {
    assert Answers(nature, trace[..k], trace[k]);
  }

  function SampleRequest(): Request {
    var zeros := (_: nat) => '0' as int;
    Request(MacosAppZip, Bytes("/p/Rutile.app.zip"), seq(64, zeros), seq(64, zeros), seq(40, zeros),
            Bytes("/t/Rutile.app"), Some(Bytes("/t")), Bytes("/t/Rutile.app/Contents/MacOS/Rutile"), Bytes("/e"))
  }

  /** The package installs and the binary is there from then on, but no log can be written. */
  function SampleNature(): Nature {
    Nature(
      Macos, true,
      (_: seq<Event>) => Some(Captured(SampleRequest().packageSha256, 0, 0, 0)),
      (_: seq<Event>) => true,
      (_: seq<Event>, _: Command) => Ok(Outcome(Passed, Some(0), false, true, [], [])),
      (_: seq<Event>) => false,
      (_: seq<Event>) => Ok(SampleRequest().expectedExecutableSha256),
      (trace: seq<Event>) => exists k :: 0 <= k < |trace| && trace[k].Executed?,
      (trace: seq<Event>) => exists k :: 0 <= k < |trace| && trace[k].Executed?,
      (_: seq<Event>) => true,
      (_: seq<byte>) => [])
  }

  lemma SampleIsReady()
    ensures IsReady(SampleRequest(), SampleNature(), [])
  {
  }

  predicate RunsStage(event: Event, stage: Stage) {
    event.Executed? && event.command.stage == stage
  }

  /** Such a smoke: it installs, never uninstalls, and leaves the binary behind. */
  method SmokeWithoutLogs() returns (r: Result<Execution, SmokeError>, lab: Lab)
    ensures r.Err? && lab.nature == SampleNature()
    ensures exists k :: 0 <= k < |lab.trace| && RunsStage(lab.trace[k], Install)
    ensures forall k :: 0 <= k < |lab.trace| ==> !RunsStage(lab.trace[k], Uninstall)
    ensures lab.nature.binaryExists(lab.trace)
  {
    hide IsReady, IsAborted, IsReceipted, Obeys;
    SampleIsReady();
    lab := new Lab(SampleNature());
    ghost var saga;
    r, saga := RunSmoke(SampleRequest(), lab);
    LostLogsLoseUninstall(SampleRequest(), lab.nature, saga);
    SampleInstallRan(saga.install.run);
    assert lab.trace[|saga.preflight|] == saga.install.run[0];
  }

  lemma SampleInstallRan(run: seq<Event>)
    requires InstallPlan(SampleRequest()).Ok? && IsPlanRun(InstallPlan(SampleRequest()).value, run)
    ensures |run| == 1 && RunsStage(run[0], Install)
  {
  }
}

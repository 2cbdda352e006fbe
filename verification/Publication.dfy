/** Create-only publication: `publish_create_only` of `xtask/src/evidence_bind.rs` and
    `production_publish` of `xtask/src/readiness_keystone.rs`, as any number of publishers
    that share one directory and may be interrupted anywhere. */
module Publication {
  import opened Prelude

  type Name = Str

  /** A file: the one publisher `p` creates, or one that was there before. */
  datatype Inode = Own(p: nat) | Foreign(id: nat)

  datatype Kind = EvidenceIndex | ReadinessAttestation

  datatype Outcome = Published(durable: bool) | Failed

  /** The next system call of a publisher. */
  datatype Pc =
    | Opening
    | Writing(written: nat)
    | Syncing
    | WriteFailed
    | Linking
    | LinkFailed
    | Unlinking
    | Closing
    | SyncingDir(clean: bool)
    | Done(outcome: Outcome)
    | Crashed

  /** `linked` and `boot` record that, and in which boot, the final name was linked. */
  datatype Publisher = Publisher(
    kind: Kind, temp: Name, dest: Name, bytes: seq<byte>, pc: Pc, linked: bool, boot: nat)

  /** `durable` is the directory as last forced to disk, `synced` the files whose bytes were. */
  datatype Fs = Fs(dir: map<Name, Inode>, files: map<Inode, seq<byte>>, synced: set<Inode>, durable: map<Name, Inode>)

  datatype State = State(publishers: seq<Publisher>, fs: Fs, boot: nat)

  datatype Choice =
    | Moves(p: nat, ok: bool, amount: nat)
    | Crashes(p: nat)
    | PowerLoss(kept: set<Name>, torn: map<Inode, seq<byte>>)

  // ----- System calls -------------------------------------------------------------

  function Unlink(fs: Fs, name: Name): Fs {
    fs.(dir := fs.dir - {name})
  }

  function Link(fs: Fs, name: Name, inode: Inode): Fs {
    fs.(dir := fs.dir[name := inode])
  }

  datatype Moved = Moved(publisher: Publisher, fs: Fs)

  /** The next step of publisher `p`; `ok` says whether the call succeeds where it can fail for
      reasons of its own, `amount` how much a write takes. */
  function Move(publisher: Publisher, p: nat, fs: Fs, boot: nat, ok: bool, amount: nat): Moved {
    match publisher.pc
    case Opening =>
      if !ok || publisher.temp in fs.dir then Moved(publisher.(pc := Done(Failed)), fs)
      else Moved(publisher.(pc := Writing(0)), Link(fs, publisher.temp, Own(p)).(files := fs.files[Own(p) := []]))
    case Writing(written) =>
      if written >= |publisher.bytes| then Moved(publisher.(pc := Syncing), fs)
      else if !ok then Moved(publisher.(pc := WriteFailed), fs)
      else
        var next := Min(|publisher.bytes|, written + amount);
        Moved(publisher.(pc := Writing(next)), fs.(files := fs.files[Own(p) := publisher.bytes[..next]]))
    case Syncing =>
      if !ok then Moved(publisher.(pc := WriteFailed), fs)
      else Moved(publisher.(pc := Linking), fs.(synced := fs.synced + {Own(p)}))
    case WriteFailed =>
      Moved(publisher.(pc := Done(Failed)), if ok then Unlink(fs, publisher.temp) else fs)
    case Linking =>
      if !ok || publisher.dest in fs.dir || publisher.temp !in fs.dir then Moved(publisher.(pc := LinkFailed), fs)
      else Moved(publisher.(pc := Unlinking, linked := true, boot := boot),
                 Link(fs, publisher.dest, fs.dir[publisher.temp]))
    case LinkFailed =>
      Moved(publisher.(pc := Done(Failed)), if ok then Unlink(fs, publisher.temp) else fs)
    case Unlinking =>
      Moved(publisher.(pc := Closing), if ok then Unlink(fs, publisher.temp) else fs)
    case Closing =>
      if ok then Moved(publisher.(pc := SyncingDir(true)), fs)
      else if publisher.kind == EvidenceIndex then Moved(publisher.(pc := SyncingDir(false)), fs)
      else Moved(publisher.(pc := Done(Failed)), fs)
    case SyncingDir(clean) =>
      if ok then Moved(publisher.(pc := Done(Published(clean))), fs.(durable := fs.dir))
      else if publisher.kind == EvidenceIndex then Moved(publisher.(pc := Done(Published(false))), fs)
      else Moved(publisher.(pc := Done(Failed)), fs)
    case Done(_) => Moved(publisher, fs)
    case Crashed => Moved(publisher, fs)
  }

  /** A process dies where it stands. */
  function Interrupt(publisher: Publisher): Publisher {
    if publisher.pc.Opening? || publisher.pc.Done? then publisher else publisher.(pc := Crashed)
  }

  /** After a power loss every name is as it was or as last forced to disk, and unforced
      file contents are arbitrary. */
  function Survives(fs: Fs, kept: set<Name>, torn: map<Inode, seq<byte>>): Fs {
    Fs((map n | n in fs.dir && n in kept :: fs.dir[n]) + (map n | n in fs.durable && n !in kept :: fs.durable[n]),
       map i | i in fs.files :: if i !in fs.synced && i in torn then torn[i] else fs.files[i],
       fs.synced,
       fs.durable)
  }

  function Step(s: State, choice: Choice): State {
    match choice
    case Moves(p, ok, amount) =>
      if p < |s.publishers| then
        var moved := Move(s.publishers[p], p, s.fs, s.boot, ok, amount);
        s.(publishers := s.publishers[p := moved.publisher], fs := moved.fs)
      else s
    case Crashes(p) =>
      if p < |s.publishers| then s.(publishers := s.publishers[p := Interrupt(s.publishers[p])]) else s
    case PowerLoss(kept, torn) =>
      State(seq(|s.publishers|, i requires 0 <= i < |s.publishers| => Interrupt(s.publishers[i])),
            Survives(s.fs, kept, torn), s.boot + 1)
  }

  function Run(s: State, choices: seq<Choice>): State {
    if choices == [] then s else Step(Run(s, choices[..|choices| - 1]), choices[|choices| - 1])
  }

  /** Nobody has started, and no name is bound to a publisher's file; boots are counted from here. */
  ghost predicate Initial(s: State) {
    && s.boot == 0
    && (forall p :: 0 <= p < |s.publishers| ==> s.publishers[p].pc == Opening && !s.publishers[p].linked)
    && (forall n :: n in s.fs.dir ==> s.fs.dir[n].Foreign?)
    && (forall n :: n in s.fs.durable ==> s.fs.durable[n].Foreign?)
    && (forall n :: n in s.fs.durable ==> n in s.fs.dir && s.fs.dir[n] == s.fs.durable[n])
  }

  // ----- The invariant ----------------------------------------------------------------

  /** Between creating the temporary name and removing it. */
  predicate HoldsTemp(pc: Pc) {
    pc.Writing? || pc.Syncing? || pc.WriteFailed? || pc.Linking? || pc.LinkFailed? || pc.Unlinking?
  }

  predicate AfterLink(pc: Pc) {
    pc.Unlinking? || pc.Closing? || pc.SyncingDir?
  }

  predicate BoundTo(dir: map<Name, Inode>, name: Name, inode: Inode) {
    name in dir && dir[name] == inode
  }

  /** All bytes are in the file and forced to disk. */
  predicate Complete(publisher: Publisher, p: nat, fs: Fs) {
    Own(p) in fs.files && fs.files[Own(p)] == publisher.bytes && Own(p) in fs.synced
  }

  ghost predicate PublisherInv(publisher: Publisher, p: nat, fs: Fs, boot: nat) {
    && (HoldsTemp(publisher.pc) ==> BoundTo(fs.dir, publisher.temp, Own(p)))
    && (publisher.pc.Writing? ==>
          && publisher.pc.written <= |publisher.bytes|
          && Own(p) in fs.files && fs.files[Own(p)] == publisher.bytes[..publisher.pc.written])
    && (publisher.pc.Syncing? ==> Own(p) in fs.files && fs.files[Own(p)] == publisher.bytes)
    && (publisher.pc.Linking? || publisher.linked ==> Complete(publisher, p, fs))
    && (publisher.linked ==> publisher.temp != publisher.dest && publisher.boot <= boot)
    && (publisher.linked && publisher.boot == boot ==> BoundTo(fs.dir, publisher.dest, Own(p)))
    && (AfterLink(publisher.pc) ==> publisher.linked && publisher.boot == boot)
    && (publisher.pc.Done? && publisher.pc.outcome.Published? ==> publisher.linked)
    && (publisher.pc == Done(Published(true)) ==> BoundTo(fs.durable, publisher.dest, Own(p)))
    && (publisher.linked ==> AfterLink(publisher.pc) || publisher.pc.Done? || publisher.pc.Crashed?)
    && (publisher.linked && publisher.pc == Done(Failed) ==> publisher.kind == ReadinessAttestation)
  }

  /** A name bound to a publisher's file is its temporary name, or its linked destination. */
  ghost predicate NamesInv(names: map<Name, Inode>, publishers: seq<Publisher>) {
    forall n :: n in names && names[n].Own? ==>
      var p := names[n].p;
      p < |publishers| && (n == publishers[p].temp || (publishers[p].linked && n == publishers[p].dest))
  }

  /** What reached the disk as anything but a temporary name is still bound. */
  ghost predicate DurableInv(fs: Fs, publishers: seq<Publisher>) {
    forall n :: n in fs.durable ==>
      (fs.durable[n].Own? ==> fs.durable[n].p < |publishers|)
      && ((fs.durable[n].Own? ==> n != publishers[fs.durable[n].p].temp) ==> BoundTo(fs.dir, n, fs.durable[n]))
  }

  ghost predicate Inv(s: State) {
    && (forall p :: 0 <= p < |s.publishers| ==> PublisherInv(s.publishers[p], p, s.fs, s.boot))
    && NamesInv(s.fs.dir, s.publishers)
    && NamesInv(s.fs.durable, s.publishers)
    && DurableInv(s.fs, s.publishers)
  }

  lemma InitialInv(s: State)
    requires Initial(s)
    ensures Inv(s)
  {
  }

  /** The mover keeps its own part of the invariant. */
  lemma MoveKeepsSelf(s: State, p: nat, ok: bool, amount: nat)
    requires Inv(s) && p < |s.publishers|
    ensures var moved := Move(s.publishers[p], p, s.fs, s.boot, ok, amount);
            PublisherInv(moved.publisher, p, moved.fs, s.boot)
  {
    assert PublisherInv(s.publishers[p], p, s.fs, s.boot);
    hide Inv, NamesInv, DurableInv;
  }

  /** No two publishers hold the same name, so a mover never touches another's. */
  lemma MoveKeepsOther(s: State, p: nat, q: nat, ok: bool, amount: nat)
    requires Inv(s) && p < |s.publishers| && q < |s.publishers| && p != q
    ensures PublisherInv(s.publishers[q], q, Move(s.publishers[p], p, s.fs, s.boot, ok, amount).fs, s.boot)
  {
    assert PublisherInv(s.publishers[p], p, s.fs, s.boot);
    assert PublisherInv(s.publishers[q], q, s.fs, s.boot);
  }

  /** How a move changes the directory: not at all, or it binds a free name to the mover's own
      file, or it removes the mover's temporary name. */
  lemma MoveChangesNames(s: State, p: nat, ok: bool, amount: nat)
    requires Inv(s) && p < |s.publishers|
    ensures var (before, moved) := (s.publishers[p], Move(s.publishers[p], p, s.fs, s.boot, ok, amount));
            && moved.publisher.temp == before.temp && moved.publisher.dest == before.dest
            && moved.publisher.bytes == before.bytes
            && (before.linked ==> moved.publisher.linked && moved.publisher.boot == before.boot)
            && (|| moved.fs.dir == s.fs.dir
                || (before.temp !in s.fs.dir && moved.fs.dir == s.fs.dir[before.temp := Own(p)])
                || (before.dest !in s.fs.dir && moved.publisher.linked && moved.fs.dir == s.fs.dir[before.dest := Own(p)])
                || (BoundTo(s.fs.dir, before.temp, Own(p)) && moved.fs.dir == s.fs.dir - {before.temp}))
            && (moved.fs.durable == s.fs.durable || (moved.fs.durable == s.fs.dir && moved.fs.dir == s.fs.dir))
  {
    assert PublisherInv(s.publishers[p], p, s.fs, s.boot);
  }

  lemma MoveKeepsNames(s: State, p: nat, ok: bool, amount: nat)
    requires Inv(s) && p < |s.publishers|
    ensures var s' := Step(s, Moves(p, ok, amount));
            NamesInv(s'.fs.dir, s'.publishers) && NamesInv(s'.fs.durable, s'.publishers) && DurableInv(s'.fs, s'.publishers)
  {
    MoveChangesNames(s, p, ok, amount);
    hide Move, PublisherInv;
    var s' := Step(s, Moves(p, ok, amount));
    assert forall q :: 0 <= q < |s.publishers| ==>
      s'.publishers[q].temp == s.publishers[q].temp && s'.publishers[q].dest == s.publishers[q].dest
      && (s.publishers[q].linked ==> s'.publishers[q].linked);
    assert NamesInv(s'.fs.dir, s'.publishers);
    assert NamesInv(s'.fs.durable, s'.publishers);
    assert DurableInv(s'.fs, s'.publishers);
  }

  lemma PowerLossKeepsPublisher(s: State, p: nat, kept: set<Name>, torn: map<Inode, seq<byte>>)
    requires Inv(s) && p < |s.publishers|
    ensures PublisherInv(Interrupt(s.publishers[p]), p, Survives(s.fs, kept, torn), s.boot + 1)
  {
    assert PublisherInv(s.publishers[p], p, s.fs, s.boot);
  }

  lemma SurvivingNames(fs: Fs, kept: set<Name>, torn: map<Inode, seq<byte>>)
    ensures var after := Survives(fs, kept, torn);
            && after.durable == fs.durable
            && forall n :: n in after.dir ==> BoundTo(fs.dir, n, after.dir[n]) || BoundTo(fs.durable, n, after.dir[n])
    ensures var after := Survives(fs, kept, torn);
            forall n :: n in fs.durable && BoundTo(fs.dir, n, fs.durable[n]) ==> BoundTo(after.dir, n, fs.durable[n])
  {
  }

  lemma PowerLossKeepsInv(s: State, kept: set<Name>, torn: map<Inode, seq<byte>>)
    requires Inv(s)
    ensures Inv(Step(s, PowerLoss(kept, torn)))
  {
    hide PublisherInv;
    forall p | 0 <= p < |s.publishers| {
      PowerLossKeepsPublisher(s, p, kept, torn);
    }
    SurvivingNames(s.fs, kept, torn);
    var s' := Step(s, PowerLoss(kept, torn));
    hide Survives;
    assert forall p :: 0 <= p < |s.publishers| ==>
      s'.publishers[p].temp == s.publishers[p].temp && s'.publishers[p].dest == s.publishers[p].dest
      && s'.publishers[p].linked == s.publishers[p].linked;
    assert NamesInv(s'.fs.dir, s'.publishers);
  }

  lemma StepKeepsInv(s: State, choice: Choice)
    requires Inv(s)
    ensures Inv(Step(s, choice))
  {
    hide Move, Survives;
    match choice
    case Moves(p, ok, amount) =>
      if p < |s.publishers| {
        MoveKeepsSelf(s, p, ok, amount);
        MoveKeepsNames(s, p, ok, amount);
        forall q | 0 <= q < |s.publishers| && q != p {
          MoveKeepsOther(s, p, q, ok, amount);
        }
      }
    case Crashes(p) =>
    case PowerLoss(kept, torn) => PowerLossKeepsInv(s, kept, torn);
  }

  lemma {:induction false} RunKeepsInv(s: State, choices: seq<Choice>)
    requires Initial(s)
    ensures Inv(Run(s, choices))
  {
    hide Inv, Step;
    if choices == [] {
      InitialInv(s);
    } else {
      RunKeepsInv(s, choices[..|choices| - 1]);
      StepKeepsInv(Run(s, choices[..|choices| - 1]), choices[|choices| - 1]);
    }
  }

  // ----- Results over all runs -----------------------------------------------------------

  /** A binding nobody is still entitled to remove: a file from before, or a linked destination. */
  ghost predicate FinalName(s: State, name: Name) {
    && name in s.fs.dir
    && (s.fs.dir[name].Own? ==>
          s.fs.dir[name].p < |s.publishers| && name != s.publishers[s.fs.dir[name].p].temp)
  }

  /** In every reachable state, what a publisher's destination is bound to is complete: exactly
      the bytes of the one publisher that linked it. */
  lemma DestinationIsComplete(s: State, choices: seq<Choice>, name: Name)
    requires Initial(s)
    ensures var r := Run(s, choices);
            FinalName(r, name) && r.fs.dir[name].Own? ==>
              var p := r.fs.dir[name].p;
              && r.publishers[p].linked && name == r.publishers[p].dest
              && Own(p) in r.fs.files && r.fs.files[Own(p)] == r.publishers[p].bytes
  {
    RunKeepsInv(s, choices);
    var r := Run(s, choices);
    if FinalName(r, name) && r.fs.dir[name].Own? {
      var p := r.fs.dir[name].p;
      assert PublisherInv(r.publishers[p], p, r.fs, r.boot);
    }
  }

  /** Publishers never change what they publish or where. */
  ghost predicate SameRequests(s: State, later: State) {
    && |later.publishers| == |s.publishers|
    && forall p :: 0 <= p < |s.publishers| ==>
         later.publishers[p].temp == s.publishers[p].temp && later.publishers[p].dest == s.publishers[p].dest
         && later.publishers[p].bytes == s.publishers[p].bytes
  }

  /** The file has the bytes it had. */
  ghost predicate SameBytes(inode: Inode, fs: Fs, later: Fs) {
    inode in fs.files ==> inode in later.files && later.files[inode] == fs.files[inode]
  }

  ghost predicate FinalNamesStay(s: State, later: State) {
    && SameRequests(s, later)
    && forall name :: FinalName(s, name) ==>
         && FinalName(later, name) && later.fs.dir[name] == s.fs.dir[name]
         && SameBytes(s.fs.dir[name], s.fs, later.fs)
  }

  /** A publisher writes only to its own file, and only before any final name is bound to it. */
  lemma MoveKeepsFinalBytes(s: State, p: nat, ok: bool, amount: nat, name: Name)
    requires Inv(s) && p < |s.publishers| && FinalName(s, name)
    ensures SameBytes(s.fs.dir[name], s.fs, Move(s.publishers[p], p, s.fs, s.boot, ok, amount).fs)
  {
    assert PublisherInv(s.publishers[p], p, s.fs, s.boot);
  }

  lemma StepKeepsFinalNames(s: State, choice: Choice)
    requires Inv(s) && !choice.PowerLoss?
    ensures FinalNamesStay(s, Step(s, choice))
  {
    if choice.Moves? && choice.p < |s.publishers| {
      MoveChangesNames(s, choice.p, choice.ok, choice.amount);
      forall name | FinalName(s, name) {
        MoveKeepsFinalBytes(s, choice.p, choice.ok, choice.amount, name);
      }
      hide Move;
      var s' := Step(s, choice);
      assert SameRequests(s, s');
      forall name | FinalName(s, name)
        ensures name in s'.fs.dir && s'.fs.dir[name] == s.fs.dir[name]
      {
      }
    }
  }

  /** Without a power loss, a bound destination is bound to the same file with the same bytes
      ever after, whatever the others do and wherever they crash. */
  lemma {:induction false} FinalNamesAreStable(s: State, first: seq<Choice>, more: seq<Choice>)
    requires Initial(s)
    requires forall choice :: choice in more ==> !choice.PowerLoss?
    ensures FinalNamesStay(Run(s, first), Run(s, first + more))
    decreases |more|
  {
    hide FinalName, Step;
    if more == [] {
      assert first + more == first;
    } else {
      var n := |more| - 1;
      var before := first + more[..n];
      assert (first + more)[..|first| + n] == before;
      FinalNamesAreStable(s, first, more[..n]);
      RunKeepsInv(s, before);
      StepKeepsFinalNames(Run(s, before), more[n]);
    }
  }

  /** At most one publisher links a destination between two power losses, so at most one
      reports success for it. */
  lemma OneWinner(s: State, choices: seq<Choice>, p: nat, q: nat)
    requires Initial(s)
    requires var r := Run(s, choices);
             && p < |r.publishers| && q < |r.publishers| && r.publishers[p].dest == r.publishers[q].dest
             && r.publishers[p].linked && r.publishers[p].boot == r.boot
             && r.publishers[q].linked && r.publishers[q].boot == r.boot
    ensures p == q
  {
    RunKeepsInv(s, choices);
    var r := Run(s, choices);
    assert PublisherInv(r.publishers[p], p, r.fs, r.boot) && PublisherInv(r.publishers[q], q, r.fs, r.boot);
  }

  /** A reported success had linked the destination; one reported durable holds it for good,
      power losses included, and is the only one that ever will. */
  lemma SuccessIsBound(s: State, choices: seq<Choice>, p: nat)
    requires Initial(s)
    requires var r := Run(s, choices); p < |r.publishers| && r.publishers[p].pc.Done?
    ensures var (r, publisher) := (Run(s, choices), Run(s, choices).publishers[p]);
            && (publisher.pc.outcome.Published? ==>
                  publisher.linked && Own(p) in r.fs.files && r.fs.files[Own(p)] == publisher.bytes
                  && (publisher.boot == r.boot ==> BoundTo(r.fs.dir, publisher.dest, Own(p))))
            && (publisher.pc.outcome == Published(true) ==> BoundTo(r.fs.dir, publisher.dest, Own(p)))
  {
    RunKeepsInv(s, choices);
    var r := Run(s, choices);
    assert PublisherInv(r.publishers[p], p, r.fs, r.boot);
  }

  lemma DurableSuccessesAreUnique(s: State, choices: seq<Choice>, p: nat, q: nat)
    requires Initial(s)
    requires var r := Run(s, choices);
             && p < |r.publishers| && q < |r.publishers| && r.publishers[p].dest == r.publishers[q].dest
             && r.publishers[p].pc == r.publishers[q].pc == Done(Published(true))
    ensures p == q
  {
    SuccessIsBound(s, choices, p);
    SuccessIsBound(s, choices, q);
  }

  // ----- What an error does not mean ---------------------------------------------------------

  /** Publisher `p` makes a call after its link, the close of its file or the sync of the directory,
      and the call fails. */
  predicate FailsNow(s: State, choice: Choice, p: nat) {
    && p < |s.publishers| && choice.Moves? && choice.p == p && !choice.ok
    && (s.publishers[p].pc == Closing || s.publishers[p].pc.SyncingDir?)
  }

  /** Publisher `p` asks for a name that is taken. */
  predicate FindsNameTaken(s: State, choice: Choice, p: nat) {
    && p < |s.publishers| && choice.Moves? && choice.p == p
    && ((s.publishers[p].pc == Opening && s.publishers[p].temp in s.fs.dir)
        || (s.publishers[p].pc == Linking && s.publishers[p].dest in s.fs.dir))
  }

  /** Publisher `p` makes a call up to its link and is refused: the call fails of itself, or the name
      it would bind is taken. */
  predicate RefusedNow(s: State, choice: Choice, p: nat) {
    || FindsNameTaken(s, choice, p)
    || (&& p < |s.publishers| && choice.Moves? && choice.p == p && !choice.ok
        && match s.publishers[p].pc
           case Opening => true
           case Writing(written) => written < |s.publishers[p].bytes|
           case Syncing => true
           case Linking => true
           case _ => false)
  }

  /** The step after the first `k` of the run is of that kind. */
  ghost predicate FailsAfterLink(s: State, choices: seq<Choice>, p: nat, k: nat) {
    k < |choices| && FailsNow(Run(s, choices[..k]), choices[k], p)
  }

  ghost predicate Refused(s: State, choices: seq<Choice>, p: nat, k: nat) {
    k < |choices| && RefusedNow(Run(s, choices[..k]), choices[k], p)
  }

  lemma EventsSnoc(s: State, choices: seq<Choice>, p: nat)
    requires choices != []
    ensures var (n, init) := (|choices| - 1, choices[..|choices| - 1]);
            && ((exists k :: FailsAfterLink(s, choices, p, k)) <==>
                  (exists k :: FailsAfterLink(s, init, p, k)) || FailsNow(Run(s, init), choices[n], p))
            && ((exists k :: Refused(s, choices, p, k)) <==>
                  (exists k :: Refused(s, init, p, k)) || RefusedNow(Run(s, init), choices[n], p))
  {
    hide Run, FailsNow, RefusedNow;
    var (n, init) := (|choices| - 1, choices[..|choices| - 1]);
    forall k | 0 <= k < n
      ensures FailsAfterLink(s, init, p, k) <==> FailsAfterLink(s, choices, p, k)
      ensures Refused(s, init, p, k) <==> Refused(s, choices, p, k)
    {
      assert init[k] == choices[k] && init[..k] == choices[..k];
    }
    assert FailsAfterLink(s, choices, p, n) <==> FailsNow(Run(s, init), choices[n], p);
    assert Refused(s, choices, p, n) <==> RefusedNow(Run(s, init), choices[n], p);
  }

  /** Where a publisher stands, given whether a call up to its link was refused and whether one after
      it failed. */
  ghost predicate StandsAt(publisher: Publisher, refused: bool, failed: bool) {
    && (failed && publisher.kind == ReadinessAttestation ==> publisher.pc == Done(Failed) && publisher.linked)
    && match publisher.pc
       case WriteFailed => refused && !failed
       case LinkFailed => refused && !failed
       case SyncingDir(clean) => !refused && (clean <==> !failed)
       case Done(Published(durable)) => !refused && (durable <==> !failed)
       case Done(Failed) =>
         && (publisher.linked <==> failed && publisher.kind == ReadinessAttestation)
         && (!publisher.linked ==> refused && !failed)
         && (publisher.linked ==> !refused)
       case Crashed => true
       case _ => !refused && !failed
  }

  lemma StepStands(s: State, choice: Choice, p: nat, refused: bool, failed: bool)
    requires Inv(s) && p < |s.publishers| && StandsAt(s.publishers[p], refused, failed)
    ensures var after := Step(s, choice);
            && p < |after.publishers| && after.publishers[p].kind == s.publishers[p].kind
            && StandsAt(after.publishers[p], refused || RefusedNow(s, choice, p), failed || FailsNow(s, choice, p))
  {
    assert PublisherInv(s.publishers[p], p, s.fs, s.boot);
    hide NamesInv, DurableInv, Survives;
  }

  lemma {:induction false} RunStands(s: State, choices: seq<Choice>, p: nat)
    requires Initial(s) && p < |s.publishers|
    ensures var r := Run(s, choices);
            && p < |r.publishers| && r.publishers[p].kind == s.publishers[p].kind
            && StandsAt(r.publishers[p], exists k :: Refused(s, choices, p, k), exists k :: FailsAfterLink(s, choices, p, k))
  {
    if choices == [] {
    } else {
      var n := |choices| - 1;
      var (init, r) := (choices[..n], Run(s, choices[..n]));
      RunStands(s, init, p);
      RunKeepsInv(s, init);
      StepStands(r, choices[n], p, exists k :: Refused(s, init, p, k), exists k :: FailsAfterLink(s, init, p, k));
      EventsSnoc(s, choices, p);
      hide Inv, Step, StandsAt, Initial, Refused, FailsAfterLink, RefusedNow, FailsNow;
    }
  }

  /** How a publisher that has ended has ended: in success exactly when no call up to its link was
      refused and, for readiness, none after it failed; and the success is durable exactly when none
      after it failed. */
  lemma OutcomeIsExact(s: State, choices: seq<Choice>, p: nat)
    requires Initial(s) && p < |s.publishers|
    ensures var r := Run(s, choices);
            var refused := exists k :: Refused(s, choices, p, k);
            var failed := exists k :: FailsAfterLink(s, choices, p, k);
            && p < |r.publishers|
            && (r.publishers[p].pc.Done? ==>
                  && (r.publishers[p].pc.outcome.Published? <==> !refused && !(failed && s.publishers[p].kind == ReadinessAttestation))
                  && (r.publishers[p].pc.outcome.Published? ==> (r.publishers[p].pc.outcome.durable <==> !failed)))
  {
    RunStands(s, choices, p);
    hide Run, Refused, FailsAfterLink, Initial;
  }

  /** A publisher ends in error with its destination linked exactly when it is the readiness publisher
      and its close or its directory sync failed, power losses or not. As long as no power is lost, such
      an error leaves the name bound to the publisher's file, and any other error does not. */
  lemma ErrorsAfterLinking(s: State, choices: seq<Choice>, p: nat)
    requires Initial(s) && p < |s.publishers|
    ensures var failing := s.publishers[p].kind == ReadinessAttestation && exists k :: FailsAfterLink(s, choices, p, k);
            var r := Run(s, choices);
            && p < |r.publishers|
            && (r.publishers[p].pc == Done(Failed) && r.publishers[p].linked <==> failing)
            && (r.publishers[p].pc == Done(Failed) && r.publishers[p].dest != r.publishers[p].temp && r.boot == 0 ==>
                  (BoundTo(r.fs.dir, r.publishers[p].dest, Own(p)) <==> failing))
  {
    RunStands(s, choices, p);
    RunKeepsInv(s, choices);
    var r := Run(s, choices);
    assert PublisherInv(r.publishers[p], p, r.fs, r.boot);
    hide FailsAfterLink, PublisherInv, DurableInv;
    if r.publishers[p].pc == Done(Failed) && r.boot == 0 {
      FailedBinding(r, p);
    }
  }

  lemma FailedBinding(r: State, p: nat)
    requires Inv(r) && p < |r.publishers| && r.publishers[p].pc == Done(Failed) && r.boot == 0
    ensures r.publishers[p].dest != r.publishers[p].temp ==>
              (BoundTo(r.fs.dir, r.publishers[p].dest, Own(p)) <==> r.publishers[p].linked)
  {
    assert PublisherInv(r.publishers[p], p, r.fs, r.boot);
  }

  // ----- Every publisher ends --------------------------------------------------------------------

  /** The calls a publisher may still make. */
  function CallsLeft(publisher: Publisher): int {
    match publisher.pc
    case Opening => |publisher.bytes| + 7
    case Writing(written) => |publisher.bytes| - written + 6
    case Syncing => 5
    case Linking => 4
    case Unlinking => 3
    case Closing => 2
    case SyncingDir(_) => 1
    case WriteFailed => 1
    case LinkFailed => 1
    case Done(_) => 0
    case Crashed => 0
  }

  function CallsMade(choices: seq<Choice>, p: nat): nat {
    if choices == [] then 0
    else
      var last := choices[|choices| - 1];
      CallsMade(choices[..|choices| - 1], p) + if last.Moves? && last.p == p then 1 else 0
  }

  /** Nothing stops `p`, and each write it makes takes at least one byte. */
  predicate Uninterrupted(choice: Choice, p: nat) {
    match choice
    case Moves(mover, _, amount) => mover == p ==> amount > 0
    case Crashes(victim) => victim != p
    case PowerLoss(_, _) => false
  }

  function Max(a: int, b: int): int {
    if a >= b then a else b
  }

  lemma StepAdvances(s: State, choice: Choice, p: nat)
    requires Inv(s) && p < |s.publishers| && !s.publishers[p].pc.Crashed? && Uninterrupted(choice, p)
    ensures var (before, after) := (s.publishers[p], Step(s, choice));
            && p < |after.publishers| && after.publishers[p].bytes == before.bytes && !after.publishers[p].pc.Crashed?
            && CallsLeft(after.publishers[p])
               <= Max(0, CallsLeft(before) - if choice.Moves? && choice.p == p then 1 else 0)
  {
    assert PublisherInv(s.publishers[p], p, s.fs, s.boot);
    hide NamesInv, DurableInv;
  }

  lemma {:induction false} RunAdvances(s: State, choices: seq<Choice>, p: nat)
    requires Initial(s) && p < |s.publishers|
    requires forall choice :: choice in choices ==> Uninterrupted(choice, p)
    ensures var r := Run(s, choices);
            && p < |r.publishers| && r.publishers[p].bytes == s.publishers[p].bytes && !r.publishers[p].pc.Crashed?
            && CallsLeft(r.publishers[p]) <= Max(0, |s.publishers[p].bytes| + 7 - CallsMade(choices, p))
  {
    if choices != [] {
      var n := |choices| - 1;
      RunAdvances(s, choices[..n], p);
      RunKeepsInv(s, choices[..n]);
      StepAdvances(Run(s, choices[..n]), choices[n], p);
    }
  }

  /** Whatever its calls return and whatever the other publishers do, a publisher that is not
      stopped ends within seven calls and one for each byte. */
  lemma EveryPublisherEnds(s: State, choices: seq<Choice>, p: nat)
    requires Initial(s) && p < |s.publishers|
    requires forall choice :: choice in choices ==> Uninterrupted(choice, p)
    requires CallsMade(choices, p) >= |s.publishers[p].bytes| + 7
    ensures var r := Run(s, choices); p < |r.publishers| && r.publishers[p].pc.Done?
  {
    RunAdvances(s, choices, p);
    RunKeepsInv(s, choices);
    var r := Run(s, choices);
    assert PublisherInv(r.publishers[p], p, r.fs, r.boot);
  }

  /** No call of `p` fails of itself. */
  predicate Succeeding(choice: Choice, p: nat) {
    choice.Moves? && choice.p == p ==> choice.ok
  }

  /** The temporary name does not lead to the publisher's file before it is created or after it is removed. */
  ghost predicate IsTidy(s: State, p: nat) {
    && p < |s.publishers|
    && var publisher := s.publishers[p];
       publisher.pc.Opening? || publisher.pc.Closing? || publisher.pc.SyncingDir? || publisher.pc.Done? ==>
         !BoundTo(s.fs.dir, publisher.temp, Own(p))
  }

  /** Publisher `p` fails to remove its temporary name. */
  predicate UnlinkFails(s: State, choice: Choice, p: nat) {
    && p < |s.publishers| && choice.Moves? && choice.p == p && !choice.ok
    && (s.publishers[p].pc.WriteFailed? || s.publishers[p].pc.LinkFailed? || s.publishers[p].pc.Unlinking?)
  }

  lemma StepKeepsTidy(s: State, choice: Choice, p: nat)
    requires Inv(s) && IsTidy(s, p) && Uninterrupted(choice, p) && !UnlinkFails(s, choice, p)
    ensures IsTidy(Step(s, choice), p)
  {
    assert PublisherInv(s.publishers[p], p, s.fs, s.boot);
    if choice.Moves? && choice.p < |s.publishers| {
      MoveChangesNames(s, choice.p, choice.ok, choice.amount);
      if choice.p != p {
        hide Move;
      }
    }
  }

  /** Whatever else fails, a publisher that is not stopped and can remove its temporary name has removed it when
      it ends, in success or in error. */
  lemma {:induction false} TemporaryNameIsRemoved(s: State, choices: seq<Choice>, p: nat)
    requires Initial(s) && p < |s.publishers|
    requires forall choice :: choice in choices ==> Uninterrupted(choice, p)
    requires forall k :: 0 <= k < |choices| ==> !UnlinkFails(Run(s, choices[..k]), choices[k], p)
    ensures IsTidy(Run(s, choices), p)
  {
    hide Inv, Step, IsTidy, UnlinkFails;
    if choices == [] {
      InitiallyTidy(s, p);
    } else {
      var n := |choices| - 1;
      forall k | 0 <= k < n
        ensures !UnlinkFails(Run(s, choices[..n][..k]), choices[..n][k], p)
      {
        assert choices[..n][..k] == choices[..k];
      }
      TemporaryNameIsRemoved(s, choices[..n], p);
      RunKeepsInv(s, choices[..n]);
      StepKeepsTidy(Run(s, choices[..n]), choices[n], p);
    }
  }

  lemma InitiallyTidy(s: State, p: nat)
    requires Initial(s) && p < |s.publishers|
    ensures IsTidy(s, p)
  {
  }

  /** A publisher of either kind that is not stopped, whose calls succeed and whose names are free
      when it asks for them, ends in durable success, with its destination bound to its own
      complete file and its temporary name removed, whatever the others do meanwhile. */
  lemma UndisturbedPublisherSucceeds(s: State, choices: seq<Choice>, p: nat)
    requires Initial(s) && p < |s.publishers|
    requires forall choice :: choice in choices ==> Uninterrupted(choice, p) && Succeeding(choice, p)
    requires CallsMade(choices, p) >= |s.publishers[p].bytes| + 7
    requires forall k :: 0 <= k < |choices| ==> !FindsNameTaken(Run(s, choices[..k]), choices[k], p)
    ensures var r := Run(s, choices);
            && p < |r.publishers| && r.publishers[p].pc == Done(Published(true))
            && BoundTo(r.fs.dir, r.publishers[p].dest, Own(p)) && !BoundTo(r.fs.dir, r.publishers[p].temp, Own(p))
            && Own(p) in r.fs.files && r.fs.files[Own(p)] == s.publishers[p].bytes
  {
    EveryPublisherEnds(s, choices, p);
    OutcomeIsExact(s, choices, p);
    hide Run, Initial;
    forall k: nat
      ensures !Refused(s, choices, p, k) && !FailsAfterLink(s, choices, p, k)
      ensures k < |choices| ==> !UnlinkFails(Run(s, choices[..k]), choices[k], p)
    {
      assert k < |choices| ==> choices[k] in choices;
    }
    RunAdvances(s, choices, p);
    TemporaryNameIsRemoved(s, choices, p);
    SuccessIsBound(s, choices, p);
  }

  /** One publisher alone on an empty disk. */
  ghost function Alone(temp: Name, dest: Name): State {
    State([Publisher(ReadinessAttestation, temp, dest, [], Opening, false, 0)], Fs(map[], map[], {}, map[]), 0)
  }

  lemma AloneReachesLink(temp: Name, dest: Name) returns (choices: seq<Choice>)
    requires temp != dest
    ensures Run(Alone(temp, dest), choices)
         == State([Alone(temp, dest).publishers[0].(pc := Unlinking, linked := true)],
                  Fs(map[temp := Own(0), dest := Own(0)], map[Own(0) := []], {Own(0)}, map[]), 0)
  {
    var s := Alone(temp, dest);
    var start := s.publishers[0];
    var created := Fs(map[temp := Own(0)], map[Own(0) := []], {}, map[]);
    var forced := created.(synced := {Own(0)});
    choices := SoloStep(s, [], start, s.fs, true, start.(pc := Writing(0)), created);
    choices := SoloStep(s, choices, start.(pc := Writing(0)), created, true, start.(pc := Syncing), created);
    choices := SoloStep(s, choices, start.(pc := Syncing), created, true, start.(pc := Linking), forced);
    choices := SoloStep(s, choices, start.(pc := Linking), forced, true, start.(pc := Unlinking, linked := true),
                        forced.(dir := map[temp := Own(0), dest := Own(0)]));
  }

  /** Such a run exists: the close after the link fails. */
  lemma ErrorWithNameBound(temp: Name, dest: Name)
    requires temp != dest
    ensures exists s, choices ::
              && Initial(s)
              && var r := Run(s, choices);
              && |r.publishers| == 1 && r.publishers[0].pc == Done(Failed)
              && BoundTo(r.fs.dir, dest, Own(0))
  {
    var s := Alone(temp, dest);
    var choices := AloneReachesLink(temp, dest);
    var linked := s.publishers[0].(linked := true);
    var bound := Fs(map[temp := Own(0), dest := Own(0)], map[Own(0) := []], {Own(0)}, map[]);
    var ended := bound.(dir := map[dest := Own(0)]);
    choices := SoloStep(s, choices, linked.(pc := Unlinking), bound, true, linked.(pc := Closing), ended);
    choices := SoloStep(s, choices, linked.(pc := Closing), ended, false, linked.(pc := Done(Failed)), ended);
    assert Initial(s);
    hide Run, Step, Move;
    assert Run(s, choices) == State([linked.(pc := Done(Failed))], ended, 0);
  }

  /** One more step of a publisher that is alone. */
  lemma SoloStep(s: State, choices: seq<Choice>, publisher: Publisher, fs: Fs, ok: bool, next: Publisher, after: Fs)
    returns (more: seq<Choice>)
    requires Run(s, choices) == State([publisher], fs, 0)
    requires Move(publisher, 0, fs, 0, ok, 0) == Moved(next, after)
    ensures Run(s, more) == State([next], after, 0)
  {
    hide Move;
    more := choices + [Moves(0, ok, 0)];
    assert more[..|choices|] == choices;
  }
}

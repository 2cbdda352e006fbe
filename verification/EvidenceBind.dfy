/** The evidence-index binder: `load_and_bind` and what it calls in `xtask/src/evidence_bind.rs`.
    (Its publisher is in `Publication`.) */
module EvidenceBind {
  import opened Prelude
  import Hex
  import Order
  import Refs
  import Sorting

  const EVIDENCE_INDEX_SCHEMA := "rutile.evidence-index.v1"
  const EVIDENCE_INDEX_VERSION: nat := 1
  const GATE_RESULT_SCHEMA := "rutile.gate-result.v1"
  const PROVENANCE_SCHEMA := "rutile.production-provenance.v1"
  const MAX_RECORDS: nat := 256
  const MAX_RELATIVE_PATH_BYTES: nat := 256
  const MAX_LOGICAL_ID_BYTES: nat := 160
  const MAX_RETAINED_LOG_BYTES: nat := 16 * 1024
  const MAX_PLAIN_INDEX_BYTES: nat := 1024 * 1024
  const MAX_PROVENANCE_BYTES: nat := 1024 * 1024
  const MAX_GATE_RESULT_BYTES: nat := 1024 * 1024
  const MAX_ARTIFACT_HASHES: nat := 256
  const MAX_I64: int := 0x7FFF_FFFF_FFFF_FFFF

  // ----- Inputs ------------------------------------------------------------------------------

  datatype Node = Link | Directory | Regular(bytes: seq<byte>) | Unreadable

  datatype Source = Source(commit: Str, tree: Str)

  datatype PlainGate = PlainGate(job: Str, path: Option<Str>, sha256: Option<Str>, status: Str, error: Str)

  datatype PlainIndex = PlainIndex(
    commit: Str, gateCount: nat, passed: nat, failed: nat, requiredJobs: seq<Str>, gates: seq<PlainGate>)

  datatype Provenance = Provenance(schema: Option<Str>, version: Option<nat>, sourceCommit: Option<Str>)

  datatype RetainedLog = RetainedLog(run: Option<int>, stream: Option<Str>, path: Option<Str>, sha256: Option<Str>)

  datatype GateResult = GateResult(
    schema: Option<Str>, sourceCommit: Option<Str>, sourceTree: Option<Str>, requiredStatus: Option<Str>,
    exitCode: Option<int>, runDirectory: Option<Str>, retainedLogs: seq<RetainedLog>, artifactHashes: seq<Option<Str>>)

  datatype Record = Record(
    job: Str, gateResultPath: Str, gateResultSha256: Str, retainedLogPath: Str, retainedLogSha256: Str,
    artifactSha256: seq<Str>)

  datatype Index = Index(
    schema: Str, version: nat, sourceCommit: Str, productionProvenanceSha256: Str, records: seq<Record>)

  /** SHA-256, JSON and JSON-schema validation, about which nothing is assumed. */
  datatype Tools = Tools(
    sha256: seq<byte> -> seq<byte>,
    plainIndex: seq<byte> -> Option<PlainIndex>,
    provenance: seq<byte> -> Option<Provenance>,
    gateResult: seq<byte> -> Option<GateResult>,
    provenanceIsValid: seq<byte> -> bool,
    gateResultIsValid: seq<byte> -> bool,
    indexIsValid: Index -> bool)

  /** `tree` is what lies under the evidence root, by relative path. */
  datatype Request = Request(
    head: Option<Source>, root: Node, plainIndex: Node, provenance: Node, tree: map<Str, Node>, tools: Tools)

  datatype BindError =
    | NoSource
    | EvidenceRoot
    | ReadFailed
    | Oversize
    | FileSymlink
    | ParseFailed
    | SchemaMismatch
    | SourceMismatch
    | PlainIndexIncoherent
    | GateJobUnsafe
    | GateNotPassed
    | GateMissingBinding
    | PathUnsafe
    | HashMismatch
    | RunDirectoryMismatch
    | NoRetainedLog
    | NoArtifactHashes
    | ArtifactHashMalformed
    | TooManyArtifactHashes
    | DuplicateJob
    | RequiredJobMissing

  function Sha256Hex(tools: Tools, bytes: seq<byte>): Str {
    Hex.Encode(tools.sha256(bytes))
  }

  predicate IsSha256(text: Str) {
    Hex.IsLowerHex(text, 64)
  }

  // ----- Reading ----------------------------------------------------------------------------------

  /** `read_regular_nofollow`. */
  function ReadRegular(node: Node, max: nat): Result<seq<byte>, BindError> {
    if !node.Regular? then Err(ReadFailed)
    else if |node.bytes| > max then Err(Oversize)
    else Ok(node.bytes)
  }

  function Join(parts: seq<Str>): Str {
    if parts == [] then []
    else if |parts| == 1 then parts[0]
    else Join(parts[..|parts| - 1]) + [Refs.SLASH] + parts[|parts| - 1]
  }

  function NodeAt(tree: map<Str, Node>, path: Str): Node {
    if path in tree then tree[path] else Unreadable
  }

  /** No component on the way to `rel` is a link. */
  predicate HasNoLinks(tree: map<Str, Node>, rel: Str) {
    var parts := Refs.Components(rel);
    forall k :: 0 < k <= |parts| ==> NodeAt(tree, Join(parts[..k])) != Link
  }

  /** `resolve_under_root`, then `read_regular_nofollow`. */
  function ReadUnderRoot(tree: map<Str, Node>, rel: Str, max: nat): Result<seq<byte>, BindError> {
    if !HasNoLinks(tree, rel) then Err(FileSymlink) else ReadRegular(NodeAt(tree, rel), max)
  }

  /** Joining the first components again gives the path up to the end of the last of them. */
  lemma {:induction false} JoinIsPrefix(path: Str, k: nat)
    requires 0 < k <= |Refs.Components(path)|
    ensures var end := Refs.Split(path, 0, |path|, Refs.IsSlash)[k - 1].hi;
            end <= |path| && Join(Refs.Components(path)[..k]) == path[..end]
  {
    var (parts, pieces) := (Refs.Components(path), Refs.Split(path, 0, |path|, Refs.IsSlash));
    Refs.SplitIsSplit(path, 0, |path|, Refs.IsSlash);
    var last := k - 1;
    assert parts[last] == path[pieces[last].lo..pieces[last].hi];
    if k == 1 {
      assert parts[..k] == [parts[last]];
    } else {
      JoinIsPrefix(path, k - 1);
      var before := last - 1;
      assert pieces[last].lo == pieces[before].hi + 1 && Refs.IsSlash(path[pieces[before].hi]);
      assert parts[..k][..k - 1] == parts[..k - 1];
      assert path[..pieces[last].hi] == path[..pieces[before].hi] + [Refs.SLASH] + path[pieces[last].lo..pieces[last].hi];
    }
  }

  /** `path` can be cut after its first `i` bytes into whole components. */
  predicate EndsComponent(path: Str, i: int) {
    0 <= i <= |path| && (i < |path| ==> path[i] == Refs.SLASH)
  }

  /** What reading under the root means: the file at the path, no larger than permitted, and no link at
      any prefix of the path that ends a component. */
  lemma ReadIsExact(tree: map<Str, Node>, path: Str, max: nat, bytes: seq<byte>)
    ensures ReadUnderRoot(tree, path, max) == Ok(bytes) <==>
              && path in tree && tree[path] == Regular(bytes) && |bytes| <= max
              && forall i :: EndsComponent(path, i) && path[..i] in tree ==> tree[path[..i]] != Link
  {
    var (parts, pieces) := (Refs.Components(path), Refs.Split(path, 0, |path|, Refs.IsSlash));
    forall i | EndsComponent(path, i)
      ensures exists k :: 0 < k <= |parts| && Join(parts[..k]) == path[..i]
    {
      var k := Refs.Locate(path, 0, |path|, Refs.IsSlash, i);
      Refs.PiecesAreDelimited(path, Refs.IsSlash, k);
      JoinIsPrefix(path, k + 1);
    }
    forall k | 0 < k <= |parts|
      ensures EndsComponent(path, pieces[k - 1].hi) && Join(parts[..k]) == path[..pieces[k - 1].hi]
    {
      Refs.PiecesAreDelimited(path, Refs.IsSlash, k - 1);
      JoinIsPrefix(path, k);
    }
    hide Join, Refs.Components, Refs.Split, EndsComponent;
  }

  // ----- One gate -----------------------------------------------------------------------------------

  /** The directory component of the path that names the run; the path itself when it has only one. */
  function RunDirectoryOf(path: Str): Option<Str> {
    var parts := Refs.Components(path);
    if |parts| >= 2 then Some(parts[|parts| - 2])
    else if |parts| == 1 then Some(parts[0])
    else None
  }

  /** `path` with its last component replaced. */
  function Beside(path: Str, name: Str): Str {
    var parts := Refs.Components(path);
    Join((if parts == [] then [] else parts[..|parts| - 1]) + [name])
  }

  /** `bind_gate` up to the retained log: the gate result that a gate names. */
  function LoadGateResult(request: Request, head: Source, gate: PlainGate): Result<GateResult, BindError> {
    var _ :- Need(Refs.IsSafePath(gate.job, MAX_LOGICAL_ID_BYTES), GateJobUnsafe);
    var _ :- Need(gate.status == Bytes("passed"), GateNotPassed);
    var _ :- Need(gate.path.Some? && gate.sha256.Some?, GateMissingBinding);
    var _ :- Need(IsSha256(gate.sha256.value), HashMismatch);
    var _ :- Need(Refs.IsSafePath(gate.path.value, MAX_RELATIVE_PATH_BYTES), PathUnsafe);
    var bytes :- ReadUnderRoot(request.tree, gate.path.value, MAX_GATE_RESULT_BYTES);
    var _ :- Need(Sha256Hex(request.tools, bytes) == gate.sha256.value, HashMismatch);
    var parsed := request.tools.gateResult(bytes);
    var _ :- Need(parsed.Some?, ParseFailed);
    var result := parsed.value;
    var _ :- Need(result.schema == Some(Bytes(GATE_RESULT_SCHEMA)) && request.tools.gateResultIsValid(bytes), SchemaMismatch);
    var _ :- Need(result.sourceCommit == Some(head.commit) && result.sourceTree == Some(head.tree), SourceMismatch);
    var _ :- Need(result.requiredStatus == Some(Bytes("passed")) && result.exitCode == Some(0), GateNotPassed);
    var _ :- Need(result.runDirectory.Some? && RunDirectoryOf(gate.path.value) == result.runDirectory, RunDirectoryMismatch);
    Ok(result)
  }

  function StreamRank(stream: Str): int {
    if stream == Bytes("stdout") then 0 else if stream == Bytes("stderr") then 1 else 2
  }

  function RunOf(log: RetainedLog): int {
    if log.run.Some? then log.run.value else MAX_I64
  }

  function StreamOf(log: RetainedLog): int {
    StreamRank(if log.stream.Some? then log.stream.value else [])
  }

  predicate RanksBefore(a: RetainedLog, b: RetainedLog) {
    RunOf(a) < RunOf(b) || (RunOf(a) == RunOf(b) && StreamOf(a) < StreamOf(b))
  }

  /** The first among the lowest runs, standard output before standard error. */
  ghost predicate IsCanonical(logs: seq<RetainedLog>, k: nat) {
    && k < |logs|
    && (forall j :: 0 <= j < |logs| ==> !RanksBefore(logs[j], logs[k]))
    && (forall j :: 0 <= j < k ==> RanksBefore(logs[k], logs[j]))
  }

  lemma CanonicalIsUnique(logs: seq<RetainedLog>, a: nat, b: nat)
    requires IsCanonical(logs, a) && IsCanonical(logs, b)
    ensures a == b
  {
    hide RanksBefore;
    assert !RanksBefore(logs[a], logs[b]) && !RanksBefore(logs[b], logs[a]);
  }

  lemma FirstLog(logs: seq<RetainedLog>)
    requires |logs| == 1
    ensures IsCanonical(logs, 0)
  {
  }

  lemma RankIsWeak()
    ensures Sorting.IsWeakOrder(RanksBefore)
  {
    hide RunOf, StreamOf;
  }

  /** One more log: the best so far stays, unless the new one ranks strictly before it. */
  lemma OneMoreLog(logs: seq<RetainedLog>, best: nat, i: nat)
    requires best < i < |logs| && IsCanonical(logs[..i], best)
    ensures IsCanonical(logs[..i + 1], if RanksBefore(logs[i], logs[best]) then i else best)
  {
    RankIsWeak();
    hide RanksBefore;
    assert forall j :: 0 <= j < i ==> logs[..i][j] == logs[..i + 1][j] == logs[j];
  }

  /** `pick_canonical_retained_log`. */
  method PickCanonicalRetainedLog(logs: seq<RetainedLog>) returns (best: Option<nat>)
    ensures best.None? <==> logs == []
    ensures best.Some? ==> IsCanonical(logs, best.value)
  {
    best := None;
    for i := 0 to |logs|
      invariant best.None? <==> i == 0
      invariant best.Some? ==> best.value < i && IsCanonical(logs[..i], best.value)
    {
      hide RanksBefore, IsCanonical;
      if best.Some? {
        OneMoreLog(logs, best.value, i);
      } else {
        FirstLog(logs[..1]);
      }
      if best.None? || RanksBefore(logs[i], logs[best.value]) {
        best := Some(i);
      }
    }
    assert logs[..|logs|] == logs;
  }

  /** The retained log is the one file beside the gate result that the canonical entry names,
      and its recorded digest is what the file hashes to. */
  ghost predicate LogHolds(request: Request, gatePath: Str, logs: seq<RetainedLog>, path: Str, sha256: Str) {
    exists k: nat :: IsCanonical(logs, k) && EntryHolds(request, gatePath, logs[k], path, sha256)
  }

  predicate EntryHolds(request: Request, gatePath: Str, log: RetainedLog, path: Str, sha256: Str) {
    && log.path.Some?
    && path == Beside(gatePath, log.path.value)
    && Refs.IsSafePath(path, MAX_RELATIVE_PATH_BYTES)
    && log.sha256 == Some(sha256)
    && var content := ReadUnderRoot(request.tree, path, MAX_RETAINED_LOG_BYTES);
    && content.Ok?
    && Sha256Hex(request.tools, content.value) == sha256
  }

  /** The end of the retained-log stage of `bind_gate`. */
  method BindRetainedLog(request: Request, gatePath: Str, logs: seq<RetainedLog>) returns (r: Result<(Str, Str), BindError>)
    ensures r.Ok? ==> LogHolds(request, gatePath, logs, r.value.0, r.value.1)
    ensures r.Err? ==> forall path, sha256 :: !LogHolds(request, gatePath, logs, path, sha256)
  {
    var chosen := PickCanonicalRetainedLog(logs);
    if chosen.None? {
      return Err(NoRetainedLog);
    }
    var log := logs[chosen.value];
    r := BindEntry(request, gatePath, log);
    forall k: nat | IsCanonical(logs, k) ensures k == chosen.value {
      CanonicalIsUnique(logs, k, chosen.value);
    }
    hide EntryHolds, IsCanonical;
  }

  function BindEntry(request: Request, gatePath: Str, log: RetainedLog): (r: Result<(Str, Str), BindError>)
    ensures r.Ok? ==> EntryHolds(request, gatePath, log, r.value.0, r.value.1)
    ensures r.Err? ==> forall path, sha256 :: !EntryHolds(request, gatePath, log, path, sha256)
  {
    var _ :- Need(log.path.Some? && log.sha256.Some?, NoRetainedLog);
    var path := Beside(gatePath, log.path.value);
    var _ :- Need(Refs.IsSafePath(path, MAX_RELATIVE_PATH_BYTES), PathUnsafe);
    var content :- ReadUnderRoot(request.tree, path, MAX_RETAINED_LOG_BYTES);
    var measured := Sha256Hex(request.tools, content);
    var _ :- Need(measured == log.sha256.value, HashMismatch);
    Ok((path, measured))
  }

  // ----- Artifact hashes -----------------------------------------------------------------------------

  predicate AllAreHashes(hashes: seq<Option<Str>>) {
    forall k :: 0 <= k < |hashes| ==> hashes[k].Some? && IsSha256(hashes[k].value)
  }

  /** The same set of hashes, each once, in byte order. */
  ghost predicate IsHashList(hashes: seq<Option<Str>>, list: seq<Str>) {
    && hashes != []
    && AllAreHashes(hashes)
    && |list| <= MAX_ARTIFACT_HASHES
    && Sorting.IsStrictlySorted(list, Order.Less)
    && forall hash :: hash in list <==> Some(hash) in hashes
  }

  lemma OrderIsWeak()
    ensures Sorting.IsWeakOrder(Order.Less)
  {
    forall a, b | Order.Less(a, b) ensures !Order.Less(b, a) {
      Order.Trichotomy(a, b);
    }
    forall a, b, c | Order.Less(a, c) ensures Order.Less(a, b) || Order.Less(b, c) {
      Order.Trichotomy(a, b);
      Order.Trichotomy(b, c);
      if Order.Less(b, a) {
        Order.Transitive(b, a, c);
      }
    }
  }

  ghost predicate IsDistinct(list: seq<Str>) {
    forall i, j :: 0 <= i < j < |list| ==> list[i] != list[j]
  }

  /** Sorting distinct strings sorts them strictly and keeps the set. */
  lemma SortedDistinct(list: seq<Str>)
    requires IsDistinct(list)
    ensures var sorted := Sorting.Sort(list, Order.Less);
            && Sorting.IsStrictlySorted(sorted, Order.Less)
            && |sorted| == |list|
            && forall x :: x in sorted <==> x in list
  {
    var sorted := Sorting.Sort(list, Order.Less);
    OrderIsWeak();
    Sorting.SortPermutes(list, Order.Less);
    Sorting.SortSorts(list, Order.Less);
    forall x ensures x in sorted <==> x in list {
      assert x in multiset(sorted) <==> x in multiset(list);
    }
    MultisetKeepsDistinct(list, sorted);
    forall i, j | 0 <= i < j < |sorted| ensures Order.Less(sorted[i], sorted[j]) {
      Order.Trichotomy(sorted[i], sorted[j]);
    }
  }

  lemma CountAtMostOne<T>(list: seq<T>, x: T)
    requires forall i, j :: 0 <= i < j < |list| ==> list[i] != list[j]
    ensures multiset(list)[x] <= 1
  {
    if list != [] {
      assert list == [list[0]] + list[1..];
      CountAtMostOne(list[1..], x);
    }
  }

  lemma CountOfTwo<T>(list: seq<T>, i: nat, j: nat)
    requires i < j < |list| && list[i] == list[j]
    ensures multiset(list)[list[i]] >= 2
  {
    assert list == list[..i] + [list[i]] + list[i + 1..j] + [list[j]] + list[j + 1..];
  }

  lemma MultisetKeepsDistinct<T>(a: seq<T>, b: seq<T>)
    requires multiset(a) == multiset(b)
    requires forall i, j :: 0 <= i < j < |a| ==> a[i] != a[j]
    ensures forall i, j :: 0 <= i < j < |b| ==> b[i] != b[j]
  {
    forall i, j | 0 <= i < j < |b| ensures b[i] != b[j] {
      CountAtMostOne(a, b[i]);
      if b[i] == b[j] {
        CountOfTwo(b, i, j);
      }
    }
  }

  /** The artifact-hash stage of `bind_gate`. */
  method BindArtifactHashes(hashes: seq<Option<Str>>) returns (r: Result<seq<Str>, BindError>)
    ensures r.Ok? ==> IsHashList(hashes, r.value)
    ensures r.Err? ==> forall list :: !IsHashList(hashes, list)
  {
    if hashes == [] {
      return Err(NoArtifactHashes);
    }
    var list: seq<Str> := [];
    for k := 0 to |hashes|
      invariant AllAreHashes(hashes[..k])
      invariant IsDistinct(list)
      invariant forall hash :: hash in list <==> Some(hash) in hashes[..k]
    {
      hide IsSha256;
      assert hashes[..k + 1] == hashes[..k] + [hashes[k]];
      if hashes[k].None? || !IsSha256(hashes[k].value) {
        return Err(ArtifactHashMalformed);
      }
      if hashes[k].value !in list {
        list := list + [hashes[k].value];
      }
    }
    assert hashes[..|hashes|] == hashes;
    SortedDistinct(list);
    if |list| > MAX_ARTIFACT_HASHES {
      HashListIsUnique(hashes, Sorting.Sort(list, Order.Less));
      return Err(TooManyArtifactHashes);
    }
    return Ok(Sorting.Sort(list, Order.Less));
  }

  lemma HashListIsUnique(hashes: seq<Option<Str>>, sorted: seq<Str>)
    requires Sorting.IsStrictlySorted(sorted, Order.Less)
    requires forall hash :: hash in sorted <==> Some(hash) in hashes
    ensures forall list :: IsHashList(hashes, list) ==> list == sorted
  {
    OrderIsWeak();
    forall list | IsHashList(hashes, list) ensures list == sorted {
      Sorting.StrictlySortedUnique(list, sorted, Order.Less);
    }
  }

  /** What binding one gate establishes. */
  ghost predicate GateHolds(request: Request, head: Source, gate: PlainGate, record: Record) {
    && LoadGateResult(request, head, gate).Ok?
    && var result := LoadGateResult(request, head, gate).value;
    && record.job == gate.job
    && gate.path == Some(record.gateResultPath)
    && gate.sha256 == Some(record.gateResultSha256)
    && LogHolds(request, record.gateResultPath, result.retainedLogs, record.retainedLogPath, record.retainedLogSha256)
    && IsHashList(result.artifactHashes, record.artifactSha256)
  }

  /** `bind_gate`: it succeeds exactly when some record holds, with that record. */
  method BindGate(request: Request, head: Source, gate: PlainGate) returns (r: Result<Record, BindError>)
    ensures r.Ok? ==> GateHolds(request, head, gate, r.value)
    ensures r.Err? ==> forall record :: !GateHolds(request, head, gate, record)
  {
    hide LogHolds, IsHashList, Refs.IsSafePath, ReadUnderRoot, Bytes, RunDirectoryOf, IsSha256, Sha256Hex;
    var result :- LoadGateResult(request, head, gate);
    var log :- BindRetainedLog(request, gate.path.value, result.retainedLogs);
    var hashes :- BindArtifactHashes(result.artifactHashes);
    return Ok(Record(gate.job, gate.path.value, gate.sha256.value, log.0, log.1, hashes));
  }

  /** A gate result is loaded exactly when the gate is passed and safely named, and the file at its path,
      of the digest the gate records, is a schema-valid result for this source that passed with exit
      code 0 in the run directory that its own path names. */
  lemma LoadedGateIsExact(request: Request, head: Source, gate: PlainGate, result: GateResult)
    ensures LoadGateResult(request, head, gate) == Ok(result) <==>
              && Refs.IsSafePath(gate.job, 160)
              && gate.status == Bytes("passed")
              && gate.path.Some? && Refs.IsSafePath(gate.path.value, 256)
              && gate.sha256.Some? && Hex.IsLowerHex(gate.sha256.value, 64)
              && var content := ReadUnderRoot(request.tree, gate.path.value, 1024 * 1024);
              && content.Ok?
              && Hex.Encode(request.tools.sha256(content.value)) == gate.sha256.value
              && request.tools.gateResult(content.value) == Some(result)
              && request.tools.gateResultIsValid(content.value)
              && result.schema == Some(Bytes("rutile.gate-result.v1"))
              && result.sourceCommit == Some(head.commit) && result.sourceTree == Some(head.tree)
              && result.requiredStatus == Some(Bytes("passed")) && result.exitCode == Some(0)
              && result.runDirectory.Some? && NamesRun(gate.path.value, result.runDirectory.value)
  {
    if gate.path.Some? && result.runDirectory.Some? {
      RunIsNamed(gate.path.value, result.runDirectory.value);
    }
    hide Refs.IsSafePath, ReadUnderRoot, Bytes, RunDirectoryOf, Hex.IsLowerHex, NamesRun, Hex.Encode;
  }

  /** `run` stands in `path` between its last slash and the one before; without a slash it is the path. */
  ghost predicate NamesRun(path: Str, run: Str) {
    if Refs.SLASH !in path then run == path
    else exists lo, hi :: IsNextToLast(path, lo, hi) && run == path[lo..hi]
  }

  ghost predicate IsNextToLast(path: Str, lo: int, hi: int) {
    && 0 <= lo <= hi < |path| && path[hi] == Refs.SLASH
    && Refs.SLASH !in path[lo..hi] && Refs.SLASH !in path[hi + 1..]
    && (lo > 0 ==> path[lo - 1] == Refs.SLASH)
  }

  lemma RunIsNamed(path: Str, run: Str)
    ensures RunDirectoryOf(path) == Some(run) <==> NamesRun(path, run)
  {
    Refs.SplitIsSplit(path, 0, |path|, Refs.IsSlash);
    var pieces := Refs.Split(path, 0, |path|, Refs.IsSlash);
    if |pieces| == 1 {
      assert path[0..|path|] == path;
      assert forall i :: 0 <= i < |path| ==> !Refs.IsSlash(path[i]);
    } else {
      var (last, before) := (|pieces| - 1, |pieces| - 2);
      Refs.PiecesAreDelimited(path, Refs.IsSlash, before);
      var (lo, hi) := (pieces[before].lo, pieces[before].hi);
      assert pieces[last].lo == hi + 1 && path[hi] == Refs.SLASH;
      assert path[hi] in path;
      assert forall i :: hi < i < |path| ==> !Refs.IsSlash(path[i]);
      assert IsNextToLast(path, lo, hi);
      forall l, h | IsNextToLast(path, l, h)
        ensures l == lo && h == hi
      {
        NextToLastIsUnique(path, l, h, lo, hi);
      }
    }
  }

  lemma NextToLastIsUnique(path: Str, lo: int, hi: int, l: int, h: int)
    requires IsNextToLast(path, lo, hi) && IsNextToLast(path, l, h)
    ensures lo == l && hi == h
  {
    assert forall i :: hi < i < |path| ==> path[i] == path[hi + 1..][i - hi - 1] && path[i] != Refs.SLASH;
    assert forall i :: h < i < |path| ==> path[i] == path[h + 1..][i - h - 1] && path[i] != Refs.SLASH;
    assert forall i :: lo <= i < hi ==> path[i] == path[lo..hi][i - lo] && path[i] != Refs.SLASH;
    assert forall i :: l <= i < h ==> path[i] == path[l..h][i - l] && path[i] != Refs.SLASH;
  }

  lemma GateRecordIsUnique(request: Request, head: Source, gate: PlainGate, a: Record, b: Record)
    requires GateHolds(request, head, gate, a) && GateHolds(request, head, gate, b)
    ensures a == b
  {
    hide LoadGateResult;
    var result := LoadGateResult(request, head, gate).value;
    LogIsUnique(request, a.gateResultPath, result.retainedLogs, a, b);
    HashListIsUnique(result.artifactHashes, a.artifactSha256);
    hide LogHolds, IsHashList;
  }

  lemma LogIsUnique(request: Request, gatePath: Str, logs: seq<RetainedLog>, a: Record, b: Record)
    requires LogHolds(request, gatePath, logs, a.retainedLogPath, a.retainedLogSha256)
    requires LogHolds(request, gatePath, logs, b.retainedLogPath, b.retainedLogSha256)
    ensures a.retainedLogPath == b.retainedLogPath && a.retainedLogSha256 == b.retainedLogSha256
  {
    var i: nat :| IsCanonical(logs, i) && EntryHolds(request, gatePath, logs[i], a.retainedLogPath, a.retainedLogSha256);
    var j: nat :| IsCanonical(logs, j) && EntryHolds(request, gatePath, logs[j], b.retainedLogPath, b.retainedLogSha256);
    CanonicalIsUnique(logs, i, j);
  }

  // ----- The gates together -------------------------------------------------------------------------

  function ByJob(): (Record, Record) -> bool {
    (a: Record, b: Record) => Order.Less(a.job, b.job)
  }

  ghost predicate HasDistinctJobs(gates: seq<PlainGate>) {
    forall i, j :: 0 <= i < j < |gates| ==> gates[i].job != gates[j].job
  }

  ghost predicate HasRecord(request: Request, head: Source, gate: PlainGate, records: seq<Record>) {
    exists record :: record in records && GateHolds(request, head, gate, record)
  }

  ghost predicate HasGate(request: Request, head: Source, gates: seq<PlainGate>, record: Record) {
    exists gate :: gate in gates && GateHolds(request, head, gate, record)
  }

  /** One record for each gate and one gate for each record, in strict job order. */
  ghost predicate RecordsBind(request: Request, head: Source, gates: seq<PlainGate>, records: seq<Record>) {
    && |records| == |gates|
    && HasDistinctJobs(gates)
    && Sorting.IsStrictlySorted(records, ByJob())
    && (forall gate :: gate in gates ==> HasRecord(request, head, gate, records))
    && (forall record :: record in records ==> HasGate(request, head, gates, record))
  }

  ghost predicate GatesHold(request: Request, head: Source, gates: seq<PlainGate>, records: seq<Record>) {
    && |records| == |gates|
    && forall k :: 0 <= k < |gates| ==> GateHolds(request, head, gates[k], records[k])
  }

  lemma ByJobIsWeak()
    ensures Sorting.IsWeakOrder(ByJob())
  {
    OrderIsWeak();
    hide Order.Less;
  }

  lemma SortedStrictly(records: seq<Record>)
    requires forall i, j :: 0 <= i < j < |records| ==> records[i].job != records[j].job
    ensures var sorted := Sorting.Sort(records, ByJob());
            Sorting.IsStrictlySorted(sorted, ByJob()) && forall x :: x in sorted <==> x in records
  {
    var sorted := Sorting.Sort(records, ByJob());
    ByJobIsWeak();
    Sorting.SortPermutes(records, ByJob());
    Sorting.SortSorts(records, ByJob());
    JobsStayDistinct(records, sorted);
    SameMembers(records, sorted);
    hide Sorting.Sort, Sorting.IsWeakOrder, Order.Less;
    forall i, j | 0 <= i < j < |sorted| ensures ByJob()(sorted[i], sorted[j]) {
      Order.Trichotomy(sorted[i].job, sorted[j].job);
    }
  }

  /** Sorting the records of distinct gates puts them in strict order. */
  lemma SortedRecordsBind(request: Request, head: Source, gates: seq<PlainGate>, records: seq<Record>)
    requires GatesHold(request, head, gates, records) && HasDistinctJobs(gates)
    ensures RecordsBind(request, head, gates, Sorting.Sort(records, ByJob()))
  {
    var sorted := Sorting.Sort(records, ByJob());
    forall i, j | 0 <= i < j < |records| ensures records[i].job != records[j].job {
      BoundJob(request, head, gates[i], records[i]);
      BoundJob(request, head, gates[j], records[j]);
    }
    SortedStrictly(records);
    hide GateHolds, Sorting.Sort, Sorting.IsStrictlySorted, ByJob, HasDistinctJobs;
    forall gate | gate in gates ensures HasRecord(request, head, gate, sorted) {
      var k :| 0 <= k < |gates| && gates[k] == gate;
      assert records[k] in sorted;
    }
    forall record | record in sorted ensures HasGate(request, head, gates, record) {
      var k :| 0 <= k < |records| && records[k] == record;
      assert gates[k] in gates;
    }
  }

  lemma JobsStayDistinct(a: seq<Record>, b: seq<Record>)
    requires multiset(a) == multiset(b)
    requires forall i, j :: 0 <= i < j < |a| ==> a[i].job != a[j].job
    ensures forall i, j :: 0 <= i < j < |b| ==> b[i].job != b[j].job
  {
    MultisetKeepsDistinct(a, b);
    forall i, j | 0 <= i < j < |b| ensures b[i].job != b[j].job {
      assert b[i] in multiset(a) && b[j] in multiset(a);
    }
  }

  /** The gate loop of `load_and_bind`. */
  method BindGates(request: Request, head: Source, gates: seq<PlainGate>) returns (r: Result<seq<Record>, BindError>)
    ensures r.Ok? ==> RecordsBind(request, head, gates, r.value)
    ensures r.Err? ==> forall records :: !RecordsBind(request, head, gates, records)
  {
    hide GateHolds, Sorting.IsStrictlySorted;
    var records: seq<Record>, seen: seq<Str> := [], [];
    for k := 0 to |gates|
      invariant GatesHold(request, head, gates[..k], records)
      invariant HasDistinctJobs(gates[..k])
      invariant |seen| == k && forall j :: 0 <= j < k ==> seen[j] == records[j].job == gates[j].job
    {
      var bound := BindGate(request, head, gates[k]);
      if bound.Err? {
        assert gates[k] in gates;
        return Err(bound.error);
      }
      var record := bound.value;
      BoundJob(request, head, gates[k], record);
      if record.job in seen {
        return Err(DuplicateJob);
      }
      seen, records := seen + [record.job], records + [record];
    }
    assert gates[..|gates|] == gates;
    SortedRecordsBind(request, head, gates, records);
    return Ok(Sorting.Sort(records, ByJob()));
  }

  lemma BoundJob(request: Request, head: Source, gate: PlainGate, record: Record)
    requires GateHolds(request, head, gate, record)
    ensures record.job == gate.job
  {
  }

  // ----- The whole index ---------------------------------------------------------------------------

  function HasStatus(status: string): PlainGate -> bool {
    (gate: PlainGate) => gate.status == Bytes(status)
  }

  /** `validate_plain_index`. */
  predicate IsCoherent(plain: PlainIndex, commit: Str) {
    && Hex.IsLowerHex(plain.commit, 40)
    && plain.commit == commit
    && 0 < |plain.gates| <= MAX_RECORDS
    && plain.gateCount == |plain.gates|
    && (forall gate :: gate in plain.gates ==>
          && (gate.status == Bytes("passed") || gate.status == Bytes("failed"))
          && (gate.status == Bytes("passed") ==> gate.error == []))
    && plain.passed == Sorting.Count(plain.gates, HasStatus("passed"))
    && plain.failed == Sorting.Count(plain.gates, HasStatus("failed"))
    && plain.passed + plain.failed == plain.gateCount
  }

  function ReadPlainIndex(request: Request, head: Source): Result<PlainIndex, BindError> {
    var bytes :- ReadRegular(request.plainIndex, MAX_PLAIN_INDEX_BYTES);
    var plain := request.tools.plainIndex(bytes);
    var _ :- Need(plain.Some?, ParseFailed);
    var _ :- Need(IsCoherent(plain.value, head.commit), PlainIndexIncoherent);
    Ok(plain.value)
  }

  /** The provenance stage: the digest of the provenance file. */
  function ReadProvenance(request: Request, head: Source): Result<Str, BindError> {
    var bytes :- ReadRegular(request.provenance, MAX_PROVENANCE_BYTES);
    var provenance := request.tools.provenance(bytes);
    var _ :- Need(provenance.Some?, ParseFailed);
    var _ :- Need(provenance.value.schema == Some(Bytes(PROVENANCE_SCHEMA)) && provenance.value.version == Some(1), SchemaMismatch);
    var _ :- Need(request.tools.provenanceIsValid(bytes), SchemaMismatch);
    var _ :- Need(provenance.value.sourceCommit == Some(head.commit), SourceMismatch);
    Ok(Sha256Hex(request.tools, bytes))
  }

  ghost predicate HasJob(records: seq<Record>, job: Str) {
    exists record :: record in records && record.job == job
  }

  /** What a successful bind establishes. */
  ghost predicate IndexHolds(request: Request, index: Index) {
    && request.head.Some? && request.root == Directory
    && var head := request.head.value;
    && ReadPlainIndex(request, head).Ok? && ReadProvenance(request, head).Ok?
    && var plain := ReadPlainIndex(request, head).value;
    && index == Index(Bytes(EVIDENCE_INDEX_SCHEMA), EVIDENCE_INDEX_VERSION, head.commit,
                      ReadProvenance(request, head).value, index.records)
    && RecordsBind(request, head, plain.gates, index.records)
    && (forall job :: job in plain.requiredJobs ==> HasJob(index.records, job))
    && request.tools.indexIsValid(index)
  }

  /** Records are determined by the gates, whatever their order. */
  lemma RecordsAreUnique(
      request: Request, head: Source, gates: seq<PlainGate>, others: seq<PlainGate>, a: seq<Record>, b: seq<Record>)
    requires RecordsBind(request, head, gates, a) && RecordsBind(request, head, others, b)
    requires forall gate :: gate in gates <==> gate in others
    ensures a == b
  {
    hide GateHolds, Sorting.IsStrictlySorted, Sorting.IsWeakOrder, HasDistinctJobs, Order.Less, ByJob;
    assert Sorting.IsStrictlySorted(a, ByJob()) && Sorting.IsStrictlySorted(b, ByJob());
    hide RecordsBind;
    forall record ensures record in a <==> record in b {
      SharedRecord(request, head, gates, others, a, b, record);
      SharedRecord(request, head, others, gates, b, a, record);
    }
    ByJobIsWeak();
    Sorting.StrictlySortedUnique(a, b, ByJob());
  }

  lemma SharedRecord(
      request: Request, head: Source, gates: seq<PlainGate>, others: seq<PlainGate>, a: seq<Record>, b: seq<Record>,
      record: Record)
    requires RecordsBind(request, head, gates, a) && RecordsBind(request, head, others, b)
    requires forall gate :: gate in gates ==> gate in others
    ensures record in a ==> record in b
  {
    hide GateHolds, Sorting.IsStrictlySorted, HasDistinctJobs, Order.Less, ByJob, Sorting.IsWeakOrder;
    if record in a {
      assert HasGate(request, head, gates, record);
      var gate :| gate in gates && GateHolds(request, head, gate, record);
      assert HasRecord(request, head, gate, b);
      var other :| other in b && GateHolds(request, head, gate, other);
      GateRecordIsUnique(request, head, gate, record, other);
    }
  }

  /** The required-jobs loop. */
  method CheckRequiredJobs(jobs: seq<Str>, records: seq<Record>) returns (present: bool)
    ensures present <==> forall job :: job in jobs ==> HasJob(records, job)
  {
    for k := 0 to |jobs|
      invariant forall j :: 0 <= j < k ==> HasJob(records, jobs[j])
    {
      if !exists i :: 0 <= i < |records| && records[i].job == jobs[k] {
        assert jobs[k] in jobs && !HasJob(records, jobs[k]);
        return false;
      }
      var i :| 0 <= i < |records| && records[i].job == jobs[k];
      assert records[i] in records;
    }
    return true;
  }

  /** `load_and_bind`: it succeeds exactly when some index holds, with that index. */
  method LoadAndBind(request: Request) returns (r: Result<Index, BindError>)
    ensures r.Ok? ==> IndexHolds(request, r.value)
    ensures r.Err? ==> forall index :: !IndexHolds(request, index)
  {
    hide RecordsBind, ReadPlainIndex, ReadProvenance, Bytes, HasJob;
    if request.head.None? {
      return Err(NoSource);
    }
    if request.root != Directory {
      return Err(EvidenceRoot);
    }
    var head := request.head.value;
    var plain :- ReadPlainIndex(request, head);
    var provenanceSha256 :- ReadProvenance(request, head);
    var records :- BindGates(request, head, plain.gates);
    forall other | RecordsBind(request, head, plain.gates, other) ensures other == records {
      RecordsAreUnique(request, head, plain.gates, plain.gates, other, records);
    }
    var index := Index(Bytes(EVIDENCE_INDEX_SCHEMA), EVIDENCE_INDEX_VERSION, head.commit, provenanceSha256, records);
    var present := CheckRequiredJobs(plain.requiredJobs, records);
    if !present {
      return Err(RequiredJobMissing);
    }
    if !request.tools.indexIsValid(index) {
      return Err(SchemaMismatch);
    }
    return Ok(index);
  }

  // ----- Results ---------------------------------------------------------------------------------

  lemma IndexIsUnique(request: Request, a: Index, b: Index)
    requires IndexHolds(request, a) && IndexHolds(request, b)
    ensures a == b
  {
    hide RecordsBind, ReadPlainIndex, ReadProvenance, Bytes, HasJob;
    var head := request.head.value;
    var gates := ReadPlainIndex(request, head).value.gates;
    RecordsAreUnique(request, head, gates, gates, a.records, b.records);
  }

  /** The gates of `b`'s plain index are those of `a`'s, reordered; everything else is the same. */
  ghost predicate IsReordering(a: Request, b: Request) {
    && b == a.(plainIndex := b.plainIndex)
    && ReadRegular(a.plainIndex, MAX_PLAIN_INDEX_BYTES).Ok? && ReadRegular(b.plainIndex, MAX_PLAIN_INDEX_BYTES).Ok?
    && var (p, q) := (a.tools.plainIndex(a.plainIndex.bytes), a.tools.plainIndex(b.plainIndex.bytes));
    && p.Some? && q.Some?
    && q.value == p.value.(gates := q.value.gates)
    && multiset(q.value.gates) == multiset(p.value.gates)
  }

  lemma ReorderedIndexIsCoherent(a: PlainIndex, b: PlainIndex, commit: Str)
    requires b == a.(gates := b.gates) && multiset(b.gates) == multiset(a.gates)
    requires IsCoherent(a, commit)
    ensures IsCoherent(b, commit)
  {
    hide Bytes;
    Sorting.CountPermutes(a.gates, b.gates, HasStatus("passed"));
    Sorting.CountPermutes(a.gates, b.gates, HasStatus("failed"));
    assert |multiset(b.gates)| == |multiset(a.gates)|;
    SameMembers(a.gates, b.gates);
    hide Sorting.Count;
  }

  lemma SameMembers<T>(a: seq<T>, b: seq<T>)
    requires multiset(a) == multiset(b)
    ensures forall x :: x in a <==> x in b
  {
    forall x ensures x in a <==> x in b {
      assert x in multiset(a) <==> x in multiset(b);
    }
  }

  /** Reordering the gates of the plain index changes nothing: the same index, or none. */
  lemma GateOrderIsIrrelevant(a: Request, b: Request, index: Index)
    requires IsReordering(a, b)
    ensures IndexHolds(a, index) <==> IndexHolds(b, index)
  {
    if IndexHolds(a, index) {
      ReorderedIndexHolds(a, b, index);
    }
    if IndexHolds(b, index) {
      ReorderedIndexHolds(b, a, index);
    }
  }

  lemma ReorderedIndexHolds(a: Request, b: Request, index: Index)
    requires IsReordering(a, b) && IndexHolds(a, index)
    ensures IndexHolds(b, index)
  {
    var head := a.head.value;
    var (p, q) := (a.tools.plainIndex(a.plainIndex.bytes).value, a.tools.plainIndex(b.plainIndex.bytes).value);
    ReorderedReads(a, b, head);
    SameMembers(p.gates, q.gates);
    MultisetKeepsJobs(p.gates, q.gates);
    assert |multiset(p.gates)| == |multiset(q.gates)|;
    hide Bytes, HasJob, ReadPlainIndex, ReadProvenance, HasDistinctJobs, HasRecord, HasGate, Sorting.IsStrictlySorted;
    SameTreeSameBinding(a, b, head, p.gates, q.gates, index.records);
    hide RecordsBind;
  }

  lemma ReorderedReads(a: Request, b: Request, head: Source)
    requires IsReordering(a, b) && ReadPlainIndex(a, head).Ok?
    ensures ReadPlainIndex(a, head) == Ok(a.tools.plainIndex(a.plainIndex.bytes).value)
    ensures ReadPlainIndex(b, head) == Ok(a.tools.plainIndex(b.plainIndex.bytes).value)
    ensures ReadProvenance(b, head) == ReadProvenance(a, head)
  {
    hide Bytes;
    var (p, q) := (a.tools.plainIndex(a.plainIndex.bytes).value, a.tools.plainIndex(b.plainIndex.bytes).value);
    ReorderedIndexIsCoherent(p, q, head.commit);
    hide IsCoherent;
  }

  lemma SameTreeSameBinding(
      a: Request, b: Request, head: Source, gates: seq<PlainGate>, others: seq<PlainGate>, records: seq<Record>)
    requires a.tree == b.tree && a.tools == b.tools
    requires |gates| == |others| && (forall gate :: gate in gates <==> gate in others)
    requires HasDistinctJobs(others)
    requires RecordsBind(a, head, gates, records)
    ensures RecordsBind(b, head, others, records)
  {
    forall gate, record ensures GateHolds(a, head, gate, record) <==> GateHolds(b, head, gate, record) {
      SameTreeSameRecord(a, b, head, gate, record);
    }
    hide GateHolds, HasDistinctJobs, Sorting.IsStrictlySorted;
    forall gate | gate in others ensures HasRecord(b, head, gate, records) {
      assert HasRecord(a, head, gate, records);
    }
    forall record | record in records ensures HasGate(b, head, others, record) {
      assert HasGate(a, head, gates, record);
    }
    hide HasRecord, HasGate;
  }

  lemma SameTreeSameRecord(a: Request, b: Request, head: Source, gate: PlainGate, record: Record)
    requires a.tree == b.tree && a.tools == b.tools
    ensures GateHolds(a, head, gate, record) <==> GateHolds(b, head, gate, record)
  {
    assert LoadGateResult(a, head, gate) == LoadGateResult(b, head, gate);
    hide LoadGateResult, IsHashList;
  }

  lemma MultisetKeepsJobs(a: seq<PlainGate>, b: seq<PlainGate>)
    requires multiset(a) == multiset(b)
    ensures HasDistinctJobs(a) ==> HasDistinctJobs(b)
  {
    if HasDistinctJobs(a) {
      MultisetKeepsDistinct(a, b);
      forall i, j | 0 <= i < j < |b| ensures b[i].job != b[j].job {
        assert b[i] in multiset(a) && b[j] in multiset(a);
      }
    }
  }

  /** `record`'s artifact list has, each once and in byte order, exactly the hashes of the gate result that
      its own recorded path holds. */
  ghost predicate ListsArtifacts(request: Request, record: Record) {
    && Sorting.IsStrictlySorted(record.artifactSha256, Order.Less)
    && var content := ReadUnderRoot(request.tree, record.gateResultPath, MAX_GATE_RESULT_BYTES);
    && content.Ok? && request.tools.gateResult(content.value).Some?
    && forall hash :: hash in record.artifactSha256 <==>
         Some(hash) in request.tools.gateResult(content.value).value.artifactHashes
  }

  /** Every recorded digest is that of the file at the recorded path, reached through no link. */
  lemma RecordedDigestsAreMeasured(request: Request, index: Index, k: nat)
    requires IndexHolds(request, index) && k < |index.records|
    ensures var record := index.records[k];
            && ReadUnderRoot(request.tree, record.gateResultPath, MAX_GATE_RESULT_BYTES).Ok?
            && record.gateResultSha256 ==
               Sha256Hex(request.tools, ReadUnderRoot(request.tree, record.gateResultPath, MAX_GATE_RESULT_BYTES).value)
            && ReadUnderRoot(request.tree, record.retainedLogPath, MAX_RETAINED_LOG_BYTES).Ok?
            && record.retainedLogSha256 ==
               Sha256Hex(request.tools, ReadUnderRoot(request.tree, record.retainedLogPath, MAX_RETAINED_LOG_BYTES).value)
            && 0 < |record.artifactSha256| <= MAX_ARTIFACT_HASHES
            && ListsArtifacts(request, record)
            && Refs.IsSafePath(record.gateResultPath, MAX_RELATIVE_PATH_BYTES)
            && Refs.IsSafePath(record.retainedLogPath, MAX_RELATIVE_PATH_BYTES)
  {
    var (record, head) := (index.records[k], request.head.value);
    var gates := ReadPlainIndex(request, head).value.gates;
    hide ReadPlainIndex, ReadProvenance, Bytes, HasJob, ReadUnderRoot, Refs.IsSafePath, Sorting.IsStrictlySorted, HasDistinctJobs;
    assert record in index.records;
    RecordOfGate(request, head, gates, index.records, record);
  }

  lemma RecordOfGate(request: Request, head: Source, gates: seq<PlainGate>, records: seq<Record>, record: Record)
    requires RecordsBind(request, head, gates, records) && record in records
    ensures ReadUnderRoot(request.tree, record.gateResultPath, MAX_GATE_RESULT_BYTES).Ok?
    ensures record.gateResultSha256 ==
            Sha256Hex(request.tools, ReadUnderRoot(request.tree, record.gateResultPath, MAX_GATE_RESULT_BYTES).value)
    ensures ReadUnderRoot(request.tree, record.retainedLogPath, MAX_RETAINED_LOG_BYTES).Ok?
    ensures record.retainedLogSha256 ==
            Sha256Hex(request.tools, ReadUnderRoot(request.tree, record.retainedLogPath, MAX_RETAINED_LOG_BYTES).value)
    ensures 0 < |record.artifactSha256| <= MAX_ARTIFACT_HASHES
    ensures ListsArtifacts(request, record)
    ensures Refs.IsSafePath(record.gateResultPath, MAX_RELATIVE_PATH_BYTES)
    ensures Refs.IsSafePath(record.retainedLogPath, MAX_RELATIVE_PATH_BYTES)
  {
    hide GateHolds, HasDistinctJobs, Sorting.IsStrictlySorted, ReadUnderRoot, Refs.IsSafePath, Order.Less, ByJob, HasRecord;
    assert HasGate(request, head, gates, record);
    var gate :| gate in gates && GateHolds(request, head, gate, record);
    BoundRecord(request, head, gate, record);
  }

  lemma BoundRecord(request: Request, head: Source, gate: PlainGate, record: Record)
    requires GateHolds(request, head, gate, record)
    ensures ReadUnderRoot(request.tree, record.gateResultPath, MAX_GATE_RESULT_BYTES).Ok?
    ensures record.gateResultSha256 ==
            Sha256Hex(request.tools, ReadUnderRoot(request.tree, record.gateResultPath, MAX_GATE_RESULT_BYTES).value)
    ensures ReadUnderRoot(request.tree, record.retainedLogPath, MAX_RETAINED_LOG_BYTES).Ok?
    ensures record.retainedLogSha256 ==
            Sha256Hex(request.tools, ReadUnderRoot(request.tree, record.retainedLogPath, MAX_RETAINED_LOG_BYTES).value)
    ensures 0 < |record.artifactSha256| <= MAX_ARTIFACT_HASHES
    ensures ListsArtifacts(request, record)
    ensures Refs.IsSafePath(record.gateResultPath, MAX_RELATIVE_PATH_BYTES)
    ensures Refs.IsSafePath(record.retainedLogPath, MAX_RELATIVE_PATH_BYTES)
  {
    var result := LoadGateResult(request, head, gate).value;
    LoadedGateIsExact(request, head, gate, result);
    hide LoadGateResult, ReadUnderRoot, Refs.IsSafePath, Bytes, Sorting.IsStrictlySorted, Hex.Encode, Order.Less, NamesRun;
    HashListIsNonempty(result.artifactHashes, record.artifactSha256);
    hide IsHashList;
    LogIsRead(request, record.gateResultPath, result.retainedLogs, record);
  }

  lemma HashListIsNonempty(hashes: seq<Option<Str>>, list: seq<Str>)
    requires IsHashList(hashes, list)
    ensures list != []
  {
    hide IsSha256, Sorting.IsStrictlySorted;
    assert hashes[0] in hashes && hashes[0] == Some(hashes[0].value);
    assert hashes[0].value in list;
  }

  lemma LogIsRead(request: Request, gatePath: Str, logs: seq<RetainedLog>, record: Record)
    requires LogHolds(request, gatePath, logs, record.retainedLogPath, record.retainedLogSha256)
    ensures var content := ReadUnderRoot(request.tree, record.retainedLogPath, MAX_RETAINED_LOG_BYTES);
            content.Ok? && record.retainedLogSha256 == Sha256Hex(request.tools, content.value)
    ensures Refs.IsSafePath(record.retainedLogPath, MAX_RELATIVE_PATH_BYTES)
  {
    hide ReadUnderRoot, Refs.IsSafePath, Beside, IsCanonical;
  }

  /** Behind every record is a gate result for the very source that the index names, which passed. */
  lemma BoundResultIsOfHead(request: Request, index: Index, k: nat)
    requires IndexHolds(request, index) && k < |index.records|
    ensures var record := index.records[k];
            var content := ReadUnderRoot(request.tree, record.gateResultPath, MAX_GATE_RESULT_BYTES);
            && content.Ok? && request.tools.gateResult(content.value).Some?
            && var result := request.tools.gateResult(content.value).value;
            && request.tools.gateResultIsValid(content.value) && result.schema == Some(Bytes("rutile.gate-result.v1"))
            && result.sourceCommit == Some(index.sourceCommit) && result.sourceTree == Some(request.head.value.tree)
            && result.requiredStatus == Some(Bytes("passed")) && result.exitCode == Some(0)
            && result.runDirectory.Some? && NamesRun(record.gateResultPath, result.runDirectory.value)
            && BindsFirstLog(request, record, result.retainedLogs)
  {
    var (record, head) := (index.records[k], request.head.value);
    var gates := ReadPlainIndex(request, head).value.gates;
    hide ReadPlainIndex, ReadProvenance, Bytes, HasJob, HasRecord, GateHolds, HasDistinctJobs, Sorting.IsStrictlySorted, ByJob;
    assert record in index.records && HasGate(request, head, gates, record);
    var gate :| gate in gates && GateHolds(request, head, gate, record);
    GateResultIsOfHead(request, head, gate, record);
  }

  /** Nothing in the gate result ranks before the log that is bound: no lower run, and of its run no
      standard output before it unless it is standard output, no standard error unless it is one of
      the two; of equals it is the first. It lies beside the gate result. */
  ghost predicate BindsFirstLog(request: Request, record: Record, logs: seq<RetainedLog>) {
    exists k: nat ::
      && k < |logs|
      && logs[k].path.Some? && logs[k].sha256 == Some(record.retainedLogSha256)
      && LiesBeside(record.gateResultPath, logs[k].path.value, record.retainedLogPath)
      && forall j :: 0 <= j < |logs| ==> IsNoBetter(logs[j], logs[k], j < k)
  }

  /** `other` has no claim before `chosen`, even where it stands `earlier` in the list. */
  predicate IsNoBetter(other: RetainedLog, chosen: RetainedLog, earlier: bool) {
    var (run, best) := (if other.run.Some? then other.run.value else MAX_I64, if chosen.run.Some? then chosen.run.value else MAX_I64);
    var (out, err) := (Some(Bytes("stdout")), Some(Bytes("stderr")));
    && best <= run
    && (best == run ==>
          && (other.stream == out ==> chosen.stream == out)
          && (other.stream == err ==> chosen.stream == out || chosen.stream == err)
          && (earlier ==>
                || (chosen.stream == out && other.stream != out)
                || (chosen.stream == err && other.stream != out && other.stream != err)))
  }

  /** `path` is `gatePath` with whatever follows its last slash replaced by `name`. */
  ghost predicate LiesBeside(gatePath: Str, name: Str, path: Str) {
    if Refs.SLASH !in gatePath then path == name
    else exists hi :: IsLastSlash(gatePath, hi) && path == gatePath[..hi + 1] + name
  }

  ghost predicate IsLastSlash(path: Str, hi: int) {
    0 <= hi < |path| && path[hi] == Refs.SLASH && Refs.SLASH !in path[hi + 1..]
  }

  lemma BesideLiesBeside(gatePath: Str, name: Str)
    ensures LiesBeside(gatePath, name, Beside(gatePath, name))
  {
    Refs.SplitIsSplit(gatePath, 0, |gatePath|, Refs.IsSlash);
    var (parts, pieces) := (Refs.Components(gatePath), Refs.Split(gatePath, 0, |gatePath|, Refs.IsSlash));
    var last := |pieces| - 1;
    if last == 0 {
      assert forall i :: 0 <= i < |gatePath| ==> !Refs.IsSlash(gatePath[i]);
      assert parts[..0] + [name] == [name];
    } else {
      var hi := pieces[last - 1].hi;
      JoinIsPrefix(gatePath, last);
      var before := last - 1;
      assert pieces[last].lo == hi + 1 && Refs.IsSlash(gatePath[pieces[before].hi]);
      assert forall i :: hi < i < |gatePath| ==> !Refs.IsSlash(gatePath[i]);
      assert IsLastSlash(gatePath, hi) && gatePath[hi] in gatePath;
      var joined := parts[..last] + [name];
      assert joined[..|joined| - 1] == parts[..last];
      assert Beside(gatePath, name) == gatePath[..hi] + [Refs.SLASH] + name;
      assert gatePath[..hi + 1] == gatePath[..hi] + [Refs.SLASH];
    }
  }

  lemma CanonicalIsNoWorse(logs: seq<RetainedLog>, k: nat)
    requires IsCanonical(logs, k)
    ensures forall j :: 0 <= j < |logs| ==> IsNoBetter(logs[j], logs[k], j < k)
  {
    assert Bytes("stdout")[3] != Bytes("stderr")[3];
    hide Bytes;
    forall j | 0 <= j < |logs|
      ensures IsNoBetter(logs[j], logs[k], j < k)
    {
      assert !RanksBefore(logs[j], logs[k]);
    }
  }

  lemma GateResultIsOfHead(request: Request, head: Source, gate: PlainGate, record: Record)
    requires GateHolds(request, head, gate, record)
    ensures var content := ReadUnderRoot(request.tree, record.gateResultPath, MAX_GATE_RESULT_BYTES);
            && content.Ok? && request.tools.gateResult(content.value).Some?
            && var result := request.tools.gateResult(content.value).value;
            && request.tools.gateResultIsValid(content.value) && result.schema == Some(Bytes("rutile.gate-result.v1"))
            && result.sourceCommit == Some(head.commit) && result.sourceTree == Some(head.tree)
            && result.requiredStatus == Some(Bytes("passed")) && result.exitCode == Some(0)
            && result.runDirectory.Some? && NamesRun(record.gateResultPath, result.runDirectory.value)
            && BindsFirstLog(request, record, result.retainedLogs)
  {
    var result := LoadGateResult(request, head, gate).value;
    LoadedGateIsExact(request, head, gate, result);
    hide LoadGateResult, ReadUnderRoot, Refs.IsSafePath, Bytes, NamesRun, IsHashList, IsNoBetter, LiesBeside, Beside, IsCanonical, Hex.Encode;
    var k: nat :| IsCanonical(result.retainedLogs, k)
                  && EntryHolds(request, record.gateResultPath, result.retainedLogs[k], record.retainedLogPath, record.retainedLogSha256);
    CanonicalIsWithin(result.retainedLogs, k);
    CanonicalIsNoWorse(result.retainedLogs, k);
    BesideLiesBeside(record.gateResultPath, result.retainedLogs[k].path.value);
  }

  lemma CanonicalIsWithin(logs: seq<RetainedLog>, k: nat)
    requires IsCanonical(logs, k)
    ensures k < |logs|
  {
  }

  /** The plain index is read exactly when it is a small file that parses to a coherent list of gates for
      this commit. */
  lemma PlainIndexIsExact(request: Request, head: Source, plain: PlainIndex)
    ensures ReadPlainIndex(request, head) == Ok(plain) <==>
              && request.plainIndex.Regular? && |request.plainIndex.bytes| <= 1024 * 1024
              && request.tools.plainIndex(request.plainIndex.bytes) == Some(plain)
              && Hex.IsLowerHex(plain.commit, 40) && plain.commit == head.commit
              && 0 < |plain.gates| <= 256 && plain.gateCount == |plain.gates|
              && (forall k :: 0 <= k < |plain.gates| ==>
                    || plain.gates[k].status == Bytes("failed")
                    || (plain.gates[k].status == Bytes("passed") && plain.gates[k].error == []))
              && plain.passed == Sorting.Count(plain.gates, HasStatus("passed"))
              && plain.failed == Sorting.Count(plain.gates, HasStatus("failed"))
              && plain.passed + plain.failed == plain.gateCount
  {
    assert Bytes("passed")[0] != Bytes("failed")[0];
    hide Bytes, Hex.IsLowerHex, Sorting.Count;
  }

  /** What the index says about its inputs: it is of the head commit, and so are the plain index and the
      production provenance, a schema-valid record of version 1 whose own digest the index carries;
      every required job is among the records. */
  lemma BoundInputsAreOfHead(request: Request, index: Index)
    requires IndexHolds(request, index)
    ensures request.head.Some? && index.sourceCommit == request.head.value.commit
    ensures request.root == Directory && request.tools.indexIsValid(index)
    ensures index.schema == Bytes("rutile.evidence-index.v1") && index.version == 1
    ensures request.plainIndex.Regular? && request.provenance.Regular?
    ensures var plain := request.tools.plainIndex(request.plainIndex.bytes);
            && plain.Some? && plain.value.commit == index.sourceCommit
            && forall job :: job in plain.value.requiredJobs ==> exists k :: 0 <= k < |index.records| && index.records[k].job == job
    ensures var provenance := request.tools.provenance(request.provenance.bytes);
            && provenance.Some? && provenance.value.sourceCommit == Some(index.sourceCommit)
            && provenance.value.schema == Some(Bytes("rutile.production-provenance.v1")) && provenance.value.version == Some(1)
            && request.tools.provenanceIsValid(request.provenance.bytes)
    ensures |request.provenance.bytes| <= 1024 * 1024
    ensures index.productionProvenanceSha256 == Hex.Encode(request.tools.sha256(request.provenance.bytes))
  {
    var plain := ReadPlainIndex(request, request.head.value).value;
    PlainIndexIsExact(request, request.head.value, plain);
    hide Bytes, RecordsBind, Hex.Encode, Hex.IsLowerHex, Sorting.Count, ReadPlainIndex;
    forall job | job in plain.requiredJobs
      ensures exists k :: 0 <= k < |index.records| && index.records[k].job == job
    {
      assert HasJob(index.records, job);
      var record :| record in index.records && record.job == job;
    }
  }

  /** The provenance stage succeeds exactly on such a record. */
  lemma ProvenanceIsExact(request: Request, head: Source)
    ensures ReadProvenance(request, head).Ok? <==>
              && request.provenance.Regular? && |request.provenance.bytes| <= 1024 * 1024
              && request.tools.provenanceIsValid(request.provenance.bytes)
              && request.tools.provenance(request.provenance.bytes).Some?
              && var provenance := request.tools.provenance(request.provenance.bytes).value;
              && provenance.schema == Some(Bytes("rutile.production-provenance.v1")) && provenance.version == Some(1)
              && provenance.sourceCommit == Some(head.commit)
  {
    hide Bytes, Hex.Encode;
  }

  /** A successful bind saw only passed gates. */
  lemma BoundGatesPassed(request: Request, index: Index)
    requires IndexHolds(request, index)
    ensures var plain := ReadPlainIndex(request, request.head.value).value;
            && (forall gate :: gate in plain.gates ==> gate.status == Bytes("passed"))
            && plain.failed == 0 && plain.passed == plain.gateCount == |index.records|
  {
    var head := request.head.value;
    var plain := ReadPlainIndex(request, head).value;
    hide Bytes, HasJob;
    forall gate | gate in plain.gates ensures gate.status == Bytes("passed") {
      assert HasRecord(request, head, gate, index.records);
      var record :| record in index.records && GateHolds(request, head, gate, record);
      LoadedGateIsExact(request, head, gate, LoadGateResult(request, head, gate).value);
    }
    hide RecordsBind, LoadGateResult;
    CountAll(plain.gates, HasStatus("passed"));
  }

  lemma {:induction false} CountAll<T>(s: seq<T>, p: T -> bool)
    requires forall k :: 0 <= k < |s| ==> p(s[k])
    ensures Sorting.Count(s, p) == |s|
  {
    if s != [] {
      CountAll(s[1..], p);
    }
  }
}

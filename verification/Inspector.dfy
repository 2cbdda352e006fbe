/** The fail-closed artifact inspector: `xtask/src/artifact_inspector.rs`. */
module Inspector {
  import opened Prelude
  import opened ScanPolicy
  import Hex
  import Readiness
  import ReleaseAuthority
  import Timestamp

  // ----- What the inspector sees ---------------------------------------------------------

  datatype Mode = Candidate | Package

  datatype FileKind = Regular | Folder | Symlink | Special

  /** An entry of a directory walk. `scanned` is what reading it for the scan would give without
      the limit, `reread` what reading it again afterwards gives; `size` is its metadata. */
  datatype Entry = Entry(
    isRoot: bool, kind: FileKind, name: Str, relative: Str, size: Option<u64>,
    scanned: Result<seq<byte>, Str>, reread: Result<seq<byte>, Str>)

  datatype Walked = WalkError(message: Str) | Visited(entry: Entry)

  /** A directory package: its walk, and the files its manifest check looks up by path. */
  datatype Tree = Tree(
    walk: seq<Walked>, macExecutableIsFile: bool, infoPlist: seq<byte>, desktopEntryIsFile: bool, mimePackageIsFile: bool)

  /** A zip entry; `content` is what decompressing it would give without the limit. */
  datatype ZipEntry =
    | Unreadable(message: Str)
    | Member(name: Str, isDir: bool, isSymlink: bool, compressed: u64, content: Result<seq<byte>, Str>)

  datatype Dmg =
    | NotOnThisPlatform
    | MountFailed(message: Str)
    | AttachFailed
    | NoSingleApp
    | Mounted(tree: Tree)

  /** `len` is the metadata, `hashed` what hashing read, `scanned` what scanning would read
      without the limit, `magic` the first four bytes when there are four. */
  datatype Artifact =
    | Missing(message: Str)
    | NotInspectable
    | File(len: u64, hashed: Result<seq<byte>, Str>, scanned: Result<seq<byte>, Str>, magic: Option<Str>,
           extension: Option<Str>, zip: Result<seq<ZipEntry>, Str>, dmg: Dmg)
    | Bundle(tree: Tree)

  /** A file beside the artifact. */
  datatype Sibling = NoFile | ReadError(message: Str) | Content(bytes: seq<byte>)

  /** `rescans` is what reading the three siblings for the last scan gives, where it succeeds. */
  datatype Surroundings = Surroundings(
    fileName: Str, manifest: Sibling, provenance: Sibling, authorization: Sibling, rescans: seq<Option<seq<byte>>>)

  datatype PackageManifest = PackageManifest(
    license: Option<Str>, version: Option<Str>, sourceCommit: Option<Str>,
    waylandVerified: Option<bool>, rpmRuntimeVerified: Option<bool>)

  datatype ArtifactManifest = ArtifactManifest(
    schema: Option<Str>, artifact: Option<Str>, artifactSha256: Option<Str>,
    buildInputSha256: Option<Str>, packagedExecutableSha256: Option<Str>)

  datatype Provenance = Provenance(
    schema: Option<Str>, sourceTreeClean: Option<bool>, features: seq<Str>,
    candidateSha256: Option<Str>, controlsOrigin: Option<Str>)

  /** Hashing, JSON and signatures, about which nothing is assumed. */
  datatype Tools = Tools(
    sha256: seq<byte> -> seq<byte>,
    isUtf8: seq<byte> -> bool,
    packageManifest: seq<byte> -> Result<PackageManifest, Str>,
    artifactManifest: seq<byte> -> Result<ArtifactManifest, Str>,
    provenance: seq<byte> -> Result<Provenance, Str>,
    authorization: seq<byte> -> Result<ReleaseAuthority.Record, Str>,
    crypto: Readiness.Crypto,
    toJson: ReleaseAuthority.ToJson)

  datatype Inspector = Inspector(policy: Policy, quarantine: set<Str>, pinnedKey: Option<seq<byte>>, tools: Tools)

  const EXECUTABLE := "Contents/MacOS/Rutile"
  const LINUX_EXECUTABLE := "bin/rutile"
  const MANIFEST_NAME := "package-manifest-v1.json"
  const ZIP_MANIFEST := "Contents/Resources/package-manifest-v1.json"
  const ZIP_INFO_PLIST := "Contents/Info.plist"
  const ARTIFACT_MANIFEST_SCHEMA := "rutile-local-artifact-v1"
  const PROVENANCE_SCHEMA := "rutile.production-provenance.v1"

  function Sha256Hex(tools: Tools, bytes: seq<byte>): Str {
    Hex.Encode(tools.sha256(bytes))
  }

  predicate IsSha256(text: Str) {
    Hex.IsLowerHex(text, 64)
  }

  function OrEmpty(text: Option<Str>): Str {
    if text.Some? then text.value else []
  }

  function SaturatingAdd(a: nat, b: nat): nat {
    Min(a + b, TWO_64 - 1)
  }

  /** What a read limited to `limit + 1` bytes sees. */
  function Limited(content: seq<byte>, limit: nat): (seen: seq<byte>)
    ensures |content| <= limit + 1 ==> seen == content
  {
    content[..Min(|content|, limit + 1)]
  }

  function Decimal(n: nat): Str {
    if n < 10 then [Timestamp.Digit(n)] else Decimal(n / 10) + [Timestamp.Digit(n % 10)]
  }

  // ----- The report ------------------------------------------------------------------------

  datatype Finding = Finding(code: FindingCode, subject: Str)

  predicate Has(findings: seq<Finding>, code: FindingCode) {
    exists finding :: finding in findings && finding.code == code
  }

  /** Some finding stands against acceptance. */
  predicate Blocked(findings: seq<Finding>) {
    exists finding :: finding in findings && !IsEvidenceOnly(finding.code)
  }

  datatype ArtifactKind = UnknownKind | RegularFile | ZipArchive | DmgImage | DirectoryPackage

  class Report {
    var artifactKind: ArtifactKind
    var artifactSha256: Option<Str>
    var productionProvenanceSha256: Option<Str>
    var manifestBuildInputSha256: Option<Str>
    var manifestPackagedExecutableSha256: Option<Str>
    var inspectedExecutableSha256: Option<Str>
    var completeScan: bool
    var accepted: bool
    var publicationAuthorized: bool
    var previewAuthorized: bool
    var entriesScanned: nat
    var uncompressedBytesScanned: nat
    var findings: seq<Finding>

    /** No finding is reported twice. */
    ghost predicate Valid()
      reads this
    {
      forall i, j :: 0 <= i < j < |findings| ==> findings[i] != findings[j]
    }

    constructor ()
      ensures Valid()
      ensures artifactKind == UnknownKind && artifactSha256 == None && productionProvenanceSha256 == None
      ensures manifestBuildInputSha256 == None && manifestPackagedExecutableSha256 == None
      ensures inspectedExecutableSha256 == None
      ensures !completeScan && !accepted && !publicationAuthorized && !previewAuthorized
      ensures entriesScanned == 0 && uncompressedBytesScanned == 0 && findings == []
    {
      artifactKind := UnknownKind;
      artifactSha256, productionProvenanceSha256 := None, None;
      manifestBuildInputSha256, manifestPackagedExecutableSha256, inspectedExecutableSha256 := None, None, None;
      completeScan, accepted, publicationAuthorized, previewAuthorized := false, false, false, false;
      entriesScanned, uncompressedBytesScanned, findings := 0, 0, [];
    }

    /** `push`. */
    method Push(code: FindingCode, subject: Str)
      requires Valid()
      modifies this`findings
      ensures Valid() && old(findings) <= findings
      ensures Finding(code, subject) in findings
      ensures forall other :: Has(findings, other) <==> Has(old(findings), other) || other == code
      ensures Blocked(findings) <==> Blocked(old(findings)) || !IsEvidenceOnly(code)
    {
      var finding := Finding(code, subject);
      if finding !in findings {
        findings := findings + [finding];
      }
      assert forall other :: other in findings <==> other in old(findings) || other == finding;
    }
  }

  /** `scan_bytes`: it reports exactly what there is to report. */
  method ScanBytes(policy: Policy, bytes: seq<byte>, report: Report)
    requires forall pattern :: pattern in policy.forbiddenPatterns ==> pattern != []
    requires report.Valid()
    modifies report`findings
    ensures report.Valid() && old(report.findings) <= report.findings
    ensures forall code :: Has(report.findings, code) <==> Has(old(report.findings), code) || ScanRaises(policy, bytes, code)
    ensures Blocked(report.findings) <==> Blocked(old(report.findings)) || !IsClean(policy, bytes)
  {
    hide Occurs, HasSensitiveShape, ClassifyPattern, RedactPattern, Bytes;
    for k := 0 to |policy.forbiddenPatterns|
      invariant report.Valid() && old(report.findings) <= report.findings
      invariant forall code :: Has(report.findings, code) <==> Has(old(report.findings), code) || PatternRaises(policy, bytes, k, code)
      invariant Blocked(report.findings) <==>
                Blocked(old(report.findings)) || exists j :: 0 <= j < k && Occurs(bytes, policy.forbiddenPatterns[j])
    {
      var pattern := policy.forbiddenPatterns[k];
      if Occurs(bytes, pattern) {
        report.Push(ClassifyPattern(pattern, policy.testControlEnvironment), RedactPattern(pattern));
      }
    }
    if HasSensitiveShape(bytes) {
      report.Push(CredentialMarker, Bytes("credential or email shape matched"));
    }
  }

  /** One of the first `n` patterns occurs and is reported as `code`. */
  ghost predicate PatternRaises(policy: Policy, bytes: seq<byte>, n: nat, code: FindingCode)
    requires n <= |policy.forbiddenPatterns|
  {
    exists j :: 0 <= j < n && Occurs(bytes, policy.forbiddenPatterns[j])
                && ClassifyPattern(policy.forbiddenPatterns[j], policy.testControlEnvironment) == code
  }

  // ----- Manifests inside the package ------------------------------------------------------------

  predicate ManifestMatches(policy: Policy, manifest: PackageManifest) {
    && manifest.license == Some(policy.expectedLicense)
    && (policy.expectedVersion.Some? ==> manifest.version == policy.expectedVersion)
    && (policy.expectedSourceCommit.Some? ==> manifest.sourceCommit == policy.expectedSourceCommit)
  }

  /** `check_manifest_json`. */
  method CheckManifest(policy: Policy, manifest: PackageManifest, report: Report)
    requires report.Valid()
    modifies report`findings
    ensures report.Valid() && old(report.findings) <= report.findings
    ensures Blocked(report.findings) <==> Blocked(old(report.findings)) || !ManifestMatches(policy, manifest)
  {
    var subject := Bytes("package manifest");
    if manifest.license != Some(policy.expectedLicense) {
      report.Push(LicenseMismatch, subject);
    }
    if policy.expectedVersion.Some? && manifest.version != policy.expectedVersion {
      report.Push(VersionMismatch, subject);
    }
    if policy.expectedSourceCommit.Some? && manifest.sourceCommit != policy.expectedSourceCommit {
      report.Push(SourceCommitMismatch, subject);
    }
  }

  /** `check_macos_info_plist`. */
  predicate IsInfoPlist(tools: Tools, info: seq<byte>) {
    && tools.isUtf8(info)
    && ContainsText(info, "CFBundleIdentifier")
    && ContainsText(info, "CFBundleDocumentTypes")
    && ContainsText(info, "UTTypeConformsTo")
  }

  predicate IsIntegrated(tools: Tools, tree: Tree, manifest: PackageManifest) {
    if tree.macExecutableIsFile then IsInfoPlist(tools, tree.infoPlist)
    else
      && manifest.waylandVerified == Some(true)
      && manifest.rpmRuntimeVerified == Some(true)
      && tree.desktopEntryIsFile
      && tree.mimePackageIsFile
  }

  predicate TreeManifestHolds(inspector: Inspector, tree: Tree, manifest: Entry) {
    && manifest.reread.Ok?
    && var parsed := inspector.tools.packageManifest(manifest.reread.value);
    && parsed.Ok?
    && ManifestMatches(inspector.policy, parsed.value)
    && IsIntegrated(inspector.tools, tree, parsed.value)
  }

  /** `inspect_manifest`. */
  method InspectManifest(inspector: Inspector, tree: Tree, manifest: Entry, report: Report)
    requires report.Valid()
    modifies report`findings
    ensures report.Valid() && old(report.findings) <= report.findings
    ensures Blocked(report.findings) <==> Blocked(old(report.findings)) || !TreeManifestHolds(inspector, tree, manifest)
  {
    if manifest.reread.Err? {
      report.Push(ManifestMalformed, manifest.reread.error);
      return;
    }
    var parsed := inspector.tools.packageManifest(manifest.reread.value);
    if parsed.Err? {
      report.Push(ManifestMalformed, parsed.error);
      return;
    }
    CheckManifest(inspector.policy, parsed.value, report);
    if !IsIntegrated(inspector.tools, tree, parsed.value) {
      report.Push(PlatformMetadataMissing, Bytes("package integration"));
    }
  }

  // ----- Directories --------------------------------------------------------------------------

  /** Everything but the root counts as an entry. */
  predicate IsCounted(walked: Walked) {
    walked.Visited? && !walked.entry.isRoot
  }

  predicate IsCountedFile(walked: Walked) {
    IsCounted(walked) && walked.entry.kind == Regular
  }

  /** Metadata that cannot be had counts as the largest size. */
  function SizeOf(entry: Entry): nat {
    if entry.size.Some? then entry.size.value else TWO_64 - 1
  }

  function CountOf(walk: seq<Walked>): nat {
    if walk == [] then 0
    else CountOf(walk[..|walk| - 1]) + if IsCounted(walk[|walk| - 1]) then 1 else 0
  }

  function TotalSize(walk: seq<Walked>): nat {
    if walk == [] then 0
    else
      var last := walk[|walk| - 1];
      TotalSize(walk[..|walk| - 1]) + if IsCountedFile(last) then SizeOf(last.entry) else 0
  }

  predicate IsExecutable(entry: Entry) {
    entry.relative == Bytes(EXECUTABLE) || entry.relative == Bytes(LINUX_EXECUTABLE)
  }

  predicate IsManifest(entry: Entry) {
    entry.name == Bytes(MANIFEST_NAME)
  }

  function Files(walk: seq<Walked>, select: Entry -> bool): (files: seq<Entry>) {
    if walk == [] then []
    else
      var last := walk[|walk| - 1];
      Files(walk[..|walk| - 1], select) + if IsCountedFile(last) && select(last.entry) then [last.entry] else []
  }

  /** Nothing about this entry alone stands against acceptance. */
  predicate IsHarmless(policy: Policy, walked: Walked) {
    && walked.Visited?
    && (!walked.entry.isRoot ==>
          && !walked.entry.kind.Symlink?
          && (walked.entry.kind.Regular? ==>
                && walked.entry.scanned.Ok?
                && IsClean(policy, Limited(walked.entry.scanned.value, policy.maxUncompressedBytes))))
  }

  predicate AllHarmless(policy: Policy, walk: seq<Walked>) {
    forall k :: 0 <= k < |walk| ==> IsHarmless(policy, walk[k])
  }

  predicate WithinLimits(policy: Policy, walk: seq<Walked>) {
    CountOf(walk) <= policy.maxEntries && TotalSize(walk) <= policy.maxUncompressedBytes
  }

  /** What the package checks of a directory demand once the walk is over. */
  predicate TreeIsPackage(inspector: Inspector, tree: Tree) {
    && |Files(tree.walk, IsExecutable)| == 1
    && |Files(tree.walk, IsManifest)| == 1
    && TreeManifestHolds(inspector, tree, Files(tree.walk, IsManifest)[0])
  }

  predicate TreeIsAcceptable(inspector: Inspector, mode: Mode, tree: Tree) {
    && AllHarmless(inspector.policy, tree.walk)
    && WithinLimits(inspector.policy, tree.walk)
    && (mode == Package ==> TreeIsPackage(inspector, tree))
  }

  /** The digest of the packaged executable; absent when reading it again fails. */
  function TreeExecutableDigest(tools: Tools, tree: Tree): Option<Str> {
    var executables := Files(tree.walk, IsExecutable);
    if executables != [] && executables[0].reread.Ok? then Some(Sha256Hex(tools, executables[0].reread.value)) else None
  }

  lemma {:induction false} LimitsOfPrefix(policy: Policy, walk: seq<Walked>, n: nat)
    requires n <= |walk|
    ensures CountOf(walk[..n]) <= CountOf(walk) && TotalSize(walk[..n]) <= TotalSize(walk)
    decreases |walk|
  {
    if n < |walk| {
      var front := walk[..|walk| - 1];
      assert front[..n] == walk[..n];
      LimitsOfPrefix(policy, front, n);
    } else {
      assert walk[..n] == walk;
    }
  }

  /** The walk loop: what has been found so far. */
  datatype Walk = Walk(stopped: bool, manifests: seq<Entry>, executables: nat, executable: Option<Entry>)

  function Found(walk: Walk, entry: Entry): Walk {
    if entry.kind != Regular then walk
    else
      walk.(manifests := walk.manifests + if IsManifest(entry) then [entry] else [],
            executables := walk.executables + if IsExecutable(entry) then 1 else 0,
            executable := if IsExecutable(entry) && walk.executable.None? then Some(entry) else walk.executable)
  }

  ghost function Collected(walk: seq<Walked>): Walk {
    Walk(false, Files(walk, IsManifest), |Files(walk, IsExecutable)|, First(Files(walk, IsExecutable)))
  }

  /** What one more entry adds to each of them. */
  lemma OneMoreWalked(policy: Policy, walk: seq<Walked>, k: nat)
    requires k < |walk|
    ensures var (walked, before, after) := (walk[k], walk[..k], walk[..k + 1]);
            && (walked.WalkError? ==> !AllHarmless(policy, walk))
            && (walked.Visited? && walked.entry.isRoot ==>
                  && CountOf(after) == CountOf(before) && TotalSize(after) == TotalSize(before)
                  && Collected(after) == Collected(before)
                  && AllHarmless(policy, after) == AllHarmless(policy, before))
            && (walked.Visited? && !walked.entry.isRoot ==>
                  && CountOf(after) == CountOf(before) + 1
                  && TotalSize(after) == TotalSize(before) + (if walked.entry.kind == Regular then SizeOf(walked.entry) else 0)
                  && Collected(after) == Found(Collected(before), walked.entry)
                  && (AllHarmless(policy, after) <==> AllHarmless(policy, before) && IsHarmless(policy, walked)))
            && (CountOf(after) > policy.maxEntries || TotalSize(after) > policy.maxUncompressedBytes ==>
                  !WithinLimits(policy, walk))
  {
    assert walk[..k + 1][..k] == walk[..k];
    LimitsOfPrefix(policy, walk, k + 1);
    hide IsManifest, IsExecutable, Limited, IsClean;
    assert walk[k] in walk;
  }

  function First<T>(s: seq<T>): Option<T> {
    if s == [] then None else Some(s[0])
  }

  /** `scan_file`, and what its caller does about an error. */
  method ScanFile(policy: Policy, content: Result<seq<byte>, Str>, report: Report)
    requires IsValid(policy) && report.Valid()
    modifies report`findings
    ensures report.Valid() && old(report.findings) <= report.findings
    ensures Blocked(report.findings) <==>
              Blocked(old(report.findings)) || content.Err? || !IsClean(policy, Limited(content.value, policy.maxUncompressedBytes))
  {
    match content
    case Ok(bytes) => ScanBytes(policy, Limited(bytes, policy.maxUncompressedBytes), report);
    case Err(message) => report.Push(ManifestMalformed, message);
  }

  /** One turn of the walk loop, below the root: a broken limit stops the walk, anything else
      lets it go on, with the entry counted and, when it is a file, scanned. */
  method InspectEntry(policy: Policy, entry: Entry, report: Report) returns (stopped: bool)
    requires IsValid(policy) && report.Valid() && !entry.isRoot
    requires report.entriesScanned <= policy.maxEntries && report.uncompressedBytesScanned <= policy.maxUncompressedBytes
    modifies report`findings, report`entriesScanned, report`uncompressedBytesScanned
    ensures report.Valid() && old(report.findings) <= report.findings
    ensures report.entriesScanned <= policy.maxEntries && report.uncompressedBytesScanned <= policy.maxUncompressedBytes
    ensures var size := if entry.kind == Regular then SizeOf(entry) else 0;
            && (stopped <==> || old(report.entriesScanned) + 1 > policy.maxEntries
                             || old(report.uncompressedBytesScanned) + size > policy.maxUncompressedBytes)
            && (!stopped ==>
                  && report.entriesScanned == old(report.entriesScanned) + 1
                  && report.uncompressedBytesScanned == old(report.uncompressedBytesScanned) + size)
    ensures stopped ==> Blocked(report.findings)
    ensures !stopped ==>
              (Blocked(report.findings) <==> Blocked(old(report.findings)) || !IsHarmless(policy, Visited(entry)))
  {
    if report.entriesScanned == policy.maxEntries {
      report.Push(EntryLimitExceeded, Decimal(policy.maxEntries));
      return true;
    }
    report.entriesScanned := report.entriesScanned + 1;
    if entry.kind == Symlink {
      report.Push(LinkRejected, entry.relative);
      return false;
    }
    if entry.kind != Regular {
      return false;
    }
    var attempted := SaturatingAdd(report.uncompressedBytesScanned, SizeOf(entry));
    if attempted > policy.maxUncompressedBytes {
      report.uncompressedBytesScanned := policy.maxUncompressedBytes;
      report.Push(ByteLimitExceeded, Decimal(attempted));
      return true;
    }
    report.uncompressedBytesScanned := attempted;
    ScanFile(policy, entry.scanned, report);
    return false;
  }

  /** The walk loop of `inspect_directory`. */
  method WalkTree(policy: Policy, tree: Tree, report: Report) returns (walk: Walk)
    requires IsValid(policy)
    requires report.Valid() && report.entriesScanned == 0 && report.uncompressedBytesScanned == 0
    modifies report`findings, report`entriesScanned, report`uncompressedBytesScanned
    ensures report.Valid() && old(report.findings) <= report.findings
    ensures report.entriesScanned <= policy.maxEntries && report.uncompressedBytesScanned <= policy.maxUncompressedBytes
    ensures Blocked(report.findings) <==>
              Blocked(old(report.findings)) || !AllHarmless(policy, tree.walk) || !WithinLimits(policy, tree.walk)
    ensures WithinLimits(policy, tree.walk) && AllHarmless(policy, tree.walk) ==>
              && report.entriesScanned == CountOf(tree.walk)
              && report.uncompressedBytesScanned == TotalSize(tree.walk)
              && walk == Collected(tree.walk)
  {
    walk := Walk(false, [], 0, None);
    var k := 0;
    while k < |tree.walk| && !walk.stopped
      invariant k <= |tree.walk|
      invariant report.Valid() && old(report.findings) <= report.findings
      invariant report.entriesScanned <= policy.maxEntries
      invariant report.uncompressedBytesScanned <= policy.maxUncompressedBytes
      invariant !walk.stopped ==>
                  && report.entriesScanned == CountOf(tree.walk[..k])
                  && report.uncompressedBytesScanned == TotalSize(tree.walk[..k])
                  && walk == Collected(tree.walk[..k])
                  && (Blocked(report.findings) <==> Blocked(old(report.findings)) || !AllHarmless(policy, tree.walk[..k]))
      invariant walk.stopped ==>
                  Blocked(report.findings) && !(AllHarmless(policy, tree.walk) && WithinLimits(policy, tree.walk))
    {
      OneMoreWalked(policy, tree.walk, k);
      hide *;
      var walked := tree.walk[k];
      if walked.WalkError? {
        report.Push(ManifestMalformed, walked.message);
        walk := walk.(stopped := true);
      } else if !walked.entry.isRoot {
        var stopped := InspectEntry(policy, walked.entry, report);
        walk := if stopped then walk.(stopped := true) else Found(walk, walked.entry);
      }
      k := k + 1;
    }
    assert tree.walk[..|tree.walk|] == tree.walk;
  }

  predicate WalkIsPackage(inspector: Inspector, tree: Tree, walk: Walk) {
    && walk.executables == 1
    && |walk.manifests| == 1
    && TreeManifestHolds(inspector, tree, walk.manifests[0])
  }

  /** The package checks after the walk. */
  method CheckTree(inspector: Inspector, tree: Tree, walk: Walk, report: Report)
    requires report.Valid()
    modifies report`findings, report`inspectedExecutableSha256
    ensures report.Valid() && old(report.findings) <= report.findings
    ensures Blocked(report.findings) <==> Blocked(old(report.findings)) || !WalkIsPackage(inspector, tree, walk)
    ensures report.inspectedExecutableSha256 ==
            if walk.executable.Some? && walk.executable.value.reread.Ok?
            then Some(Sha256Hex(inspector.tools, walk.executable.value.reread.value))
            else old(report.inspectedExecutableSha256)
  {
    hide Blocked, TreeManifestHolds, Decimal;
    if walk.executables != 1 {
      report.Push(ExecutableCountMismatch, Decimal(walk.executables));
    }
    if |walk.manifests| != 1 {
      report.Push(ManifestMissing, Decimal(|walk.manifests|));
    } else {
      InspectManifest(inspector, tree, walk.manifests[0], report);
    }
    if walk.executable.Some? && walk.executable.value.reread.Ok? {
      report.inspectedExecutableSha256 := Some(Sha256Hex(inspector.tools, walk.executable.value.reread.value));
    }
  }

  /** What the two limits are about: every entry below the root counts once, every file among them
      with its size, and joined walks add up. */
  lemma {:induction false} CountsAdd(walk: seq<Walked>, more: seq<Walked>)
    ensures CountOf(walk + more) == CountOf(walk) + CountOf(more)
    ensures TotalSize(walk + more) == TotalSize(walk) + TotalSize(more)
    ensures forall walked: Walked ::
              && CountOf([walked]) == (if walked.Visited? && !walked.entry.isRoot then 1 else 0)
              && TotalSize([walked]) == (if walked.WalkError? || walked.entry.isRoot || walked.entry.kind != Regular then 0
                                         else if walked.entry.size.Some? then walked.entry.size.value else TWO_64 - 1)
  {
    if more == [] {
      assert walk + more == walk;
    } else {
      var n := |more| - 1;
      CountsAdd(walk, more[..n]);
      assert (walk + more)[..|walk| + n] == walk + more[..n];
    }
    forall walked: Walked
      ensures CountOf([walked]) == if IsCounted(walked) then 1 else 0
      ensures TotalSize([walked]) == if IsCountedFile(walked) then SizeOf(walked.entry) else 0
    {
      assert [walked][..0] == [];
    }
  }

  // ----- What a directory package is, file by file ----------------------------------------------------

  /** The walk visited a regular file below the root that `select` picks. */
  predicate IsPicked(walked: Walked, select: Entry -> bool) {
    walked.Visited? && !walked.entry.isRoot && walked.entry.kind == Regular && select(walked.entry)
  }

  /** `walk[k]` is the one file picked. */
  ghost predicate IsOnly(walk: seq<Walked>, select: Entry -> bool, k: nat) {
    && k < |walk| && IsPicked(walk[k], select)
    && forall j :: 0 <= j < |walk| && IsPicked(walk[j], select) ==> j == k
  }

  lemma {:induction false} NoFiles(walk: seq<Walked>, select: Entry -> bool)
    ensures Files(walk, select) == [] <==> forall j :: 0 <= j < |walk| ==> !IsPicked(walk[j], select)
  {
    if walk != [] {
      var front := walk[..|walk| - 1];
      NoFiles(front, select);
      assert forall j :: 0 <= j < |front| ==> walk[j] == front[j];
    }
  }

  lemma {:induction false} OnlyIsFile(walk: seq<Walked>, select: Entry -> bool, k: nat)
    requires IsOnly(walk, select, k)
    ensures Files(walk, select) == [walk[k].entry]
  {
    var (front, last) := (walk[..|walk| - 1], |walk| - 1);
    assert forall j :: 0 <= j < last ==> walk[j] == front[j];
    if k == last {
      NoFiles(front, select);
    } else {
      assert !IsPicked(walk[last], select);
      OnlyIsFile(front, select, k);
    }
  }

  lemma {:induction false} FileIsOnly(walk: seq<Walked>, select: Entry -> bool) returns (k: nat)
    requires |Files(walk, select)| == 1
    ensures IsOnly(walk, select, k)
  {
    var (front, last) := (walk[..|walk| - 1], |walk| - 1);
    assert forall j :: 0 <= j < last ==> walk[j] == front[j];
    if IsPicked(walk[last], select) {
      NoFiles(front, select);
      k := last;
    } else {
      k := FileIsOnly(front, select);
    }
  }

  lemma OneFile(walk: seq<Walked>, select: Entry -> bool)
    ensures |Files(walk, select)| == 1 <==> exists k: nat :: IsOnly(walk, select, k)
    ensures forall k: nat :: IsOnly(walk, select, k) ==> k < |walk| && Files(walk, select) == [walk[k].entry]
  {
    if |Files(walk, select)| == 1 {
      var k := FileIsOnly(walk, select);
    }
    forall k: nat | IsOnly(walk, select, k)
      ensures k < |walk| && Files(walk, select) == [walk[k].entry]
    {
      OnlyIsFile(walk, select, k);
    }
  }

  /** A directory is a package exactly when one file is the executable and one the manifest, and the
      manifest, read again, declares the license of the policy, the version and the source commit
      where the policy names them, and the integration that its platform needs. */
  lemma TreePackageIsExact(inspector: Inspector, tree: Tree)
    ensures TreeIsPackage(inspector, tree) <==>
              && (exists k: nat :: IsOnly(tree.walk, IsExecutable, k))
              && exists k: nat ::
                   && IsOnly(tree.walk, IsManifest, k)
                   && tree.walk[k].entry.reread.Ok?
                   && inspector.tools.packageManifest(tree.walk[k].entry.reread.value).Ok?
                   && var (policy, manifest) :=
                        (inspector.policy, inspector.tools.packageManifest(tree.walk[k].entry.reread.value).value);
                   && manifest.license == Some(policy.expectedLicense)
                   && policy.expectedVersion in {None, manifest.version}
                   && policy.expectedSourceCommit in {None, manifest.sourceCommit}
                   && (tree.macExecutableIsFile ==>
                         && inspector.tools.isUtf8(tree.infoPlist)
                         && ContainsText(tree.infoPlist, "CFBundleIdentifier")
                         && ContainsText(tree.infoPlist, "CFBundleDocumentTypes")
                         && ContainsText(tree.infoPlist, "UTTypeConformsTo"))
                   && (!tree.macExecutableIsFile ==>
                         && manifest.waylandVerified == manifest.rpmRuntimeVerified == Some(true)
                         && tree.desktopEntryIsFile && tree.mimePackageIsFile)
  {
    OneFile(tree.walk, IsExecutable);
    OneFile(tree.walk, IsManifest);
    hide Files, IsExecutable, IsManifest, ContainsText, IsPicked;
    if k: nat :| IsOnly(tree.walk, IsManifest, k) {
      assert forall j: nat :: IsOnly(tree.walk, IsManifest, j) ==> j == k by { OnlyOne(tree.walk, IsManifest, k); }
    }
    hide IsOnly;
  }

  lemma OnlyOne(walk: seq<Walked>, select: Entry -> bool, k: nat)
    requires IsOnly(walk, select, k)
    ensures forall j: nat :: IsOnly(walk, select, j) ==> j == k
  {
  }

  /** `inspect_directory`: whatever makes the walk stop or skip, the findings stand against
      acceptance exactly when the directory is not acceptable as a whole. */
  method InspectDirectory(inspector: Inspector, mode: Mode, tree: Tree, report: Report)
    requires IsValid(inspector.policy)
    requires report.Valid() && report.entriesScanned == 0 && report.uncompressedBytesScanned == 0
    modifies report`findings, report`entriesScanned, report`uncompressedBytesScanned, report`inspectedExecutableSha256
    ensures report.Valid() && old(report.findings) <= report.findings
    ensures Blocked(report.findings) <==> Blocked(old(report.findings)) || !TreeIsAcceptable(inspector, mode, tree)
    ensures report.entriesScanned <= inspector.policy.maxEntries
    ensures report.uncompressedBytesScanned <= inspector.policy.maxUncompressedBytes
    ensures TreeIsAcceptable(inspector, mode, tree) ==>
              && report.entriesScanned == CountOf(tree.walk)
              && report.uncompressedBytesScanned == TotalSize(tree.walk)
              && report.inspectedExecutableSha256 ==
                 if mode == Package && TreeExecutableDigest(inspector.tools, tree).Some?
                 then TreeExecutableDigest(inspector.tools, tree) else old(report.inspectedExecutableSha256)
  {
    var walk := WalkTree(inspector.policy, tree, report);
    hide CountOf, TotalSize, Files, AllHarmless, Blocked, TreeManifestHolds, IsValid;
    if mode == Package {
      CheckTree(inspector, tree, walk, report);
    }
  }
}

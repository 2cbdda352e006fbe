/** `ArtifactInspector::inspect` in `xtask/src/artifact_inspector.rs`, and what its verdict means. */
module ReleaseInspection {
  import opened Prelude
  import opened ScanPolicy
  import opened Inspector
  import opened ZipReader
  import opened InspectVerdict
  import Hex
  import Readiness
  import Refs
  import ReleaseAuthority
  import Timestamp

  function ManifestOf(inspector: Inspector, artifact: Artifact, around: Surroundings): Option<ArtifactManifest> {
    BoundManifest(inspector.tools, around.fileName, around.manifest, ArtifactDigest(inspector.tools, artifact))
  }

  /** Both links of the binding chain hold as far as they are checked. */
  predicate EvidenceAgrees(inspector: Inspector, mode: Mode, artifact: Artifact, around: Surroundings) {
    var manifest := if mode == Package then ManifestOf(inspector, artifact, around) else None;
    && !ProvenanceBlocks(CleanProvenance(inspector.tools, around.provenance), BuildInput(manifest))
    && (mode == Package ==>
          && BuildInput(manifest).Some?
          && PackagedExecutable(manifest).Some?
          && ExecutableAgrees(PackagedExecutable(manifest), MeasuredExecutable(inspector, mode, artifact)))
  }

  predicate SiblingsAreClean(policy: Policy, around: Surroundings) {
    forall k :: 0 <= k < |around.rescans| ==> around.rescans[k].Some? ==> IsClean(policy, around.rescans[k].value)
  }

  /** What acceptance means. */
  predicate IsAccepted(inspector: Inspector, mode: Mode, artifact: Artifact, around: Surroundings) {
    && ContentIsAcceptable(inspector, mode, artifact)
    && EvidenceAgrees(inspector, mode, artifact, around)
    && (mode == Package ==> SiblingsAreClean(inspector.policy, around))
  }

  /** What preview authorization means. */
  predicate IsPreviewAuthorized(inspector: Inspector, mode: Mode, artifact: Artifact, around: Surroundings, now: int) {
    && mode == Package
    && IsAccepted(inspector, mode, artifact, around)
    && IsAuthorized(inspector, around.authorization, now, ArtifactDigest(inspector.tools, artifact),
                    ProvenanceDigest(inspector.tools, around.provenance))
  }

  /** The last loop of `inspect`. */
  method ScanSiblings(policy: Policy, around: Surroundings, report: Report)
    requires IsValid(policy) && report.Valid()
    modifies report`findings
    ensures report.Valid() && old(report.findings) <= report.findings
    ensures Blocked(report.findings) <==> Blocked(old(report.findings)) || !SiblingsAreClean(policy, around)
  {
    for k := 0 to |around.rescans|
      invariant report.Valid() && old(report.findings) <= report.findings
      invariant Blocked(report.findings) <==>
                || Blocked(old(report.findings))
                || exists j :: 0 <= j < k && around.rescans[j].Some? && !IsClean(policy, around.rescans[j].value)
    {
      hide Blocked, IsClean, ScanRaises, Has;
      if around.rescans[k].Some? {
        ScanBytes(policy, around.rescans[k].value, report);
      }
    }
  }

  /** Everything of `inspect` between the content scan and the verdict. */
  method BindEvidence(inspector: Inspector, mode: Mode, artifact: Artifact, around: Surroundings, now: int, report: Report)
    requires IsValid(inspector.policy) && report.Valid() && !report.previewAuthorized
    requires report.manifestBuildInputSha256 == None && report.manifestPackagedExecutableSha256 == None
    requires report.productionProvenanceSha256 == None
    requires report.artifactSha256 == ArtifactDigest(inspector.tools, artifact)
    requires Blocked(report.findings)
             || report.inspectedExecutableSha256 == MeasuredExecutable(inspector, mode, artifact)
    modifies report`findings, report`manifestBuildInputSha256, report`manifestPackagedExecutableSha256,
             report`productionProvenanceSha256, report`previewAuthorized
    ensures report.Valid()
    ensures report.productionProvenanceSha256 == ProvenanceDigest(inspector.tools, around.provenance)
    ensures Blocked(report.findings) <==>
              || Blocked(old(report.findings))
              || !EvidenceAgrees(inspector, mode, artifact, around)
              || (mode == Package && !SiblingsAreClean(inspector.policy, around))
    ensures report.previewAuthorized <==>
              mode == Package
              && IsAuthorized(inspector, around.authorization, now, ArtifactDigest(inspector.tools, artifact),
                              ProvenanceDigest(inspector.tools, around.provenance))
  {
    hide *;
    assert ManifestOf(inspector, artifact, around)
        == BoundManifest(inspector.tools, around.fileName, around.manifest, report.artifactSha256) by { ManifestIs(inspector, artifact, around); }
    NoManifest();
    if mode == Package {
      BindArtifactManifest(inspector.tools, around.fileName, around.manifest, report);
    }
    BindProvenance(inspector.tools, around.provenance, report);
    if mode == Package {
      VerifyPackagedExecutableBinding(report);
      VerifyPreviewAuthorization(inspector, around.authorization, now, report);
      ScanSiblings(inspector.policy, around, report);
    }
    EvidenceParts(inspector, mode, artifact, around);
  }

  lemma ManifestIs(inspector: Inspector, artifact: Artifact, around: Surroundings)
    ensures ManifestOf(inspector, artifact, around)
         == BoundManifest(inspector.tools, around.fileName, around.manifest, ArtifactDigest(inspector.tools, artifact))
  {
  }

  lemma NoManifest()
    ensures BuildInput(None) == None
  {
  }

  lemma EvidenceParts(inspector: Inspector, mode: Mode, artifact: Artifact, around: Surroundings)
    ensures var (manifest, provenance) := (ManifestOf(inspector, artifact, around), CleanProvenance(inspector.tools, around.provenance));
            EvidenceAgrees(inspector, mode, artifact, around) <==>
              if mode == Candidate then !ProvenanceBlocks(provenance, None)
              else
                && !ProvenanceBlocks(provenance, BuildInput(manifest))
                && BuildInput(manifest).Some?
                && PackagedExecutable(manifest).Some?
                && ExecutableAgrees(PackagedExecutable(manifest), MeasuredExecutable(inspector, mode, artifact))
  {
    hide ManifestOf, ProvenanceBlocks, ExecutableAgrees, MeasuredExecutable;
  }

  predicate IsComplete(findings: seq<Finding>) {
    !Has(findings, EntryLimitExceeded) && !Has(findings, ByteLimitExceeded)
    && !Has(findings, UnsupportedArchive) && !Has(findings, ManifestMalformed)
  }

  /** Whatever leaves the scan incomplete also stands against acceptance. */
  lemma IncompleteIsBlocked(findings: seq<Finding>)
    ensures IsComplete(findings) <==> forall finding :: finding in findings ==> !IsIncomplete(finding.code)
    ensures !IsComplete(findings) ==> Blocked(findings)
  {
  }

  /** `inspect`: the verdict is exact, in both directions, and never authorizes publication. */
  method Inspect(inspector: Inspector, mode: Mode, artifact: Artifact, around: Surroundings, now: int) returns (report: Report)
    requires IsValid(inspector.policy)
    ensures fresh(report) && report.Valid()
    ensures report.accepted <==> IsAccepted(inspector, mode, artifact, around)
    ensures report.previewAuthorized <==> IsPreviewAuthorized(inspector, mode, artifact, around, now)
    ensures !report.publicationAuthorized
    ensures report.completeScan ==> forall finding :: finding in report.findings ==> !IsIncomplete(finding.code)
    ensures report.accepted ==> report.completeScan && !Blocked(report.findings)
    ensures report.accepted ==>
              && report.artifactSha256 == ArtifactDigest(inspector.tools, artifact)
              && report.productionProvenanceSha256 == ProvenanceDigest(inspector.tools, around.provenance)
              && report.inspectedExecutableSha256 == MeasuredExecutable(inspector, mode, artifact)
  {
    hide Has, Blocked, IsComplete, ContentIsAcceptable, EvidenceAgrees, IsAuthorized, SiblingsAreClean, ArtifactDigest, ProvenanceDigest, MeasuredExecutable,
      IsValid;
    report := new Report();
    var done := InspectArtifact(inspector, mode, artifact, report);
    if done {
      return;
    }
    BindEvidence(inspector, mode, artifact, around, now, report);
    IncompleteIsBlocked(report.findings);
    report.completeScan := IsComplete(report.findings);
    report.accepted := report.completeScan && !Blocked(report.findings);
    report.publicationAuthorized := false;
    AuthorizedHasProvenance(inspector, around, now, ArtifactDigest(inspector.tools, artifact));
    report.previewAuthorized := report.previewAuthorized && report.accepted && report.productionProvenanceSha256.Some?;
  }

  lemma AuthorizedHasProvenance(inspector: Inspector, around: Surroundings, now: int, digest: Option<Str>)
    ensures IsAuthorized(inspector, around.authorization, now, digest, ProvenanceDigest(inspector.tools, around.provenance)) ==>
              ProvenanceDigest(inspector.tools, around.provenance).Some?
  {
  }

  // ----- What an accepted artifact is --------------------------------------------------------------

  /** File sizes were what reading the files then gave. */
  ghost predicate IsSteady(walk: seq<Walked>) {
    forall k :: 0 <= k < |walk| && IsCountedFile(walk[k]) && walk[k].entry.scanned.Ok? ==>
      walk[k].entry.size == Some(|walk[k].entry.scanned.value|)
  }

  lemma {:induction false} SizeIsWithinTotal(walk: seq<Walked>, k: nat)
    requires k < |walk| && IsCountedFile(walk[k])
    ensures SizeOf(walk[k].entry) <= TotalSize(walk)
  {
    if k < |walk| - 1 {
      SizeIsWithinTotal(walk[..|walk| - 1], k);
    }
  }

  lemma {:induction false} FileIsWithinTotal(entries: seq<ZipEntry>, k: nat)
    requires k < |entries|
    ensures FileBytes(entries[k]) <= TotalBytes(entries)
  {
    if k < |entries| - 1 {
      FileIsWithinTotal(entries[..|entries| - 1], k);
    }
  }

  /** No entry of an accepted directory was missed: none is a link or was unreadable, every file's
      size was known and within the limit, and what was read of it is clean. When files do not
      change under the walk, that is every byte of every file. */
  lemma AcceptedTreeIsScanned(inspector: Inspector, mode: Mode, tree: Tree, k: nat)
    requires IsValid(inspector.policy)
    requires TreeIsAcceptable(inspector, mode, tree) && k < |tree.walk|
    ensures CountOf(tree.walk) <= inspector.policy.maxEntries
    ensures TotalSize(tree.walk) <= inspector.policy.maxUncompressedBytes
    ensures tree.walk[k].Visited?
    ensures IsCounted(tree.walk[k]) ==> tree.walk[k].entry.kind != Symlink
    ensures IsCountedFile(tree.walk[k]) ==>
              var (entry, limit) := (tree.walk[k].entry, inspector.policy.maxUncompressedBytes);
              && entry.size.Some? && entry.size.value <= limit
              && entry.scanned.Ok?
              && IsClean(inspector.policy, Limited(entry.scanned.value, limit))
              && (|entry.scanned.value| <= limit + 1 || IsSteady(tree.walk) ==>
                    IsClean(inspector.policy, entry.scanned.value))
  {
    hide IsClean;
    assert IsHarmless(inspector.policy, tree.walk[k]);
    if IsCountedFile(tree.walk[k]) {
      SizeIsWithinTotal(tree.walk, k);
    }
  }

  lemma RatioBound(compressed: nat, actual: nat)
    requires compressed > 0 && actual / compressed <= MAX_COMPRESSION_RATIO
    ensures actual < (MAX_COMPRESSION_RATIO + 1) * compressed
  {
    var ratio := actual / compressed;
    assert actual == ratio * compressed + actual % compressed;
    assert ratio * compressed <= MAX_COMPRESSION_RATIO * compressed;
  }

  /** Every file of an accepted archive was decompressed in full, whatever its headers claim. */
  lemma AcceptedZipIsScanned(inspector: Inspector, mode: Mode, entries: seq<ZipEntry>, k: nat)
    requires ZipIsAcceptable(inspector, mode, entries) && k < |entries|
    ensures TotalBytes(entries) <= inspector.policy.maxUncompressedBytes
    ensures FileCount(entries) <= inspector.policy.maxEntries
    ensures entries[k].Member?
    ensures !entries[k].isDir ==>
              && IsFile(entries[k])
              && entries[k].content.Ok?
              && |entries[k].content.value| <= TotalBytes(entries)
              && (entries[k].compressed > 0 ==>
                    |entries[k].content.value| < (MAX_COMPRESSION_RATIO + 1) * entries[k].compressed)
              && IsClean(inspector.policy, entries[k].content.value)
  {
    hide IsClean;
    assert EntryIsHarmless(inspector.policy, entries[k]);
    FileIsWithinTotal(entries, k);
    if IsFile(entries[k]) && entries[k].compressed > 0 {
      RatioBound(entries[k].compressed, |entries[k].content.value|);
    }
  }

  /** A single file is only ever accepted as a candidate: no longer than permitted, not quarantined, read
      again without error, and clean as far as it was read; when it did not grow meanwhile, to its end. */
  lemma AcceptedFileIsScanned(inspector: Inspector, mode: Mode, artifact: Artifact)
    requires artifact.File? && FormatOf(mode, artifact) == Opaque
    requires ContentIsAcceptable(inspector, mode, artifact)
    ensures mode == Candidate && artifact.hashed.Ok? && artifact.scanned.Ok?
    ensures Sha256Hex(inspector.tools, artifact.hashed.value) !in inspector.quarantine
    ensures var (limit, bytes) := (inspector.policy.maxUncompressedBytes, artifact.scanned.value);
            && artifact.len <= limit && |artifact.hashed.value| <= limit
            && IsClean(inspector.policy, Limited(bytes, limit))
            && (|bytes| <= |artifact.hashed.value| ==> IsClean(inspector.policy, bytes))
  {
    hide IsClean;
  }

  /** Whatever is accepted is a directory or a file; a file of any format is no longer than permitted and
      not quarantined; and of a package the siblings, as far as they could be read again, are clean. */
  lemma AcceptedIsPermitted(inspector: Inspector, mode: Mode, artifact: Artifact, around: Surroundings)
    requires IsAccepted(inspector, mode, artifact, around)
    ensures artifact.Bundle? || artifact.File?
    ensures artifact.File? ==>
              && artifact.len <= inspector.policy.maxUncompressedBytes
              && artifact.hashed.Ok?
              && Hex.Encode(inspector.tools.sha256(artifact.hashed.value)) !in inspector.quarantine
    ensures mode == Package ==>
              forall sibling :: Some(sibling) in around.rescans ==> IsClean(inspector.policy, sibling)
  {
    hide IsClean, EvidenceAgrees, FormatOf, TreeIsAcceptable, ZipIsAcceptable, Hex.Encode;
  }

  /** The same archive with one more entry. */
  function WithEntry(artifact: Artifact, i: nat, extra: ZipEntry): Artifact
    requires artifact.File? && artifact.zip.Ok? && i <= |artifact.zip.value|
  {
    artifact.(zip := Ok(Inserted(artifact.zip.value, i, extra)))
  }

  /** For every inspector: as long as the evidence names the artifact's digest all the same, a directory-marked
      entry before the last one changes nothing about an archive's verdict, link or not and whatever it
      carries. */
  lemma VerdictIgnoresDirectories(
      inspector: Inspector, artifact: Artifact, around: Surroundings, now: int, i: nat, extra: ZipEntry)
    requires artifact.File? && FormatOf(Package, artifact) == Zipped && artifact.zip.Ok?
    requires i < |artifact.zip.value| && extra.Member? && extra.isDir
    ensures var more := WithEntry(artifact, i, extra);
            && (IsAccepted(inspector, Package, more, around) <==> IsAccepted(inspector, Package, artifact, around))
            && (IsPreviewAuthorized(inspector, Package, more, around, now) <==>
                  IsPreviewAuthorized(inspector, Package, artifact, around, now))
  {
    var more := WithEntry(artifact, i, extra);
    DirectoriesAreUnseen(inspector, Package, artifact.zip.value, i, extra);
    hide ZipIsAcceptable, ZipExecutableDigest, Inserted, Sha256Hex, Bytes;
    assert FormatOf(Package, more) == Zipped;
    assert ContentIsAcceptable(inspector, Package, more) <==> ContentIsAcceptable(inspector, Package, artifact);
    assert MeasuredExecutable(inspector, Package, more) == MeasuredExecutable(inspector, Package, artifact);
    assert ArtifactDigest(inspector.tools, more) == ArtifactDigest(inspector.tools, artifact);
    hide ContentIsAcceptable, MeasuredExecutable, ArtifactDigest, ProvenanceBlocks, BoundManifest, SiblingsAreClean, IsAuthorized;
    assert EvidenceAgrees(inspector, Package, more, around) <==> EvidenceAgrees(inspector, Package, artifact, around);
  }

  // ----- What a preview authorization binds -----------------------------------------------------------

  // ----- What an accepted package declares -------------------------------------------------------------

  /** The manifests inside a package, as they are read for the check. */
  function EmbeddedManifests(artifact: Artifact): seq<Result<seq<byte>, Str>> {
    match artifact
    case Bundle(tree) => Rereads(Files(tree.walk, IsManifest))
    case File(_, _, _, _, _, zip, dmg) =>
      if FormatOf(Package, artifact) == Zipped && zip.Ok? then Contents(FilesAt(zip.value, ZIP_MANIFEST))
      else if FormatOf(Package, artifact) == Image && dmg.Mounted? then Rereads(Files(dmg.tree.walk, IsManifest))
      else []
    case _ => []
  }

  function Rereads(entries: seq<Entry>): seq<Result<seq<byte>, Str>> {
    seq(|entries|, k requires 0 <= k < |entries| => entries[k].reread)
  }

  function Contents(files: seq<seq<byte>>): seq<Result<seq<byte>, Str>> {
    seq(|files|, k requires 0 <= k < |files| => Ok(files[k]))
  }

  /** Every accepted package, directory, image or archive, has a manifest inside, and each one declares
      the license that the policy expects, and the version and the source commit where it expects any. */
  lemma AcceptedPackageDeclares(inspector: Inspector, artifact: Artifact, around: Surroundings)
    requires IsAccepted(inspector, Package, artifact, around)
    ensures EmbeddedManifests(artifact) != []
    ensures forall k :: 0 <= k < |EmbeddedManifests(artifact)| ==>
              var manifest := EmbeddedManifests(artifact)[k];
              && manifest.Ok? && inspector.tools.packageManifest(manifest.value).Ok?
              && var declared := inspector.tools.packageManifest(manifest.value).value;
              && declared.license == Some(inspector.policy.expectedLicense)
              && (inspector.policy.expectedVersion.Some? ==> declared.version == inspector.policy.expectedVersion)
              && (inspector.policy.expectedSourceCommit.Some? ==> declared.sourceCommit == inspector.policy.expectedSourceCommit)
  {
    hide EvidenceAgrees, SiblingsAreClean, Bytes, Files, FilesAt, IsManifest, IsExecutable, IsZipMagic, IsDmgExtension,
      Sha256Hex, AllHarmless, WithinLimits, EntriesAreHarmless, ZipIsWithin, IsIntegrated, IsInfoPlist, IsClean;
  }

  // ----- What the evidence of an accepted package says -----------------------------------------------------

  /** The evidence beside a package agrees exactly when its manifest is of the schema, names the file
      and, for a file, its digest, and carries two digests, of which the second is the measured
      executable's if one was measured; and when the provenance, if it attests a clean build, names a
      candidate that, with a known origin, is the first of the two. */
  lemma EvidenceIsExact(inspector: Inspector, artifact: Artifact, around: Surroundings)
    ensures EvidenceAgrees(inspector, Package, artifact, around) <==>
              && around.manifest.Content? && inspector.tools.artifactManifest(around.manifest.bytes).Ok?
              && var manifest := inspector.tools.artifactManifest(around.manifest.bytes).value;
              && manifest.schema == Some(Bytes("rutile-local-artifact-v1"))
              && (manifest.artifact == Some(around.fileName) || (manifest.artifact.None? && around.fileName == []))
              && (ArtifactDigest(inspector.tools, artifact).Some? ==>
                    && manifest.artifactSha256 == ArtifactDigest(inspector.tools, artifact)
                    && Hex.IsLowerHex(manifest.artifactSha256.value, 64))
              && manifest.buildInputSha256.Some? && Hex.IsLowerHex(manifest.buildInputSha256.value, 64)
              && manifest.packagedExecutableSha256.Some? && Hex.IsLowerHex(manifest.packagedExecutableSha256.value, 64)
              && MeasuredExecutable(inspector, Package, artifact) in {None, manifest.packagedExecutableSha256}
              && (around.provenance.Content? && inspector.tools.provenance(around.provenance.bytes).Ok? ==>
                    var provenance := inspector.tools.provenance(around.provenance.bytes).value;
                    && provenance.schema == Some(Bytes("rutile.production-provenance.v1"))
                    && provenance.sourceTreeClean == Some(true)
                    && Bytes("test-control") !in provenance.features
                    ==>
                    && provenance.candidateSha256.Some? && Hex.IsLowerHex(provenance.candidateSha256.value, 64)
                    && (provenance.controlsOrigin == Some(Bytes("ambient_build_env"))
                        || provenance.controlsOrigin == Some(Bytes("operator_re_derivation"))
                        ==> provenance.candidateSha256 == manifest.buildInputSha256))
  {
    EmptyIsNoSha256();
    hide Bytes, Hex.IsLowerHex, MeasuredExecutable, ArtifactDigest;
  }

  /** Links between the artifact, its evidence and the signed record, all by digest, and what the
      provenance attests. */
  ghost predicate IsBound(
      inspector: Inspector, artifact: Artifact, around: Surroundings, now: int,
      manifest: ArtifactManifest, provenance: Provenance, record: ReleaseAuthority.Record)
    requires artifact.File? && artifact.hashed.Ok? && around.provenance.Content? && inspector.pinnedKey.Some?
  {
    var digest := Sha256Hex(inspector.tools, artifact.hashed.value);
    && digest !in inspector.quarantine
    && manifest.artifactSha256 == Some(digest)
    && record.artifactSha256 == digest
    && provenance.schema == Some(Bytes("rutile.production-provenance.v1"))
    && provenance.sourceTreeClean == Some(true)
    && Bytes("test-control") !in provenance.features
    && (provenance.controlsOrigin == Some(Bytes("ambient_build_env"))
        || provenance.controlsOrigin == Some(Bytes("operator_re_derivation")))
    && provenance.candidateSha256.Some?
    && provenance.candidateSha256 == manifest.buildInputSha256
    && record.provenanceSha256 == Sha256Hex(inspector.tools, around.provenance.bytes)
    && ReleaseAuthority.Verified(record, inspector.pinnedKey.value, inspector.tools.crypto, inspector.tools.toJson)
    && Timestamp.Iso8601ToUnix(record.expiresAt).Some?
    && now <= Timestamp.Iso8601ToUnix(record.expiresAt).value
  }

  /** A preview-authorized artifact is a zip or a disk image whose digest, manifest, provenance and
      signed record all name one another, under the pinned key and before expiry. */
  lemma PreviewIsBound(inspector: Inspector, mode: Mode, artifact: Artifact, around: Surroundings, now: int)
    requires IsPreviewAuthorized(inspector, mode, artifact, around, now)
    ensures mode == Package && artifact.File? && artifact.hashed.Ok? && FormatOf(mode, artifact) != Opaque
    ensures around.manifest.Content? && inspector.tools.artifactManifest(around.manifest.bytes).Ok?
    ensures around.provenance.Content? && inspector.tools.provenance(around.provenance.bytes).Ok?
    ensures around.authorization.Content? && inspector.tools.authorization(around.authorization.bytes).Ok?
    ensures inspector.pinnedKey.Some?
    ensures IsBound(inspector, artifact, around, now,
                    inspector.tools.artifactManifest(around.manifest.bytes).value,
                    inspector.tools.provenance(around.provenance.bytes).value,
                    inspector.tools.authorization(around.authorization.bytes).value)
  {
    hide Bytes, Hex.Encode, ReleaseAuthority.Verify, ReleaseAuthority.Verified, Timestamp.Iso8601ToUnix,
      ZipIsAcceptable, TreeIsAcceptable, IsClean, SiblingsAreClean, MeasuredExecutable;
    ReleaseAuthority.VerifyIsExact(inspector.tools.authorization(around.authorization.bytes).value,
                                   inspector.pinnedKey.value, inspector.tools.crypto, inspector.tools.toJson);
    EmptyIsNoSha256();
  }

  lemma EmptyIsNoSha256()
    ensures !IsSha256([])
  {
  }

  /** The executable link is different: it holds exactly when the executable could be measured,
      which a zip guarantees and a disk image does not. */
  lemma PreviewExecutableLink(inspector: Inspector, mode: Mode, artifact: Artifact, around: Surroundings, now: int)
    requires IsPreviewAuthorized(inspector, mode, artifact, around, now)
    ensures var claimed := PackagedExecutable(ManifestOf(inspector, artifact, around));
            && claimed.Some?
            && (MeasuredExecutable(inspector, mode, artifact) == claimed <==>
                  artifact.File? && (FormatOf(mode, artifact) == Image ==>
                    Files(artifact.dmg.tree.walk, IsExecutable)[0].reread.Ok?))
  {
  }

  // ----- A preview without a measured executable --------------------------------------------------------

  /** Reading the packaged executable again fails. (In a walk no file is both the executable and the
      manifest, whose names differ; were one, it would be left alone.) */
  function Unread(walked: Walked, error: Str): Walked {
    if IsCountedFile(walked) && IsExecutable(walked.entry) && !IsManifest(walked.entry)
    then Visited(walked.entry.(reread := Err(error)))
    else walked
  }

  function UnreadTree(tree: Tree, error: Str): Tree {
    tree.(walk := seq(|tree.walk|, k requires 0 <= k < |tree.walk| => Unread(tree.walk[k], error)))
  }

  /** The same disk image, but its executable cannot be read again. */
  function Unmeasured(artifact: Artifact, error: Str): Artifact {
    if artifact.File? && artifact.dmg.Mounted? then artifact.(dmg := Mounted(UnreadTree(artifact.dmg.tree, error)))
    else artifact
  }

  lemma {:induction false} UnreadWalk(tree: Tree, error: Str, n: nat)
    requires n <= |tree.walk|
    ensures var (walk, unread) := (tree.walk[..n], UnreadTree(tree, error).walk[..n]);
            && CountOf(unread) == CountOf(walk) && TotalSize(unread) == TotalSize(walk)
            && Files(unread, IsManifest) == Files(walk, IsManifest)
            && |Files(unread, IsExecutable)| == |Files(walk, IsExecutable)|
            && forall k :: 0 <= k < |Files(walk, IsExecutable)| ==>
                 Visited(Files(unread, IsExecutable)[k]) == Unread(Visited(Files(walk, IsExecutable)[k]), error)
                 && Files(walk, IsExecutable)[k].kind == Regular
                 && !Files(walk, IsExecutable)[k].isRoot && IsExecutable(Files(walk, IsExecutable)[k])
  {
    if n > 0 {
      UnreadWalk(tree, error, n - 1);
      var (walk, unread) := (tree.walk[..n], UnreadTree(tree, error).walk[..n]);
      assert walk[..n - 1] == tree.walk[..n - 1] && unread[..n - 1] == UnreadTree(tree, error).walk[..n - 1];
      hide Bytes;
    }
  }

  lemma UnreadKeepsTree(inspector: Inspector, tree: Tree, error: Str)
    ensures TreeIsAcceptable(inspector, Package, UnreadTree(tree, error)) <==> TreeIsAcceptable(inspector, Package, tree)
    ensures var executables := Files(tree.walk, IsExecutable);
            |executables| == 1 && !IsManifest(executables[0]) ==>
              TreeExecutableDigest(inspector.tools, UnreadTree(tree, error)) == None
  {
    UnreadWalk(tree, error, |tree.walk|);
    var unread := UnreadTree(tree, error);
    assert tree.walk[..|tree.walk|] == tree.walk && unread.walk[..|unread.walk|] == unread.walk;
    hide IsClean, Bytes, Limited, Files, CountOf, TotalSize, IsManifest, IsExecutable;
    assert AllHarmless(inspector.policy, unread.walk) <==> AllHarmless(inspector.policy, tree.walk) by {
      assert forall k :: 0 <= k < |tree.walk| ==>
        (IsHarmless(inspector.policy, unread.walk[k]) <==> IsHarmless(inspector.policy, tree.walk[k]));
    }
    hide AllHarmless;
    assert |Files(tree.walk, IsManifest)| == 1 ==>
      (TreeManifestHolds(inspector, unread, Files(unread.walk, IsManifest)[0])
       <==> TreeManifestHolds(inspector, tree, Files(tree.walk, IsManifest)[0]));
  }

  /** For every inspector: measuring the executable of a disk image can only refuse. An image is
      preview-authorized exactly when it would be with its executable unreadable, and the digest that was
      measured, if one was, is the claimed one. So each authorized image stays authorized when the
      executable cannot be read again, and then nothing about the executable was compared. */
  lemma PreviewDoesNotNeedExecutable(inspector: Inspector, artifact: Artifact, around: Surroundings, now: int, error: Str)
    requires artifact.File? && FormatOf(Package, artifact) == Image
    ensures IsPreviewAuthorized(inspector, Package, artifact, around, now) <==>
              && IsPreviewAuthorized(inspector, Package, Unmeasured(artifact, error), around, now)
              && ExecutableAgrees(PackagedExecutable(ManifestOf(inspector, artifact, around)),
                                  MeasuredExecutable(inspector, Package, artifact))
    ensures IsPreviewAuthorized(inspector, Package, artifact, around, now)
            && !IsManifest(Files(artifact.dmg.tree.walk, IsExecutable)[0]) ==>
              MeasuredExecutable(inspector, Package, Unmeasured(artifact, error)) == None
  {
    if artifact.dmg.Mounted? {
      UnmeasuredParts(inspector, artifact, around, error);
      if IsPreviewAuthorized(inspector, Package, artifact, around, now) {
        UnmeasuredIsUnread(inspector, artifact, error);
      }
    }
    hide Unmeasured, ContentIsAcceptable, MeasuredExecutable, ManifestOf, ArtifactDigest, FormatOf, IsAuthorized,
      SiblingsAreClean, ProvenanceBlocks, CleanProvenance, ProvenanceDigest, Bytes, IsManifest, Files;
  }

  /** Only the measured digest can change, and only to none. */
  lemma UnmeasuredParts(inspector: Inspector, artifact: Artifact, around: Surroundings, error: Str)
    requires artifact.File? && FormatOf(Package, artifact) == Image && artifact.dmg.Mounted?
    ensures var unmeasured := Unmeasured(artifact, error);
            && ArtifactDigest(inspector.tools, unmeasured) == ArtifactDigest(inspector.tools, artifact)
            && ManifestOf(inspector, unmeasured, around) == ManifestOf(inspector, artifact, around)
            && (ContentIsAcceptable(inspector, Package, unmeasured) <==> ContentIsAcceptable(inspector, Package, artifact))
            && MeasuredExecutable(inspector, Package, unmeasured) in {None, MeasuredExecutable(inspector, Package, artifact)}
  {
    UnreadKeepsTree(inspector, artifact.dmg.tree, error);
    UnreadDigest(inspector.tools, artifact.dmg.tree, error);
    hide TreeIsAcceptable, TreeExecutableDigest, UnreadTree, Sha256Hex, BoundManifest, Bytes;
  }

  lemma UnmeasuredIsUnread(inspector: Inspector, artifact: Artifact, error: Str)
    requires artifact.File? && FormatOf(Package, artifact) == Image && artifact.dmg.Mounted?
    requires ContentIsAcceptable(inspector, Package, artifact)
    ensures |Files(artifact.dmg.tree.walk, IsExecutable)| == 1
    ensures !IsManifest(Files(artifact.dmg.tree.walk, IsExecutable)[0]) ==>
              MeasuredExecutable(inspector, Package, Unmeasured(artifact, error)) == None
  {
    UnreadKeepsTree(inspector, artifact.dmg.tree, error);
    hide UnreadTree, Sha256Hex, Bytes, AllHarmless, WithinLimits, TreeManifestHolds, TreeExecutableDigest, IsManifest;
  }

  /** Reading less never measures another digest. */
  lemma UnreadDigest(tools: Tools, tree: Tree, error: Str)
    ensures TreeExecutableDigest(tools, UnreadTree(tree, error)) in {None, TreeExecutableDigest(tools, tree)}
  {
    UnreadWalk(tree, error, |tree.walk|);
    assert tree.walk[..|tree.walk|] == tree.walk;
    assert UnreadTree(tree, error).walk[..|tree.walk|] == UnreadTree(tree, error).walk;
    hide Files, Bytes, IsExecutable, IsManifest, Sha256Hex;
  }

  // Such images exist: one file of each kind, both empty, under a constant hash.

  ghost function Zeros(n: nat): seq<byte> {
    seq(n, (_: nat) => 0)
  }

  ghost function AnyPolicy(): (policy: Policy) {
    Policy(Bytes(POLICY_SCHEMA), 1, 16, 64, [0], None, None, [[0]], [[0]])
  }

  ghost const SOME_DIGEST: Str := Hex.Encode(Zeros(32))

  ghost function SampleRecord(): ReleaseAuthority.Record {
    ReleaseAuthority.Record(
      Bytes(ReleaseAuthority.SCHEMA), 1, Bytes(ReleaseAuthority.PREVIEW_TIER), [], [], SOME_DIGEST, SOME_DIGEST,
      SOME_DIGEST, SOME_DIGEST, [], Timestamp.EpochToIso8601(0), SOME_DIGEST, Hex.Encode(Zeros(64)))
  }

  /** The manifest of the artifact with this file name. */
  ghost function SampleManifest(name: Str): ArtifactManifest {
    ArtifactManifest(Some(Bytes(ARTIFACT_MANIFEST_SCHEMA)), Some(name), Some(SOME_DIGEST), Some(SOME_DIGEST), Some(SOME_DIGEST))
  }

  ghost function SampleProvenance(): Provenance {
    Provenance(Some(Bytes(PROVENANCE_SCHEMA)), Some(true), [], Some(SOME_DIGEST), Some(Bytes("ambient_build_env")))
  }

  ghost function SampleTools(): Tools {
    Tools((_: seq<byte>) => Zeros(32),
          (_: seq<byte>) => true,
          (_: seq<byte>) => Ok(PackageManifest(Some([0]), None, None, None, None)),
          (name: seq<byte>) => Ok(SampleManifest(name)),
          (_: seq<byte>) => Ok(SampleProvenance()),
          (_: seq<byte>) => Ok(SampleRecord()),
          Readiness.Crypto((_: seq<byte>) => Zeros(32), (_: seq<byte>) => true,
                           (_: seq<byte>, _: seq<byte>, _: seq<byte>) => true),
          (_: ReleaseAuthority.Statement) => [])
  }

  /** A mounted image of an executable and a manifest. */
  ghost function SampleTree(): Tree {
    Tree([Visited(Entry(false, Regular, [], Bytes(EXECUTABLE), Some(0), Ok([]), Ok([]))),
          Visited(Entry(false, Regular, Bytes(MANIFEST_NAME), [], Some(0), Ok([]), Ok([])))],
         true, Bytes("CFBundleIdentifier") + Bytes("CFBundleDocumentTypes") + Bytes("UTTypeConformsTo"), false, false)
  }

  ghost function SampleInspector(): Inspector {
    Inspector(AnyPolicy(), {}, Some(Zeros(32)), SampleTools())
  }

  ghost function SampleImage(): Artifact {
    File(0, Ok([]), Ok([]), None, Some(Bytes("dmg")), Err([]), Mounted(SampleTree()))
  }

  ghost function SampleSurroundings(name: Str): Surroundings {
    Surroundings(name, Content(name), Content([]), Content([]), [None, None, None])
  }

  lemma EmptyIsClean()
    ensures IsClean(AnyPolicy(), [])
  {
    assert !Occurs([], [0]);
    var words := Words([]);
    assert forall k :: 0 <= k < |words| ==> words[k].hi <= 0;
  }

  lemma ZerosAreDigest()
    ensures IsSha256(SOME_DIGEST)
    ensures Hex.Decode(SOME_DIGEST) == Some(Zeros(32))
    ensures Hex.Decode(Hex.Encode(Zeros(64))) == Some(Zeros(64))
  {
    Hex.DecodeEncode(Zeros(32));
    Hex.DecodeEncode(Zeros(64));
  }

  lemma SampleIsVerified()
    ensures ReleaseAuthority.Verify(SampleRecord(), Zeros(32), SampleTools().crypto, SampleTools().toJson).Ok?
  {
    ZerosAreDigest();
    hide Hex.Decode, Hex.Encode, Bytes, Timestamp.EpochToIso8601;
  }

  lemma SamplePlist()
    ensures IsInfoPlist(SampleTools(), SampleTree().infoPlist)
  {
    hide Bytes, SampleManifest, SampleProvenance, SampleRecord;
    var (a, b, c) := (Bytes("CFBundleIdentifier"), Bytes("CFBundleDocumentTypes"), Bytes("UTTypeConformsTo"));
    assert SampleTree().infoPlist == a + b + c;
    assert SampleTools().isUtf8(a + b + c);
    hide SampleTree, SampleTools;
    ContainsParts(a, b, c);
    hide Refs.Contains;
  }

  lemma ContainsParts(a: Str, b: Str, c: Str)
    ensures Refs.Contains(a + b + c, a) && Refs.Contains(a + b + c, b) && Refs.Contains(a + b + c, c)
  {
    hide Refs.Contains;
    ContainsMiddle([], a, b + c);
    ContainsMiddle(a, b, c);
    ContainsMiddle(a + b, c, []);
    assert [] + a + (b + c) == a + b + c == (a + b) + c + [];
  }

  lemma ContainsMiddle(before: Str, part: Str, after: Str)
    ensures Refs.Contains(before + part + after, part)
  {
    var s := before + part + after;
    assert s[|before|..][..|part|] == part;
    assert Refs.StartsWith(s[|before|..], part);
  }

  /** A walk over two empty files. */
  lemma PairWalk(a: Entry, b: Entry, select: Entry -> bool)
    requires a.kind == b.kind == Regular && !a.isRoot && !b.isRoot && a.size == b.size == Some(0)
    ensures var walk := [Visited(a), Visited(b)];
            && CountOf(walk) == 2 && TotalSize(walk) == 0
            && Files(walk, select) == (if select(a) then [a] else []) + (if select(b) then [b] else [])
  {
    var (one, walk) := ([Visited(a)], [Visited(a), Visited(b)]);
    assert one[..0] == [];
    assert CountOf(one) == 1 && TotalSize(one) == 0 && Files(one, select) == if select(a) then [a] else [];
    assert walk[..1] == one;
  }

  lemma SampleNames()
    ensures Bytes(MANIFEST_NAME) != [] && Bytes(EXECUTABLE) != [] && Bytes(LINUX_EXECUTABLE) != []
  {
    assert |MANIFEST_NAME| > 0 && |EXECUTABLE| > 0 && |LINUX_EXECUTABLE| > 0;
  }

  lemma SampleFiles()
    ensures var (walk, a, b) := (SampleTree().walk, SampleTree().walk[0].entry, SampleTree().walk[1].entry);
            && CountOf(walk) == 2 && TotalSize(walk) == 0
            && Files(walk, IsExecutable) == [a] && Files(walk, IsManifest) == [b] && a.reread == Ok([]) && !IsManifest(a)
  {
    SampleNames();
    hide Bytes;
    var (a, b) := (SampleTree().walk[0].entry, SampleTree().walk[1].entry);
    assert SampleTree().walk == [Visited(a), Visited(b)];
    assert IsExecutable(a) && !IsExecutable(b) && !IsManifest(a) && IsManifest(b);
    PairWalk(a, b, IsExecutable);
    PairWalk(a, b, IsManifest);
  }

  lemma SampleManifestHolds()
    ensures TreeManifestHolds(SampleInspector(), SampleTree(), SampleTree().walk[1].entry)
  {
    SamplePlist();
    hide IsInfoPlist, Bytes, SampleManifest, SampleProvenance, SampleRecord;
  }

  lemma SampleIsHarmless()
    ensures AllHarmless(AnyPolicy(), SampleTree().walk)
  {
    EmptyIsClean();
    hide IsClean, Bytes;
  }

  lemma SampleTreeIsAcceptable()
    ensures TreeIsAcceptable(SampleInspector(), Package, SampleTree())
  {
    SampleFiles();
    SampleIsHarmless();
    SampleManifestHolds();
    hide Bytes, Files, CountOf, TotalSize, AllHarmless, TreeManifestHolds, SampleTree, SampleTools;
  }

  lemma SampleExecutable()
    ensures TreeExecutableDigest(SampleTools(), SampleTree()) == Some(SOME_DIGEST)
    ensures Files(SampleTree().walk, IsExecutable) != [] && !IsManifest(Files(SampleTree().walk, IsExecutable)[0])
  {
    SampleFiles();
    SampleDigest();
    hide Bytes, Files, SampleTree, SampleTools, Sha256Hex, IsManifest, IsExecutable;
  }

  lemma SampleDigest()
    ensures Sha256Hex(SampleTools(), []) == SOME_DIGEST
    ensures forall name :: SampleTools().artifactManifest(name) == Ok(SampleManifest(name))
    ensures SampleTools().provenance([]) == Ok(SampleProvenance())
    ensures SampleTools().authorization([]) == Ok(SampleRecord())
  {
    hide Hex.Encode, SampleManifest, SampleProvenance, SampleRecord;
  }

  lemma SampleContentIsAcceptable()
    ensures ContentIsAcceptable(SampleInspector(), Package, SampleImage())
  {
    SampleTreeIsAcceptable();
    SampleFormat();
    hide TreeIsAcceptable, Sha256Hex, Bytes, SampleTree, SampleTools, FormatOf, ZipIsAcceptable, IsClean, Limited;
  }

  lemma SampleIsMeasured()
    ensures MeasuredExecutable(SampleInspector(), Package, SampleImage()) == Some(SOME_DIGEST)
    ensures ArtifactDigest(SampleTools(), SampleImage()) == Some(SOME_DIGEST)
  {
    SampleExecutable();
    SampleDigest();
    SampleFormat();
    hide TreeIsAcceptable, TreeExecutableDigest, Sha256Hex, Bytes, SampleTree, SampleTools, FormatOf, ZipExecutableDigest,
      Hex.Encode;
  }

  lemma SampleFormat()
    ensures FormatOf(Package, SampleImage()) == Image
  {
    hide SampleTree;
    var dmg := Bytes("dmg");
    assert Refs.ToLower(dmg) == dmg;
  }

  lemma SampleManifestBinds(name: Str)
    ensures BoundManifest(SampleTools(), name, Content(name), Some(SOME_DIGEST)) == Some(SampleManifest(name))
    ensures BuildInput(Some(SampleManifest(name))) == PackagedExecutable(Some(SampleManifest(name))) == Some(SOME_DIGEST)
  {
    SampleDigest();
    ZerosAreDigest();
    hide SampleTools, IsSha256, Hex.Encode, Bytes;
  }

  lemma SampleProvenanceBinds()
    ensures CleanProvenance(SampleTools(), Content([])) == Some(SampleProvenance())
    ensures ProvenanceDigest(SampleTools(), Content([])) == Some(SOME_DIGEST)
    ensures !ProvenanceBlocks(Some(SampleProvenance()), Some(SOME_DIGEST))
  {
    SampleDigest();
    ZerosAreDigest();
    hide SampleTools, IsSha256, Hex.Encode, Bytes, Sha256Hex;
  }

  lemma SampleEvidenceAgrees(artifact: Artifact, name: Str)
    requires MeasuredExecutable(SampleInspector(), Package, artifact) == Some(SOME_DIGEST)
    requires ArtifactDigest(SampleTools(), artifact) == Some(SOME_DIGEST)
    ensures EvidenceAgrees(SampleInspector(), Package, artifact, SampleSurroundings(name))
  {
    SampleManifestBinds(name);
    SampleProvenanceBinds();
    hide ArtifactDigest, MeasuredExecutable, Sha256Hex, Bytes, SampleTools, IsSha256, Hex.Encode,
      BoundManifest, CleanProvenance, ProvenanceBlocks, BuildInput, PackagedExecutable, SampleManifest, SampleProvenance;
  }

  lemma SampleIsAuthorized()
    ensures IsAuthorized(SampleInspector(), Content([]), 0, Some(SOME_DIGEST), Some(SOME_DIGEST))
  {
    SampleDigest();
    SampleIsVerified();
    Timestamp.PrintThenParse(0);
    hide SampleTools, ReleaseAuthority.Verify, Timestamp.EpochToIso8601, Timestamp.Iso8601ToUnix, Hex.Encode, Bytes;
  }

  lemma SampleIsPreviewAuthorized(artifact: Artifact, name: Str)
    requires ContentIsAcceptable(SampleInspector(), Package, artifact)
    requires MeasuredExecutable(SampleInspector(), Package, artifact) == Some(SOME_DIGEST)
    requires ArtifactDigest(SampleTools(), artifact) == Some(SOME_DIGEST)
    ensures IsPreviewAuthorized(SampleInspector(), Package, artifact, SampleSurroundings(name), 0)
  {
    hide ContentIsAcceptable, EvidenceAgrees, ArtifactDigest, MeasuredExecutable, IsAuthorized, ProvenanceDigest,
      SampleTools, IsClean, Bytes;
    SampleProvenanceBinds();
    SampleEvidenceAgrees(artifact, name);
    SampleIsAuthorized();
  }

  lemma SamplePolicyIsValid()
    ensures IsValid(AnyPolicy())
  {
    assert 0 in AnyPolicy().expectedLicense && !IsAsciiWhitespace(0);
  }

  /** Under a valid policy there is a disk image that is preview-authorized although its executable was
      never measured: the failed read raises no finding, so the manifest's claim is not compared. */
  lemma PreviewWithoutMeasuredExecutable()
    ensures exists inspector: Inspector, artifact, around, now ::
              && IsValid(inspector.policy)
              && IsPreviewAuthorized(inspector, Package, artifact, around, now)
              && MeasuredExecutable(inspector, Package, artifact) == None
  {
    SamplePolicyIsValid();
    SampleFormat();
    SampleContentIsAcceptable();
    SampleIsMeasured();
    SampleIsPreviewAuthorized(SampleImage(), Bytes("Rutile.dmg"));
    SampleExecutable();
    PreviewDoesNotNeedExecutable(SampleInspector(), SampleImage(), SampleSurroundings(Bytes("Rutile.dmg")), 0, []);
    var unmeasured := Unmeasured(SampleImage(), []);
    assert IsPreviewAuthorized(SampleInspector(), Package, unmeasured, SampleSurroundings(Bytes("Rutile.dmg")), 0)
        && MeasuredExecutable(SampleInspector(), Package, unmeasured) == None by {
      hide IsPreviewAuthorized, MeasuredExecutable, IsManifest, Files, SampleTree, SampleTools, FormatOf, Bytes;
    }
    hide IsPreviewAuthorized, MeasuredExecutable, IsValid, SampleTools, SampleTree, Bytes;
  }

  // ----- A preview with an unseen link ------------------------------------------------------------------

  ghost const TOP: Str := Bytes("Rutile.app/")

  /** A file of the bundle in an archive. */
  ghost function SampleFile(path: string, content: seq<byte>): ZipEntry {
    Member(TOP + Bytes(path), false, false, 0, Ok(content))
  }

  ghost function SampleInfo(): seq<byte> {
    SampleTree().infoPlist
  }

  ghost function SampleEntries(): seq<ZipEntry> {
    [SampleFile(EXECUTABLE, []), SampleFile(ZIP_MANIFEST, []), SampleFile(ZIP_INFO_PLIST, SampleInfo())]
  }

  ghost function SampleArchive(): Artifact {
    File(0, Ok([]), Ok([]), Some([0x50, 0x4B, 0x03, 0x04]), Some(Bytes("zip")), Ok(SampleEntries()), NotOnThisPlatform)
  }

  /** A link with a directory's name, and a forbidden byte behind it. */
  ghost function SampleLink(): ZipEntry {
    Member(TOP + Bytes("link/"), true, true, 0, Ok([0]))
  }

  lemma SampleTop(path: string)
    ensures TopOf(TOP + Bytes(path)) == Some(TOP) && Relative(TOP + Bytes(path), Some(TOP)) == Bytes(path)
  {
    var name := TOP + Bytes(path);
    assert |TOP| == 11 && TOP[10] == Refs.SLASH && forall k :: 0 <= k < 10 ==> TOP[k] != Refs.SLASH;
    assert name[..11] == TOP && name[11..] == Bytes(path);
    hide Bytes;
    var end := Refs.NextSeparator(name, 0, |name|, Refs.IsSlash);
    assert Refs.IsSlash(name[10]);
    assert end == 10;
    assert name[..10] + [Refs.SLASH] == TOP;
  }

  /** One more file of the bundle. */
  lemma SampleMore(entries: seq<ZipEntry>, path: string, content: seq<byte>)
    requires entries == [] || TopPrefix(entries) == Some(TOP)
    ensures var more := entries + [SampleFile(path, content)];
            && TopPrefix(more) == Some(TOP)
            && FileCount(more) == FileCount(entries) + 1 && TotalBytes(more) == TotalBytes(entries) + |content|
            && forall at :: FilesAt(more, at) == FilesAt(entries, at) + if Bytes(path) == Bytes(at) then [content] else []
  {
    SampleTop(path);
    hide Bytes, TopOf, Relative;
    assert (entries + [SampleFile(path, content)])[..|entries|] == entries;
  }

  lemma SamplePaths()
    ensures Bytes(EXECUTABLE) != Bytes(ZIP_MANIFEST) && Bytes(EXECUTABLE) != Bytes(ZIP_INFO_PLIST)
    ensures Bytes(ZIP_MANIFEST) != Bytes(ZIP_INFO_PLIST)
  {
    assert |EXECUTABLE| == 21 && |ZIP_MANIFEST| == 43 && |ZIP_INFO_PLIST| == 19;
  }

  lemma SampleContents()
    ensures var entries := SampleEntries();
            && FilesAt(entries, EXECUTABLE) == [[]] && FilesAt(entries, ZIP_MANIFEST) == [[]]
            && FilesAt(entries, ZIP_INFO_PLIST) == [SampleInfo()]
            && FileCount(entries) == 3 && FileCount(entries[..2]) == 2 && TotalBytes(entries) == |SampleInfo()|
  {
    SamplePaths();
    hide Bytes, SampleInfo, SampleFile, TopPrefix, TotalBytes, FileCount, FilesAt;
    var (a, b, c) := (SampleFile(EXECUTABLE, []), SampleFile(ZIP_MANIFEST, []), SampleFile(ZIP_INFO_PLIST, SampleInfo()));
    SampleNone();
    assert [] + [a] == [a] && [a] + [b] == [a, b] && [a, b] + [c] == SampleEntries() && SampleEntries()[..2] == [a, b];
    SampleMore([], EXECUTABLE, []);
    SampleMore([a], ZIP_MANIFEST, []);
    SampleMore([a, b], ZIP_INFO_PLIST, SampleInfo());
  }

  lemma SampleNone()
    ensures FileCount([]) == TotalBytes([]) == 0 && forall at :: FilesAt([], at) == []
  {
  }

  /** Without any of these bytes nothing is found. */
  predicate IsPlain(bytes: seq<byte>) {
    forall k :: 0 <= k < |bytes| ==> bytes[k] !in {0, AT, '_' as int, '-' as int, 'K' as int}
  }

  lemma NoToken(bytes: seq<byte>, prefix: string, minimum: nat, i: nat)
    requires IsPlain(bytes) && i < |prefix| && Bytes(prefix)[i] in {'_' as int, '-' as int, 'K' as int}
    ensures !HasTokenShape(bytes, Bytes(prefix), minimum)
  {
    var p := Bytes(prefix);
    hide Bytes;
    forall start | 0 <= start <= |bytes| ensures !Refs.StartsWith(bytes[start..], p) {
      if start + |p| <= |bytes| {
        assert bytes[start..][..|p|][i] == bytes[start + i];
      }
    }
  }

  lemma PlainIsClean(bytes: seq<byte>)
    requires IsPlain(bytes)
    ensures IsClean(AnyPolicy(), bytes)
  {
    assert Bytes("ghp_")[3] == '_' as int && Bytes("github_pat_")[6] == '_' as int;
    assert Bytes("sk-")[2] == '-' as int && Bytes("AKIA")[1] == 'K' as int;
    NoToken(bytes, "ghp_", 24, 3);
    NoToken(bytes, "github_pat_", 28, 6);
    NoToken(bytes, "sk-", 24, 2);
    NoToken(bytes, "AKIA", 16, 1);
    PlainHasNoAddress(bytes);
    hide Bytes, HasTokenShape, HasAddress;
    PlainHasNoZero(bytes);
  }

  lemma PlainHasNoAddress(bytes: seq<byte>)
    requires IsPlain(bytes)
    ensures !HasAddress(bytes)
  {
    AddressIsPositional(bytes);
    hide HasAddress;
    forall lo, at, hi ensures !AddressAt(bytes, lo, at, hi) {
    }
  }

  lemma PlainHasNoZero(bytes: seq<byte>)
    requires IsPlain(bytes)
    ensures !Occurs(bytes, [0])
  {
    forall i | 0 <= i <= |bytes| ensures !Refs.StartsWith(bytes[i..], [0]) {
      if i < |bytes| {
        assert bytes[i..][..1][0] == bytes[i];
      }
    }
  }

  lemma IdentifierIsPlain()
    ensures IsPlain(Bytes("CFBundleIdentifier")) && |Bytes("CFBundleIdentifier")| == 18
  {
    assert Bytes("CFBundleIdentifier") == [67, 70, 66, 117, 110, 100, 108, 101, 73, 100, 101, 110, 116, 105, 102, 105, 101, 114];
    hide Bytes;
  }

  lemma TypesArePlain()
    ensures IsPlain(Bytes("CFBundleDocumentTypes")) && |Bytes("CFBundleDocumentTypes")| == 21
  {
    assert Bytes("CFBundleDocumentTypes")
        == [67, 70, 66, 117, 110, 100, 108, 101, 68, 111, 99, 117, 109, 101, 110, 116, 84, 121, 112, 101, 115];
    hide Bytes;
  }

  lemma ConformsIsPlain()
    ensures IsPlain(Bytes("UTTypeConformsTo")) && |Bytes("UTTypeConformsTo")| == 16
  {
    assert Bytes("UTTypeConformsTo") == [85, 84, 84, 121, 112, 101, 67, 111, 110, 102, 111, 114, 109, 115, 84, 111];
    hide Bytes;
  }

  lemma SampleInfoIsPlain()
    ensures IsPlain(SampleInfo()) && |SampleInfo()| == 55
  {
    IdentifierIsPlain();
    TypesArePlain();
    ConformsIsPlain();
    hide Bytes;
  }

  lemma SampleEntriesAreHarmless()
    ensures EntriesAreHarmless(AnyPolicy(), SampleEntries())
  {
    SampleInfoIsPlain();
    PlainIsClean(SampleInfo());
    EmptyIsClean();
    hide Bytes, IsClean, IsPlain, SampleInfo;
  }

  lemma SampleArchiveIsPackage()
    ensures ZipIsPackage(SampleInspector(), SampleEntries())
  {
    hide Bytes, FilesAt, FileCount, TotalBytes, SampleEntries, SampleTools, ManifestHolds, IsInfoPlist, SampleTree, AnyPolicy;
    SampleContents();
    SamplePlist();
    SampleManifestIsMatched();
    assert SampleInspector().tools == SampleTools();
  }

  lemma SampleArchiveDigest()
    ensures ZipExecutableDigest(SampleTools(), SampleEntries()) == Some(SOME_DIGEST)
  {
    hide Bytes, FilesAt, FileCount, TotalBytes, SampleEntries, SampleTools, SampleTree, Sha256Hex, SampleManifest, SampleRecord,
      SampleProvenance;
    SampleContents();
    SampleDigest();
  }

  lemma SampleManifestIsMatched()
    ensures ManifestHolds(SampleInspector(), [])
  {
    hide Bytes, SampleManifest, SampleProvenance, SampleRecord;
  }

  lemma SampleArchiveIsAcceptable()
    ensures ZipIsAcceptable(SampleInspector(), Package, SampleEntries())
  {
    SampleContents();
    SampleInfoIsPlain();
    SampleEntriesAreHarmless();
    SampleArchiveIsPackage();
    hide Bytes, FilesAt, FileCount, TotalBytes, EntriesAreHarmless, ZipIsPackage, IsPlain, SampleInfo, SampleFile, SampleTools;
  }

  /** Under a valid policy there is an archive that is accepted, and even preview-authorized, with a link and
      a forbidden pattern in it: the entry has a directory's name. */
  lemma PreviewWithUnseenLink()
    ensures exists inspector: Inspector, artifact, around, now, k ::
              && IsValid(inspector.policy)
              && IsAccepted(inspector, Package, artifact, around)
              && IsPreviewAuthorized(inspector, Package, artifact, around, now)
              && IsLinkWithLeak(inspector.policy, artifact, k)
  {
    hide IsValid, SampleTools, Bytes, SampleArchive, IsLinkWithLeak, EvidenceAgrees, ContentIsAcceptable, IsAuthorized,
      SiblingsAreClean, MeasuredExecutable, ArtifactDigest, FormatOf, WithEntry, SampleSurroundings, SampleLink;
    SamplePolicyIsValid();
    SampleArchiveIsMeasured();
    SampleHasEntries();
    var (archive, around) := (SampleArchive(), SampleSurroundings(Bytes("Rutile.app.zip")));
    SampleIsPreviewAuthorized(archive, Bytes("Rutile.app.zip"));
    VerdictIgnoresDirectories(SampleInspector(), archive, around, 0, 0, SampleLink());
    SampleLinkLeaks();
    var more := WithEntry(archive, 0, SampleLink());
    assert IsPreviewAuthorized(SampleInspector(), Package, more, around, 0);
  }

  lemma SampleHasEntries()
    ensures SampleArchive().File? && SampleArchive().zip.Ok? && SampleArchive().zip.value != []
    ensures SampleLink().Member? && SampleLink().isDir
  {
  }

  lemma SampleLinkLeaks()
    ensures IsLinkWithLeak(AnyPolicy(), WithEntry(SampleArchive(), 0, SampleLink()), 0)
  {
    ZeroIsForbidden();
    hide Bytes, SampleFile, SampleInfo;
    assert WithEntry(SampleArchive(), 0, SampleLink()).zip.value[0] == SampleLink();
  }

  /** Entry `k` of the archive is a link behind which a forbidden pattern stands. */
  predicate IsLinkWithLeak(policy: Policy, artifact: Artifact, k: nat) {
    && artifact.File? && artifact.zip.Ok? && k < |artifact.zip.value|
    && var entry := artifact.zip.value[k];
    && entry.Member? && entry.isSymlink && entry.content.Ok?
    && exists pattern :: pattern in policy.forbiddenPatterns && Occurs(entry.content.value, pattern)
  }

  lemma ZeroIsForbidden()
    ensures [0] in AnyPolicy().forbiddenPatterns && Occurs([0], [0])
  {
    assert Refs.StartsWith([0][0..], [0]);
  }

  lemma SampleArchiveFormat()
    ensures FormatOf(Package, SampleArchive()) == Zipped
  {
    hide Bytes, SampleEntries;
  }

  lemma SampleArchiveIsMeasured()
    ensures FormatOf(Package, SampleArchive()) == Zipped
    ensures ContentIsAcceptable(SampleInspector(), Package, SampleArchive())
    ensures MeasuredExecutable(SampleInspector(), Package, SampleArchive()) == Some(SOME_DIGEST)
    ensures ArtifactDigest(SampleTools(), SampleArchive()) == Some(SOME_DIGEST)
  {
    hide Bytes, SampleEntries, SampleTools, ZipIsAcceptable, ZipExecutableDigest, TreeIsAcceptable, Sha256Hex, IsClean,
      FormatOf, TreeExecutableDigest, SampleManifest, SampleRecord, SampleProvenance, Limited;
    SampleArchiveFormat();
    SampleArchiveIsAcceptable();
    SampleArchiveDigest();
    SampleDigest();
  }
}

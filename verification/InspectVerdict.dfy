/** The inspector's evidence binding and its verdict: `inspect`, `bind_artifact_manifest`,
    `bind_provenance`, `verify_packaged_executable_binding` and `verify_preview_authorization`
    in `xtask/src/artifact_inspector.rs`. */
module InspectVerdict {
  import opened Prelude
  import opened ScanPolicy
  import opened Inspector
  import opened ZipReader
  import Refs
  import ReleaseAuthority
  import Timestamp

  // ----- The sibling artifact manifest ---------------------------------------------------------

  /** It is an artifact manifest, and names this very artifact. */
  predicate Identifies(manifest: ArtifactManifest, fileName: Str, artifactSha256: Option<Str>) {
    && manifest.schema == Some(Bytes(ARTIFACT_MANIFEST_SCHEMA))
    && OrEmpty(manifest.artifact) == fileName
    && (artifactSha256.Some? ==>
          IsSha256(OrEmpty(manifest.artifactSha256)) && OrEmpty(manifest.artifactSha256) == artifactSha256.value)
  }

  function BoundManifest(tools: Tools, fileName: Str, sibling: Sibling, artifactSha256: Option<Str>): Option<ArtifactManifest> {
    if sibling.Content? && tools.artifactManifest(sibling.bytes).Ok?
       && Identifies(tools.artifactManifest(sibling.bytes).value, fileName, artifactSha256)
    then Some(tools.artifactManifest(sibling.bytes).value)
    else None
  }

  function IfSha256(text: Option<Str>): Option<Str> {
    if IsSha256(OrEmpty(text)) then Some(OrEmpty(text)) else None
  }

  function BuildInput(manifest: Option<ArtifactManifest>): Option<Str> {
    if manifest.Some? then IfSha256(manifest.value.buildInputSha256) else None
  }

  function PackagedExecutable(manifest: Option<ArtifactManifest>): Option<Str> {
    if manifest.Some? then IfSha256(manifest.value.packagedExecutableSha256) else None
  }

  // The subjects of the four refusals below.
  function NotARecord(): Str { Bytes("sibling manifest is not a rutile-local-artifact-v1 record") }
  function OtherName(): Str { Bytes("sibling manifest artifact != inspected artifact filename") }
  function NoDigest(): Str { Bytes("sibling manifest artifact_sha256 missing or malformed") }
  function OtherDigest(): Str { Bytes("sibling manifest artifact_sha256 != inspected artifact sha256") }

  /** The early returns of `bind_artifact_manifest` about the manifest's claims. */
  method CheckIdentity(manifest: ArtifactManifest, fileName: Str, report: Report) returns (ok: bool)
    requires report.Valid()
    modifies report`findings
    ensures report.Valid() && old(report.findings) <= report.findings
    ensures ok <==> Identifies(manifest, fileName, report.artifactSha256)
    ensures Blocked(report.findings) <==> Blocked(old(report.findings)) || !ok
  {
    hide Blocked, Has, Bytes, IsSha256, NotARecord, OtherName, NoDigest, OtherDigest;
    ok := false;
    if manifest.schema != Some(Bytes(ARTIFACT_MANIFEST_SCHEMA)) {
      report.Push(ArtifactManifestMalformed, NotARecord());
    } else if OrEmpty(manifest.artifact) != fileName {
      report.Push(ArtifactManifestArtifactMismatch, OtherName());
    } else if report.artifactSha256.Some? && !IsSha256(OrEmpty(manifest.artifactSha256)) {
      report.Push(ArtifactManifestMalformed, NoDigest());
    } else if report.artifactSha256.Some? && OrEmpty(manifest.artifactSha256) != report.artifactSha256.value {
      report.Push(ArtifactManifestArtifactHashMismatch, OtherDigest());
    } else {
      ok := true;
    }
  }

  /** The end of `bind_artifact_manifest`: the two hashes the binding chain starts from. */
  method SourceManifestHashes(manifest: ArtifactManifest, report: Report)
    requires report.Valid()
    requires report.manifestBuildInputSha256 == None && report.manifestPackagedExecutableSha256 == None
    modifies report`findings, report`manifestBuildInputSha256, report`manifestPackagedExecutableSha256
    ensures report.Valid() && old(report.findings) <= report.findings
    ensures report.manifestBuildInputSha256 == BuildInput(Some(manifest))
    ensures report.manifestPackagedExecutableSha256 == PackagedExecutable(Some(manifest))
    ensures Blocked(report.findings) <==>
              Blocked(old(report.findings)) || BuildInput(Some(manifest)).None? || PackagedExecutable(Some(manifest)).None?
  {
    hide Blocked, Has, Bytes;
    var subject := Bytes("sibling artifact manifest");
    var (buildInput, packaged) := (OrEmpty(manifest.buildInputSha256), OrEmpty(manifest.packagedExecutableSha256));
    if buildInput == [] {
      report.Push(BuildInputHashMissing, subject);
    } else if !IsSha256(buildInput) {
      report.Push(BuildInputHashMalformed, subject);
    } else {
      report.manifestBuildInputSha256 := Some(buildInput);
    }
    if packaged == [] {
      report.Push(PackagedExecutableHashMissing, subject);
    } else if !IsSha256(packaged) {
      report.Push(PackagedExecutableHashMalformed, subject);
    } else {
      report.manifestPackagedExecutableSha256 := Some(packaged);
    }
  }

  /** `bind_artifact_manifest`. */
  method BindArtifactManifest(tools: Tools, fileName: Str, sibling: Sibling, report: Report)
    requires report.Valid()
    requires report.manifestBuildInputSha256 == None && report.manifestPackagedExecutableSha256 == None
    modifies report`findings, report`manifestBuildInputSha256, report`manifestPackagedExecutableSha256
    ensures report.Valid() && old(report.findings) <= report.findings
    ensures var manifest := BoundManifest(tools, fileName, sibling, report.artifactSha256);
            && report.manifestBuildInputSha256 == BuildInput(manifest)
            && report.manifestPackagedExecutableSha256 == PackagedExecutable(manifest)
            && (Blocked(report.findings) <==>
                  Blocked(old(report.findings)) || BuildInput(manifest).None? || PackagedExecutable(manifest).None?)
  {
    hide Blocked, Has, Bytes, IsSha256, Identifies;
    match sibling
    case NoFile => report.Push(ArtifactManifestMissing, Bytes("no sibling artifact manifest"));
    case ReadError(message) => report.Push(ArtifactManifestMalformed, message);
    case Content(bytes) =>
      var parsed := tools.artifactManifest(bytes);
      if parsed.Err? {
        report.Push(ArtifactManifestMalformed, parsed.error);
      } else {
        var ok := CheckIdentity(parsed.value, fileName, report);
        if ok {
          SourceManifestHashes(parsed.value, report);
        }
      }
  }

  // ----- Provenance ------------------------------------------------------------------------------

  predicate AttestsCleanBuild(provenance: Provenance) {
    && provenance.schema == Some(Bytes(PROVENANCE_SCHEMA))
    && provenance.sourceTreeClean == Some(true)
    && Bytes("test-control") !in provenance.features
  }

  predicate HasKnownOrigin(provenance: Provenance) {
    provenance.controlsOrigin == Some(Bytes("ambient_build_env"))
    || provenance.controlsOrigin == Some(Bytes("operator_re_derivation"))
  }

  /** The provenance record, when it is one for a clean build. */
  function CleanProvenance(tools: Tools, sibling: Sibling): Option<Provenance> {
    if sibling.Content? && tools.provenance(sibling.bytes).Ok? && AttestsCleanBuild(tools.provenance(sibling.bytes).value)
    then Some(tools.provenance(sibling.bytes).value)
    else None
  }

  predicate IsSound(provenance: Option<Provenance>) {
    && provenance.Some?
    && IsSha256(OrEmpty(provenance.value.candidateSha256))
    && HasKnownOrigin(provenance.value)
  }

  /** Missing and invalid records are only recorded; a bad or foreign candidate hash blocks. */
  predicate ProvenanceBlocks(provenance: Option<Provenance>, buildInput: Option<Str>) {
    && provenance.Some?
    && var candidate := OrEmpty(provenance.value.candidateSha256);
    || !IsSha256(candidate)
    || (IsSound(provenance) && buildInput.Some? && buildInput.value != candidate)
  }

  function ProvenanceDigest(tools: Tools, sibling: Sibling): Option<Str> {
    if IsSound(CleanProvenance(tools, sibling)) then Some(Sha256Hex(tools, sibling.bytes)) else None
  }

  /** `bind_provenance`. */
  method BindProvenance(tools: Tools, sibling: Sibling, report: Report)
    requires report.Valid() && report.productionProvenanceSha256 == None
    modifies report`findings, report`productionProvenanceSha256
    ensures report.Valid() && old(report.findings) <= report.findings
    ensures report.productionProvenanceSha256 == ProvenanceDigest(tools, sibling)
    ensures Blocked(report.findings) <==>
              || Blocked(old(report.findings))
              || ProvenanceBlocks(CleanProvenance(tools, sibling), report.manifestBuildInputSha256)
  {
    hide Blocked, Has, Bytes, IsSha256;
    match sibling {
      case NoFile =>
        report.Push(ProvenanceMissing, Bytes("no provenance file"));
        return;
      case ReadError(message) =>
        report.Push(ProvenanceInvalid, Bytes("cannot read provenance: ") + message);
        return;
      case Content(_) =>
    }
    var parsed := tools.provenance(sibling.bytes);
    if parsed.Err? {
      report.Push(ProvenanceInvalid, Bytes("provenance is not valid JSON: ") + parsed.error);
      return;
    }
    var provenance := parsed.value;
    if provenance.schema != Some(Bytes(PROVENANCE_SCHEMA)) {
      report.Push(ProvenanceInvalid, Bytes("provenance is not a rutile.production-provenance.v1 record"));
      return;
    }
    if provenance.sourceTreeClean != Some(true) {
      report.Push(ProvenanceInvalid, Bytes("provenance does not attest a clean source tree"));
      return;
    }
    if Bytes("test-control") in provenance.features {
      report.Push(ProvenanceInvalid, Bytes("provenance records the test-control feature"));
      return;
    }
    BindCandidate(tools, sibling.bytes, provenance, report);
  }

  /** The end of `bind_provenance`: the first link of the binding chain. */
  method BindCandidate(tools: Tools, bytes: seq<byte>, provenance: Provenance, report: Report)
    requires report.Valid() && report.productionProvenanceSha256 == None
    modifies report`findings, report`productionProvenanceSha256
    ensures report.Valid() && old(report.findings) <= report.findings
    ensures report.productionProvenanceSha256 == if IsSound(Some(provenance)) then Some(Sha256Hex(tools, bytes)) else None
    ensures Blocked(report.findings) <==>
              Blocked(old(report.findings)) || ProvenanceBlocks(Some(provenance), report.manifestBuildInputSha256)
  {
    hide Blocked, Has, Bytes, IsSha256;
    var candidate := OrEmpty(provenance.candidateSha256);
    if !IsSha256(candidate) {
      report.Push(ProvenanceCandidateHashMalformed, Bytes("provenance candidate_sha256"));
      return;
    }
    if !HasKnownOrigin(provenance) {
      report.Push(ProvenanceInvalid, Bytes("provenance reproducibility.controls_origin must be enumerated"));
      return;
    }
    if report.manifestBuildInputSha256.Some? && report.manifestBuildInputSha256.value != candidate {
      report.Push(ProvenanceCandidateMismatch, Bytes("provenance candidate_sha256 != manifest build_input_sha256"));
    }
    report.productionProvenanceSha256 := Some(Sha256Hex(tools, bytes));
  }

  // ----- The packaged executable ------------------------------------------------------------------

  /** The second link holds, or one of its ends is absent. */
  predicate ExecutableAgrees(claimed: Option<Str>, measured: Option<Str>) {
    claimed.Some? && measured.Some? ==> claimed == measured
  }

  /** `verify_packaged_executable_binding`. */
  method VerifyPackagedExecutableBinding(report: Report)
    requires report.Valid()
    modifies report`findings
    ensures report.Valid() && old(report.findings) <= report.findings
    ensures Blocked(report.findings) <==>
              || Blocked(old(report.findings))
              || !ExecutableAgrees(report.manifestPackagedExecutableSha256, report.inspectedExecutableSha256)
  {
    var (claimed, measured) := (report.manifestPackagedExecutableSha256, report.inspectedExecutableSha256);
    if claimed.Some? && measured.Some? && claimed.value != measured.value {
      report.Push(PackagedExecutableHashMismatch,
                  Bytes("inspected executable sha256 != manifest packaged_executable_sha256"));
    }
  }

  // ----- Preview authorization ---------------------------------------------------------------------

  /** A record signed by the pinned authority for this artifact and this provenance, still in force. */
  predicate IsAuthorized(
      inspector: Inspector, sibling: Sibling, now: int, artifactSha256: Option<Str>, provenanceSha256: Option<Str>) {
    && sibling.Content?
    && inspector.pinnedKey.Some?
    && inspector.tools.authorization(sibling.bytes).Ok?
    && var record := inspector.tools.authorization(sibling.bytes).value;
    && ReleaseAuthority.Verify(record, inspector.pinnedKey.value, inspector.tools.crypto, inspector.tools.toJson).Ok?
    && artifactSha256 == Some(record.artifactSha256)
    && provenanceSha256 == Some(record.provenanceSha256)
    && Timestamp.Iso8601ToUnix(record.expiresAt).Some?
    && now <= Timestamp.Iso8601ToUnix(record.expiresAt).value
  }

  /** `verify_preview_authorization`: its findings never stand against acceptance. */
  method VerifyPreviewAuthorization(inspector: Inspector, sibling: Sibling, now: int, report: Report)
    requires report.Valid()
    modifies report`findings, report`previewAuthorized
    ensures report.Valid() && old(report.findings) <= report.findings
    ensures Blocked(report.findings) == Blocked(old(report.findings))
    ensures report.previewAuthorized <==>
              || old(report.previewAuthorized)
              || IsAuthorized(inspector, sibling, now, report.artifactSha256, report.productionProvenanceSha256)
  {
    hide Blocked, Bytes, ReleaseAuthority.Verify, Timestamp.Iso8601ToUnix;
    match sibling {
      case NoFile =>
        report.Push(PreviewAuthorizationMissing, Bytes("no preview-authorization sibling"));
        return;
      case ReadError(message) =>
        report.Push(PreviewAuthorizationInvalid, message);
        return;
      case Content(_) =>
    }
    var parsed := inspector.tools.authorization(sibling.bytes);
    if parsed.Err? {
      report.Push(PreviewAuthorizationInvalid, parsed.error);
      return;
    }
    var record := parsed.value;
    if inspector.pinnedKey.None? {
      report.Push(PreviewAuthorityUntrusted, Bytes("pinned release-authority public key not provisioned"));
      return;
    }
    if ReleaseAuthority.Verify(record, inspector.pinnedKey.value, inspector.tools.crypto, inspector.tools.toJson).Err? {
      report.Push(PreviewAuthorizationInvalid, Bytes("authorization does not verify"));
      return;
    }
    if report.artifactSha256 != Some(record.artifactSha256)
       || report.productionProvenanceSha256 != Some(record.provenanceSha256) {
      report.Push(PreviewAuthorizationBindingMismatch, Bytes("artifact or provenance sha256"));
      return;
    }
    var expiry := Timestamp.Iso8601ToUnix(record.expiresAt);
    if expiry.None? || expiry.value < now {
      report.Push(PreviewAuthorizationExpired, record.expiresAt);
      return;
    }
    report.previewAuthorized := true;
  }

  // ----- The content of the artifact ------------------------------------------------------------------

  datatype Format = Opaque | Zipped | Image

  predicate IsZipMagic(magic: Option<Str>) {
    magic == Some([0x50, 0x4B, 0x03, 0x04]) || magic == Some([0x50, 0x4B, 0x05, 0x06])
  }

  /** `.dmg` in any case. */
  predicate IsDmgExtension(extension: Option<Str>) {
    extension.Some? && Refs.ToLower(extension.value) == Bytes("dmg")
  }

  function FormatOf(mode: Mode, artifact: Artifact): Format
    requires artifact.File?
  {
    if mode == Package && IsZipMagic(artifact.magic) then Zipped
    else if mode == Package && IsDmgExtension(artifact.extension) then Image
    else Opaque
  }

  function ArtifactDigest(tools: Tools, artifact: Artifact): Option<Str> {
    if artifact.File? && artifact.hashed.Ok? then Some(Sha256Hex(tools, artifact.hashed.value)) else None
  }

  /** Nothing about the artifact itself stands against acceptance. */
  predicate ContentIsAcceptable(inspector: Inspector, mode: Mode, artifact: Artifact) {
    match artifact
    case Missing(_) => false
    case NotInspectable => false
    case Bundle(tree) => TreeIsAcceptable(inspector, mode, tree)
    case File(len, hashed, scanned, _, _, zip, dmg) =>
      && len <= inspector.policy.maxUncompressedBytes
      && hashed.Ok?
      && Sha256Hex(inspector.tools, hashed.value) !in inspector.quarantine
      && match FormatOf(mode, artifact)
         case Zipped => zip.Ok? && ZipIsAcceptable(inspector, mode, zip.value)
         case Image => dmg.Mounted? && TreeIsAcceptable(inspector, mode, dmg.tree)
         case Opaque =>
           && mode == Candidate
           && |hashed.value| <= inspector.policy.maxUncompressedBytes
           && scanned.Ok?
           && IsClean(inspector.policy, Limited(scanned.value, inspector.policy.maxUncompressedBytes))
  }

  /** The digest of the executable found in the package. */
  function MeasuredExecutable(inspector: Inspector, mode: Mode, artifact: Artifact): Option<Str> {
    if mode == Candidate then None
    else
      match artifact
      case Bundle(tree) => TreeExecutableDigest(inspector.tools, tree)
      case File(_, _, _, _, _, zip, dmg) =>
        (match FormatOf(mode, artifact)
         case Zipped => if zip.Ok? then ZipExecutableDigest(inspector.tools, zip.value) else None
         case Image => if dmg.Mounted? then TreeExecutableDigest(inspector.tools, dmg.tree) else None
         case Opaque => None)
      case _ => None
  }

  /** `inspect_dmg`. */
  method InspectDmg(inspector: Inspector, mode: Mode, dmg: Dmg, report: Report)
    requires IsValid(inspector.policy)
    requires report.Valid() && report.entriesScanned == 0 && report.uncompressedBytesScanned == 0
    modifies report`findings, report`entriesScanned, report`uncompressedBytesScanned, report`inspectedExecutableSha256
    ensures report.Valid() && old(report.findings) <= report.findings
    ensures Blocked(report.findings) <==>
              Blocked(old(report.findings)) || !dmg.Mounted? || !TreeIsAcceptable(inspector, mode, dmg.tree)
    ensures dmg.Mounted? && mode == Package && TreeIsAcceptable(inspector, mode, dmg.tree)
            && old(report.inspectedExecutableSha256) == None ==>
              report.inspectedExecutableSha256 == TreeExecutableDigest(inspector.tools, dmg.tree)
  {
    hide Blocked, Bytes, TreeIsAcceptable, TreeExecutableDigest;
    match dmg
    case NotOnThisPlatform => report.Push(UnsupportedArchive, Bytes("dmg inspection requires macOS"));
    case MountFailed(message) => report.Push(ManifestMalformed, message);
    case AttachFailed => report.Push(UnsupportedArchive, Bytes("hdiutil attach failed"));
    case NoSingleApp => report.Push(ManifestMalformed, Bytes("DMG has no single top-level .app"));
    case Mounted(tree) => InspectDirectory(inspector, mode, tree, report);
  }

  /** The opaque branch: a stream scan, which never suffices for a package. */
  method InspectOpaque(inspector: Inspector, mode: Mode, len: nat, scanned: Result<seq<byte>, Str>, report: Report)
    requires IsValid(inspector.policy) && report.Valid()
    modifies report`findings, report`entriesScanned, report`uncompressedBytesScanned
    ensures report.Valid() && old(report.findings) <= report.findings
    ensures var policy := inspector.policy;
            Blocked(report.findings) <==>
              || Blocked(old(report.findings)) || mode == Package
              || len > policy.maxUncompressedBytes || scanned.Err?
              || !IsClean(policy, Limited(scanned.value, policy.maxUncompressedBytes))
  {
    hide Blocked, Bytes, IsClean, Limited;
    report.entriesScanned := 1;
    if len > inspector.policy.maxUncompressedBytes {
      report.uncompressedBytesScanned := inspector.policy.maxUncompressedBytes;
      report.Push(ByteLimitExceeded, Decimal(len));
    } else {
      report.uncompressedBytesScanned := len;
      ScanFile(inspector.policy, scanned, report);
    }
    if mode == Package {
      report.Push(UnsupportedArchive, Bytes("opaque package requires a bounded format reader"));
    }
  }

  /** The first half of `inspect`. `done` is an early return. */
  method InspectArtifact(inspector: Inspector, mode: Mode, artifact: Artifact, report: Report) returns (done: bool)
    requires IsValid(inspector.policy) && report.Valid() && report.findings == []
    requires report.entriesScanned == 0 && report.uncompressedBytesScanned == 0
    requires report.artifactSha256 == None && report.inspectedExecutableSha256 == None
    modifies report`findings, report`entriesScanned, report`uncompressedBytesScanned,
             report`artifactKind, report`artifactSha256, report`inspectedExecutableSha256
    ensures report.Valid()
    ensures done ==> Blocked(report.findings) && !ContentIsAcceptable(inspector, mode, artifact)
    ensures !done ==> (Blocked(report.findings) <==> !ContentIsAcceptable(inspector, mode, artifact))
    ensures !done ==> report.artifactSha256 == ArtifactDigest(inspector.tools, artifact)
    ensures ContentIsAcceptable(inspector, mode, artifact) ==>
              report.inspectedExecutableSha256 == MeasuredExecutable(inspector, mode, artifact)
  {
    hide Bytes, Limited, IsClean, Decimal, TreeIsAcceptable, ZipIsAcceptable, TreeExecutableDigest, ZipExecutableDigest,
      IsZipMagic, IsDmgExtension;
    assert !Blocked(report.findings);
    hide Blocked;
    match artifact
    case Missing(message) =>
      report.Push(ManifestMalformed, message);
      done := true;
    case NotInspectable =>
      report.Push(LinkRejected, Bytes("artifact root"));
      done := true;
    case Bundle(tree) =>
      report.artifactKind := DirectoryPackage;
      InspectDirectory(inspector, mode, tree, report);
      done := false;
    case File(len, hashed, scanned, magic, extension, zip, dmg) =>
      report.artifactKind := RegularFile;
      if len > inspector.policy.maxUncompressedBytes {
        report.uncompressedBytesScanned := inspector.policy.maxUncompressedBytes;
        report.Push(ByteLimitExceeded, Decimal(len));
        return true;
      }
      if hashed.Err? {
        report.Push(ManifestMalformed, hashed.error);
        return true;
      }
      var digest := Sha256Hex(inspector.tools, hashed.value);
      report.artifactSha256 := Some(digest);
      if digest in inspector.quarantine {
        report.Push(QuarantinedHash, digest);
        return true;
      }
      done := false;
      if mode == Package && IsZipMagic(magic) {
        report.artifactKind := ZipArchive;
        InspectZip(inspector, mode, zip, report);
      } else if mode == Package && IsDmgExtension(extension) {
        report.artifactKind := DmgImage;
        InspectDmg(inspector, mode, dmg, report);
      } else {
        InspectOpaque(inspector, mode, |hashed.value|, scanned, report);
      }
  }
}

/** Readiness attestation verification: `xtask/src/readiness.rs`. The main result is that
    the signed bytes fix the whole accepted claim, although neither `ready` nor the
    verifier's key is among them. */
module Readiness {
  import opened Prelude
  import opened Cbor
  import opened Refs
  import Hex

  const READINESS_ATTESTATION_SCHEMA := "rutile.readiness-attestation.v1"
  const READINESS_SCHEMA_VERSION: u64 := 1
  const READINESS_DOMAIN := "Rutile Independent Readiness Attestation\0v1\0"
  const READINESS_DISCLAIMER := "This readiness attestation asserts release-readiness only. It does not authorize publication, does not clear the release-prerequisite preflight, does not set or imply publication_authorized, and does not permit tagging, releasing, or publicly distributing the product."
  const EXPECTED_PROBE_COUNT: nat := 14
  const PROBE_IDS: seq<string> := [
    "trusted-preflight-verifier",
    "authenticated-forgejo-runner-lock",
    "apple-developer-id-certificate",
    "linux-release-gpg-fingerprint",
    "macos-arm64-runner-capability",
    "macos-arm64-clean-install",
    "linux-x86-64-x11-runner-capability",
    "linux-x86-64-x11-clean-install",
    "apple-private-key-signing",
    "apple-notarization",
    "linux-gpg-signing",
    "protected-tag-owner-approval",
    "artifact-retention-policy",
    "independent-release-authority-approval"]
  const MAX_BLOCKER_BYTES: nat := 200
  const MAX_BLOCKERS: nat := 32

  datatype Source = Source(commit: Str, tree: Str)

  datatype Probe = Probe(id: Str, state: Str, observedAt: u64, evidenceRef: Str, evidenceSha256: Str)

  datatype VerifierBinding = VerifierBinding(
    identity: Str, keyFingerprint: Str, signingPublicKeyHex: Str, independenceEvidenceRef: Str)

  datatype Authority = Authority(
    domain: Str, canonicalMessageSha256: Str, signatureHex: Str, signedAt: u64, expiresAt: u64)

  datatype Attestation = Attestation(
    schema: Str,
    version: u64,
    generatedAt: u64,
    source: Source,
    runnerLockRef: Str,
    runnerLockSha256: Str,
    probes: seq<Probe>,
    actionableBlockers: seq<Str>,
    verifier: VerifierBinding,
    authority: Authority,
    ready: bool,
    disclaimer: Str)

  datatype ReadinessError =
    | Schema | Version | Disclaimer | BadSource | SourceMismatch
    | RunnerLockHash | RunnerLockRef
    | ProbeCount | ProbeOrder | ProbeState | EvidenceRef | EvidenceHash
    | Timestamp | Blocker
    | VerifierKey | VerifierFingerprint | VerifierKeyFingerprintMismatch
    | VerifierIndependenceRef | VerifierIdentity | VerifierNotIndependent
    | TrustedVerifierMismatch | TrustedVerifierInvalid
    | AuthorityDomain | AuthorityCanonicalHash | CanonicalMessageMismatch
    | AuthoritySignature | SignatureVerification
    | FutureEvidence | ExpiredAtIssuance
    | ReadyWithBlockers | NotReadyWithoutBlockers

  datatype Assessed = Assessed(canonicalMessageSha256: seq<byte>, ready: bool, signedAt: u64, expiresAt: u64)

  /** SHA-256 and ed25519, about which nothing is assumed. */
  datatype Crypto = Crypto(
    sha256: seq<byte> -> seq<byte>,
    validKey: seq<byte> -> bool,
    verifies: (seq<byte>, seq<byte>, seq<byte>) -> bool)

  type Check = Result<(), ReadinessError>

  // ----- The canonical message -----------------------------------------------------

  function ProbeItems(probe: Probe): seq<Item> {
    [Text(probe.id), Text(probe.state), UInt(probe.observedAt), Text(probe.evidenceRef), Text(probe.evidenceSha256)]
  }

  function ProbesItems(probes: seq<Probe>): (items: seq<Item>)
    ensures |items| == 5 * |probes|
  {
    if probes == [] then [] else ProbesItems(probes[..|probes| - 1]) + ProbeItems(probes[|probes| - 1])
  }

  function BlockerItems(blockers: seq<Str>): (items: seq<Item>) {
    seq(|blockers|, i requires 0 <= i < |blockers| => Text(blockers[i]))
  }

  function PrefixItems(claim: Attestation): seq<Item> {
    [Text(claim.source.commit), Text(claim.source.tree), UInt(claim.generatedAt),
     Text(claim.runnerLockSha256), Text(claim.runnerLockRef), Array(|claim.probes|)]
  }

  function SuffixItems(claim: Attestation): seq<Item> {
    [UInt(claim.authority.signedAt), UInt(claim.authority.expiresAt),
     Text(claim.verifier.identity), Text(claim.verifier.keyFingerprint), Text(claim.verifier.independenceEvidenceRef)]
  }

  /** The fields the authority signs, in order. */
  function SignedItems(claim: Attestation): seq<Item> {
    PrefixItems(claim) + ProbesItems(claim.probes)
    + [Array(|claim.actionableBlockers|)] + BlockerItems(claim.actionableBlockers)
    + SuffixItems(claim)
  }

  function LengthPrefix(len: nat): (b: seq<byte>)
    ensures |b| == 8
  {
    Pow256Values();
    BigEndian(AsU64(len), 8)
  }

  function Framed(domain: seq<byte>, body: seq<byte>): seq<byte> {
    domain + LengthPrefix(|body|) + body
  }

  function MessageOf(claim: Attestation): seq<byte> {
    Framed(Bytes(READINESS_DOMAIN), Encode(SignedItems(claim)))
  }

  /** The loop over `probes`. */
  method AppendProbes(body: Encoder, probes: seq<Probe>)
    requires body.Valid()
    modifies body
    ensures body.Valid() && body.items == old(body.items) + ProbesItems(probes)
  {
    hide Encode, EncodeItem;
    for i := 0 to |probes|
      invariant body.Valid()
      invariant body.items == old(body.items) + ProbesItems(probes[..i])
    {
      var probe := probes[i];
      ghost var before := body.items;
      body.Text(probe.id);
      body.Text(probe.state);
      body.UInt(probe.observedAt);
      body.Text(probe.evidenceRef);
      body.Text(probe.evidenceSha256);
      assert body.items == before + ProbeItems(probe);
      assert probes[..i + 1][..i] == probes[..i];
    }
    assert probes[..|probes|] == probes;
  }

  /** The loop over `actionable_blockers`. */
  method AppendBlockers(body: Encoder, blockers: seq<Str>)
    requires body.Valid()
    modifies body
    ensures body.Valid() && body.items == old(body.items) + BlockerItems(blockers)
  {
    hide Encode, EncodeItem;
    for i := 0 to |blockers|
      invariant body.Valid()
      invariant body.items == old(body.items) + BlockerItems(blockers[..i])
    {
      body.Text(blockers[i]);
      assert BlockerItems(blockers[..i + 1]) == BlockerItems(blockers[..i]) + [Text(blockers[i])];
    }
    assert blockers[..|blockers|] == blockers;
  }

  /** The fields before the probes, with the number of probes. */
  method AppendPrefix(body: Encoder, claim: Attestation)
    requires body.Valid()
    modifies body
    ensures body.Valid() && body.items == old(body.items) + PrefixItems(claim)
  {
    hide Encode, EncodeItem;
    body.Text(claim.source.commit);
    body.Text(claim.source.tree);
    body.UInt(claim.generatedAt);
    body.Text(claim.runnerLockSha256);
    body.Text(claim.runnerLockRef);
    body.Array(|claim.probes|);
  }

  /** The fields after the blockers. */
  method AppendSuffix(body: Encoder, claim: Attestation)
    requires body.Valid()
    modifies body
    ensures body.Valid() && body.items == old(body.items) + SuffixItems(claim)
  {
    hide Encode, EncodeItem;
    body.UInt(claim.authority.signedAt);
    body.UInt(claim.authority.expiresAt);
    body.Text(claim.verifier.identity);
    body.Text(claim.verifier.keyFingerprint);
    body.Text(claim.verifier.independenceEvidenceRef);
  }

  /** `canonical_message`. */
  method CanonicalMessage(claim: Attestation) returns (message: seq<byte>)
    ensures message == MessageOf(claim)
  {
    hide Encode, EncodeItem, ProbesItems, BlockerItems, PrefixItems, SuffixItems, Bytes;
    var body := new Encoder();
    AppendPrefix(body, claim);
    AppendProbes(body, claim.probes);
    body.Array(|claim.actionableBlockers|);
    AppendBlockers(body, claim.actionableBlockers);
    AppendSuffix(body, claim);
    assert body.items == SignedItems(claim);

    message := Bytes(READINESS_DOMAIN);
    message := message + LengthPrefix(|body.bytes|);
    message := message + body.bytes;
  }

  // ----- Validation ------------------------------------------------------------------

  function Sha256Hex(crypto: Crypto, bytes: seq<byte>): Str {
    Hex.Encode(crypto.sha256(bytes))
  }

  function ValidateClaimStructure(claim: Attestation): Check {
    var _ :- Need(claim.schema == Bytes(READINESS_ATTESTATION_SCHEMA), Schema);
    var _ :- Need(claim.version == READINESS_SCHEMA_VERSION, Version);
    var _ :- Need(claim.disclaimer == Bytes(READINESS_DISCLAIMER), Disclaimer);
    var _ :- Need(claim.generatedAt != 0, Timestamp);
    var _ :- Need(Hex.IsLowerHex(claim.source.commit, 40) && Hex.IsLowerHex(claim.source.tree, 40), BadSource);
    var _ :- Need(Hex.IsLowerHex(claim.runnerLockSha256, 64), RunnerLockHash);
    Need(IsSafeRef(claim.runnerLockRef), RunnerLockRef)
  }

  function ValidateProbe(probe: Probe, index: nat): Check
    requires index < EXPECTED_PROBE_COUNT
  {
    var _ :- Need(probe.id == Bytes(PROBE_IDS[index]), ProbeOrder);
    var _ :- Need(probe.state == Bytes("attested"), ProbeState);
    var _ :- Need(probe.observedAt != 0, Timestamp);
    var _ :- Need(IsSafeRef(probe.evidenceRef), EvidenceRef);
    Need(Hex.IsLowerHex(probe.evidenceSha256, 64), EvidenceHash)
  }

  /** The loop of `validate_probe_set` from `index` on: the first failing probe decides. */
  function ValidateProbesFrom(probes: seq<Probe>, index: nat): (r: Check)
    requires index <= |probes| == EXPECTED_PROBE_COUNT
    ensures r.Ok? <==> forall i :: index <= i < |probes| ==> ValidateProbe(probes[i], i).Ok?
    decreases |probes| - index
  {
    if index == |probes| then Ok(())
    else
      var _ :- ValidateProbe(probes[index], index);
      ValidateProbesFrom(probes, index + 1)
  }

  function ValidateProbeSet(claim: Attestation): Check {
    var _ :- Need(|claim.probes| == EXPECTED_PROBE_COUNT, ProbeCount);
    ValidateProbesFrom(claim.probes, 0)
  }

  predicate IsBlockerByte(b: byte) {
    b >= 0x20 && b != 0x7f
  }

  predicate IsBlocker(blocker: Str) {
    0 < |blocker| <= MAX_BLOCKER_BYTES && forall b :: b in blocker ==> IsBlockerByte(b)
  }

  function ValidateBlockers(claim: Attestation): Check {
    var _ :- Need(|claim.actionableBlockers| <= MAX_BLOCKERS, Blocker);
    Need(forall blocker :: blocker in claim.actionableBlockers ==> IsBlocker(blocker), Blocker)
  }

  /** `decode_hex_32` and `decode_hex_64`. */
  function DecodeHex(text: Str, len: nat): (b: Option<seq<byte>>)
    ensures b.Some? ==> |b.value| == len
  {
    match Hex.Decode(text)
    case Some(bytes) => if |bytes| == len then Some(bytes) else None
    case None => None
  }

  function ValidateVerifier(claim: Attestation, crypto: Crypto): Check {
    var verifier := claim.verifier;
    var _ :- Need(IsSafeRef(verifier.identity), VerifierIdentity);
    var _ :- Need(Hex.IsLowerHex(verifier.signingPublicKeyHex, 64), VerifierKey);
    var _ :- Need(Hex.IsLowerHex(verifier.keyFingerprint, 64), VerifierFingerprint);
    var _ :- Need(IsSafeRef(verifier.independenceEvidenceRef), VerifierIndependenceRef);
    var key := DecodeHex(verifier.signingPublicKeyHex, 32);
    var _ :- Need(key.Some?, VerifierKey);
    Need(key.Some? && Sha256Hex(crypto, key.value) == verifier.keyFingerprint, VerifierKeyFingerprintMismatch)
  }

  function ValidateVerifierIndependence(claim: Attestation, releaseFingerprint: Str): Check {
    var _ :- Need(Hex.IsLowerHex(releaseFingerprint, 64), VerifierNotIndependent);
    Need(claim.verifier.keyFingerprint != releaseFingerprint, VerifierNotIndependent)
  }

  function ValidateTrustedVerifierBinding(claim: Attestation, trustedKey: seq<byte>, crypto: Crypto): Check {
    var key := DecodeHex(claim.verifier.signingPublicKeyHex, 32);
    var _ :- Need(key.Some?, VerifierKey);
    var _ :- Need(key == Some(trustedKey), TrustedVerifierMismatch);
    Need(crypto.validKey(trustedKey), TrustedVerifierInvalid)
  }

  function ValidateAuthorityDomain(claim: Attestation): Check {
    Need(claim.authority.domain == Bytes(READINESS_DOMAIN), AuthorityDomain)
  }

  function ValidateFreshness(claim: Attestation): Check {
    var authority := claim.authority;
    var _ :- Need(authority.signedAt != 0 && authority.expiresAt != 0, Timestamp);
    var _ :- Need(forall probe :: probe in claim.probes ==> probe.observedAt <= authority.signedAt, FutureEvidence);
    Need(authority.expiresAt > authority.signedAt, ExpiredAtIssuance)
  }

  function ValidateReadyConsistency(claim: Attestation): Check {
    var _ :- Need(!(claim.ready && claim.actionableBlockers != []), ReadyWithBlockers);
    Need(!(!claim.ready && claim.actionableBlockers == []), NotReadyWithoutBlockers)
  }

  function ValidateSourceBinding(claim: Attestation, expected: Source): Check {
    Need(claim.source.commit == expected.commit && claim.source.tree == expected.tree, SourceMismatch)
  }

  function ValidateCanonicalHash(claim: Attestation, message: seq<byte>, crypto: Crypto): Check {
    var _ :- Need(Hex.IsLowerHex(claim.authority.canonicalMessageSha256, 64), AuthorityCanonicalHash);
    Need(Sha256Hex(crypto, message) == claim.authority.canonicalMessageSha256, CanonicalMessageMismatch)
  }

  function ValidateSignature(claim: Attestation, trustedKey: seq<byte>, message: seq<byte>, crypto: Crypto): Check {
    var _ :- Need(Hex.IsLowerHex(claim.authority.signatureHex, 128), AuthoritySignature);
    var signature := DecodeHex(claim.authority.signatureHex, 64);
    var _ :- Need(signature.Some?, AuthoritySignature);
    var _ :- Need(crypto.validKey(trustedKey), TrustedVerifierInvalid);
    Need(signature.Some? && crypto.verifies(trustedKey, message, signature.value), SignatureVerification)
  }

  /** `assess_readiness`: the stages in order, the first failure deciding the error. */
  function AssessReadiness(
    claim: Attestation, trustedKey: seq<byte>, releaseFingerprint: Str, expectedSource: Source, crypto: Crypto
  ): Result<Assessed, ReadinessError>
  {
    var _ :- ValidateClaimStructure(claim);
    var _ :- ValidateProbeSet(claim);
    var _ :- ValidateBlockers(claim);
    var _ :- ValidateVerifier(claim, crypto);
    var _ :- ValidateVerifierIndependence(claim, releaseFingerprint);
    var _ :- ValidateTrustedVerifierBinding(claim, trustedKey, crypto);
    var _ :- ValidateAuthorityDomain(claim);
    var _ :- ValidateFreshness(claim);
    var _ :- ValidateReadyConsistency(claim);
    var _ :- ValidateSourceBinding(claim, expectedSource);
    var message := MessageOf(claim);
    var _ :- ValidateCanonicalHash(claim, message, crypto);
    var _ :- ValidateSignature(claim, trustedKey, message, crypto);
    Ok(Assessed(crypto.sha256(message), claim.ready, claim.authority.signedAt, claim.authority.expiresAt))
  }

  // ----- What acceptance means ----------------------------------------------------------

  /** An accepted claim, stated without stages. */
  ghost predicate Accepted(
    claim: Attestation, trustedKey: seq<byte>, releaseFingerprint: Str, expectedSource: Source, crypto: Crypto)
  {
    && AcceptedContent(claim, expectedSource)
    && AcceptedProbes(claim)
    && AcceptedKeys(claim, trustedKey, releaseFingerprint, crypto)
    && AcceptedSignature(claim, trustedKey, crypto)
  }

  ghost predicate AcceptedContent(claim: Attestation, expectedSource: Source) {
    && claim.schema == Bytes(READINESS_ATTESTATION_SCHEMA) && claim.version == 1
    && claim.disclaimer == Bytes(READINESS_DISCLAIMER)
    && claim.authority.domain == Bytes(READINESS_DOMAIN)
    && claim.source == expectedSource
    && Hex.IsLowerHex(claim.source.commit, 40) && Hex.IsLowerHex(claim.source.tree, 40)
    && claim.generatedAt > 0
    && Hex.IsLowerHex(claim.runnerLockSha256, 64) && IsSafeRef(claim.runnerLockRef)
    && |claim.actionableBlockers| <= MAX_BLOCKERS
    && (forall blocker :: blocker in claim.actionableBlockers ==> IsBlocker(blocker))
    && (claim.ready <==> claim.actionableBlockers == [])
  }

  /** Exactly the fourteen probes in contract order, each observed before the signing, and a
      signing before the expiry. */
  ghost predicate AcceptedProbes(claim: Attestation) {
    && |claim.probes| == |PROBE_IDS|
    && (forall i :: 0 <= i < |claim.probes| ==> AcceptedProbe(claim.probes[i], i, claim.authority.signedAt))
    && 0 < claim.authority.signedAt < claim.authority.expiresAt
  }

  ghost predicate AcceptedProbe(probe: Probe, index: nat, signedAt: u64)
    requires index < |PROBE_IDS|
  {
    && probe.id == Bytes(PROBE_IDS[index]) && probe.state == Bytes("attested")
    && 0 < probe.observedAt <= signedAt
    && IsSafeRef(probe.evidenceRef) && Hex.IsLowerHex(probe.evidenceSha256, 64)
  }

  /** The claimed key is the trusted one, spelled in lower case, and is not the release authority's. */
  ghost predicate AcceptedKeys(claim: Attestation, trustedKey: seq<byte>, releaseFingerprint: Str, crypto: Crypto) {
    && IsSafeRef(claim.verifier.identity) && IsSafeRef(claim.verifier.independenceEvidenceRef)
    && |trustedKey| == 32 && crypto.validKey(trustedKey)
    && claim.verifier.signingPublicKeyHex == Hex.Encode(trustedKey)
    && claim.verifier.keyFingerprint == Hex.Encode(crypto.sha256(trustedKey))
    && Hex.IsLowerHex(claim.verifier.keyFingerprint, 64)
    && Hex.IsLowerHex(releaseFingerprint, 64) && claim.verifier.keyFingerprint != releaseFingerprint
  }

  ghost predicate IsSignedBy(key: seq<byte>, message: seq<byte>, signatureHex: Str, crypto: Crypto) {
    exists signature ::
      && |signature| == 64
      && signatureHex == Hex.Encode(signature)
      && crypto.verifies(key, message, signature)
  }

  ghost predicate AcceptedSignature(claim: Attestation, trustedKey: seq<byte>, crypto: Crypto) {
    && claim.authority.canonicalMessageSha256 == Hex.Encode(crypto.sha256(MessageOf(claim)))
    && Hex.IsLowerHex(claim.authority.canonicalMessageSha256, 64)
    && IsSignedBy(trustedKey, MessageOf(claim), claim.authority.signatureHex, crypto)
  }

  lemma KeyHex(text: Str, key: seq<byte>, len: nat)
    ensures Hex.IsLowerHex(text, 2 * len) && DecodeHex(text, len) == Some(key) <==> |key| == len && text == Hex.Encode(key)
  {
    Hex.DecodeEncode(key);
    if Hex.IsLowerHex(text, 2 * len) {
      Hex.EncodeDecode(text, len);
    }
  }

  lemma ContentStages(claim: Attestation, expectedSource: Source)
    ensures && ValidateClaimStructure(claim).Ok? && ValidateBlockers(claim).Ok? && ValidateAuthorityDomain(claim).Ok?
            && ValidateReadyConsistency(claim).Ok? && ValidateSourceBinding(claim, expectedSource).Ok?
            <==> AcceptedContent(claim, expectedSource)
  {
    hide IsSafeRef, Bytes, Hex.IsLowerHex, IsBlocker;
  }

  lemma ProbeStages(claim: Attestation)
    ensures ValidateProbeSet(claim).Ok? && ValidateFreshness(claim).Ok? <==> AcceptedProbes(claim)
  {
    hide IsSafeRef, Bytes, Hex.IsLowerHex;
    if |claim.probes| == |PROBE_IDS| {
      assert forall i :: 0 <= i < |claim.probes| ==>
        (AcceptedProbe(claim.probes[i], i, claim.authority.signedAt) <==>
         ValidateProbe(claim.probes[i], i).Ok? && claim.probes[i].observedAt <= claim.authority.signedAt);
      assert forall i :: 0 <= i < |claim.probes| ==> claim.probes[i] in claim.probes;
    }
  }

  /** The verifier and key stages fix both encodings of the trusted key. */
  lemma KeyStages(claim: Attestation, trustedKey: seq<byte>, releaseFingerprint: Str, crypto: Crypto)
    ensures && ValidateVerifier(claim, crypto).Ok? && ValidateVerifierIndependence(claim, releaseFingerprint).Ok?
            && ValidateTrustedVerifierBinding(claim, trustedKey, crypto).Ok?
            <==> AcceptedKeys(claim, trustedKey, releaseFingerprint, crypto)
  {
    hide IsSafeRef, Hex.IsLowerHex, DecodeHex;
    KeyHex(claim.verifier.signingPublicKeyHex, trustedKey, 32);
  }

  lemma SignatureStage(claim: Attestation, key: seq<byte>, message: seq<byte>, crypto: Crypto)
    requires crypto.validKey(key)
    ensures ValidateSignature(claim, key, message, crypto).Ok? <==> IsSignedBy(key, message, claim.authority.signatureHex, crypto)
  {
    hide Hex.IsLowerHex, DecodeHex, Hex.Encode;
    var text := claim.authority.signatureHex;
    if ValidateSignature(claim, key, message, crypto).Ok? {
      KeyHex(text, DecodeHex(text, 64).value, 64);
    }
    if IsSignedBy(key, message, text, crypto) {
      var signature :| |signature| == 64 && text == Hex.Encode(signature) && crypto.verifies(key, message, signature);
      KeyHex(text, signature, 64);
    }
  }

  lemma SignatureStages(claim: Attestation, trustedKey: seq<byte>, crypto: Crypto)
    requires crypto.validKey(trustedKey)
    ensures && ValidateCanonicalHash(claim, MessageOf(claim), crypto).Ok?
            && ValidateSignature(claim, trustedKey, MessageOf(claim), crypto).Ok?
            <==> AcceptedSignature(claim, trustedKey, crypto)
  {
    SignatureStage(claim, trustedKey, MessageOf(claim), crypto);
    hide MessageOf, Hex.IsLowerHex, Hex.Encode, ValidateSignature, IsSignedBy;
  }

  /** All stages must pass; nothing else is asked. */
  lemma StagesDecide(
    claim: Attestation, trustedKey: seq<byte>, releaseFingerprint: Str, expectedSource: Source, crypto: Crypto)
    ensures AssessReadiness(claim, trustedKey, releaseFingerprint, expectedSource, crypto).Ok? <==>
            && ValidateClaimStructure(claim).Ok? && ValidateProbeSet(claim).Ok? && ValidateBlockers(claim).Ok?
            && ValidateVerifier(claim, crypto).Ok? && ValidateVerifierIndependence(claim, releaseFingerprint).Ok?
            && ValidateTrustedVerifierBinding(claim, trustedKey, crypto).Ok?
            && ValidateAuthorityDomain(claim).Ok? && ValidateFreshness(claim).Ok?
            && ValidateReadyConsistency(claim).Ok? && ValidateSourceBinding(claim, expectedSource).Ok?
            && ValidateCanonicalHash(claim, MessageOf(claim), crypto).Ok?
            && ValidateSignature(claim, trustedKey, MessageOf(claim), crypto).Ok?
  {
    hide ValidateClaimStructure, ValidateProbeSet, ValidateBlockers, ValidateVerifier, ValidateVerifierIndependence,
      ValidateTrustedVerifierBinding, ValidateAuthorityDomain, ValidateFreshness, ValidateReadyConsistency,
      ValidateSourceBinding, ValidateCanonicalHash, ValidateSignature, MessageOf;
  }

  /** The staged validator accepts exactly the claims of `Accepted`. */
  lemma AssessmentIsExact(
    claim: Attestation, trustedKey: seq<byte>, releaseFingerprint: Str, expectedSource: Source, crypto: Crypto)
    ensures AssessReadiness(claim, trustedKey, releaseFingerprint, expectedSource, crypto).Ok?
            <==> Accepted(claim, trustedKey, releaseFingerprint, expectedSource, crypto)
  {
    hide AcceptedContent, AcceptedProbes, AcceptedSignature, AssessReadiness, MessageOf,
      ValidateClaimStructure, ValidateProbeSet, ValidateBlockers, ValidateVerifier, ValidateVerifierIndependence,
      ValidateTrustedVerifierBinding, ValidateAuthorityDomain, ValidateFreshness, ValidateReadyConsistency,
      ValidateSourceBinding, ValidateCanonicalHash, ValidateSignature, IsSafeRef, Hex.IsLowerHex;
    StagesDecide(claim, trustedKey, releaseFingerprint, expectedSource, crypto);
    ContentStages(claim, expectedSource);
    ProbeStages(claim);
    KeyStages(claim, trustedKey, releaseFingerprint, crypto);
    if AcceptedKeys(claim, trustedKey, releaseFingerprint, crypto) {
      SignatureStages(claim, trustedKey, crypto);
    }
  }

  // ----- The signed bytes fix the claim ----------------------------------------------------

  /** Lengths a 64-bit `usize` can hold. Accepted claims are far below them. */
  ghost predicate Representable(claim: Attestation) {
    && |Encode(SignedItems(claim))| < TWO_64
    && forall item :: item in SignedItems(claim) ==> Fits(item)
  }

  /** Equality of every field that is signed. */
  ghost predicate SameSignedFields(a: Attestation, b: Attestation) {
    && a.source == b.source
    && a.generatedAt == b.generatedAt
    && a.runnerLockSha256 == b.runnerLockSha256 && a.runnerLockRef == b.runnerLockRef
    && a.probes == b.probes
    && a.actionableBlockers == b.actionableBlockers
    && a.authority.signedAt == b.authority.signedAt && a.authority.expiresAt == b.authority.expiresAt
    && a.verifier.identity == b.verifier.identity
    && a.verifier.keyFingerprint == b.verifier.keyFingerprint
    && a.verifier.independenceEvidenceRef == b.verifier.independenceEvidenceRef
  }

  lemma {:induction false} ProbesItemsInjective(a: seq<Probe>, b: seq<Probe>)
    requires |a| == |b|
    requires ProbesItems(a) == ProbesItems(b)
    ensures a == b
  {
    if a != [] {
      var n := |a| - 1;
      assert ProbesItems(a[..n]) == ProbesItems(a)[..5 * n] == ProbesItems(b[..n]);
      assert ProbeItems(a[n]) == ProbesItems(a)[5 * n..] == ProbeItems(b[n]);
      ProbeItemsInjective(a[n], b[n]);
      ProbesItemsInjective(a[..n], b[..n]);
      assert a == a[..n] + [a[n]] && b == b[..n] + [b[n]];
    }
  }

  lemma ProbeItemsInjective(a: Probe, b: Probe)
    requires ProbeItems(a) == ProbeItems(b)
    ensures a == b
  {
    assert forall i :: 0 <= i < 5 ==> ProbeItems(a)[i] == ProbeItems(b)[i];
  }

  lemma BlockerItemsInjective(a: seq<Str>, b: seq<Str>)
    requires BlockerItems(a) == BlockerItems(b)
    ensures a == b
  {
    assert |a| == |BlockerItems(a)| == |b|;
    forall i | 0 <= i < |a| ensures a[i] == b[i] {
      assert BlockerItems(a)[i] == BlockerItems(b)[i];
    }
  }

  /** The counts that precede the probes and the blockers make the flat item list unambiguous. */
  lemma SignedItemsInjective(a: Attestation, b: Attestation)
    requires SignedItems(a) == SignedItems(b)
    ensures SameSignedFields(a, b)
  {
    hide ProbesItems, BlockerItems;
    var (x, y) := (SignedItems(a), SignedItems(b));
    assert x[..6] == PrefixItems(a) && y[..6] == PrefixItems(b);
    assert forall i :: 0 <= i < 6 ==> PrefixItems(a)[i] == PrefixItems(b)[i];
    var n := |a.probes|;
    assert n == |b.probes|;
    assert x[6..6 + 5 * n] == ProbesItems(a.probes) && y[6..6 + 5 * n] == ProbesItems(b.probes);
    ProbesItemsInjective(a.probes, b.probes);
    var k := 6 + 5 * n;
    assert x[k] == Array(|a.actionableBlockers|) && y[k] == Array(|b.actionableBlockers|);
    var m := |x| - 5;
    assert x[k + 1..m] == BlockerItems(a.actionableBlockers) && y[k + 1..m] == BlockerItems(b.actionableBlockers);
    BlockerItemsInjective(a.actionableBlockers, b.actionableBlockers);
    assert x[m..] == SuffixItems(a) && y[m..] == SuffixItems(b);
    assert forall i :: 0 <= i < 5 ==> SuffixItems(a)[i] == SuffixItems(b)[i];
  }

  /** Equal frames have equal bodies, and no frame is a proper prefix of another. */
  lemma FramedPrefix(domain: seq<byte>, a: seq<byte>, b: seq<byte>)
    requires |a| < TWO_64 && |b| < TWO_64
    requires Framed(domain, a) <= Framed(domain, b)
    ensures a == b
  {
    hide LengthPrefix;
    var (x, y) := (Framed(domain, a), Framed(domain, b));
    var (d, e) := (|domain|, |domain| + 8);
    assert x[d..e] == LengthPrefix(|a|) && y[d..e] == LengthPrefix(|b|);
    assert x[d..e] == y[d..e];
    LengthPrefixInjective(|a|, |b|);
    assert x[e..] == a && y[e..] == b;
    assert a == y[e..e + |a|];
  }

  lemma LengthPrefixInjective(a: nat, b: nat)
    requires a < TWO_64 && b < TWO_64
    requires LengthPrefix(a) == LengthPrefix(b)
    ensures a == b
  {
    Pow256Values();
    assert AsU64(a) == a && AsU64(b) == b;
    BigEndianRoundTrip(a, 8);
    BigEndianRoundTrip(b, 8);
  }

  /** Two claims have equal canonical messages exactly when they agree on every signed field,
      and no message is a proper prefix of another. */
  lemma MessageFixesSignedFields(a: Attestation, b: Attestation)
    requires Representable(a) && Representable(b)
    ensures MessageOf(a) <= MessageOf(b) <==> SameSignedFields(a, b)
    ensures MessageOf(a) == MessageOf(b) <==> SameSignedFields(a, b)
  {
    hide Encode, ProbesItems, BlockerItems, Framed, SameSignedFields, Bytes;
    if MessageOf(a) <= MessageOf(b) {
      FramedPrefix(Bytes(READINESS_DOMAIN), Encode(SignedItems(a)), Encode(SignedItems(b)));
      EncodeInjective(SignedItems(a), SignedItems(b));
      SignedItemsInjective(a, b);
    }
    if SameSignedFields(a, b) {
      SameFieldsSameItems(a, b);
    }
  }

  lemma SameFieldsSameItems(a: Attestation, b: Attestation)
    requires SameSignedFields(a, b)
    ensures SignedItems(a) == SignedItems(b)
  {
  }

  // ----- Accepted claims are representable ---------------------------------------------------

  lemma {:induction false} EncodeLength(items: seq<Item>, bound: nat)
    requires forall item :: item in items ==> |EncodeItem(item)| <= bound
    ensures |Encode(items)| <= bound * |items|
  {
    hide EncodeItem;
    if items != [] {
      assert items[0] in items;
      EncodeLength(items[1..], bound);
      assert bound * |items| == bound + bound * |items[1..]|;
    }
  }

  ghost predicate SmallItem(item: Item) {
    match item
    case UInt(_) => true
    case Text(s) => |s| <= MAX_REF_BYTES
    case Array(len) => len <= MAX_BLOCKERS
  }

  lemma {:induction false} ProbesItemsSmall(probes: seq<Probe>, signedAt: u64)
    requires |probes| <= |PROBE_IDS|
    requires forall i :: 0 <= i < |probes| ==> AcceptedProbe(probes[i], i, signedAt)
    ensures forall item :: item in ProbesItems(probes) ==> SmallItem(item)
  {
    if probes != [] {
      var n := |probes| - 1;
      ProbesItemsSmall(probes[..n], signedAt);
      assert AcceptedProbe(probes[n], n, signedAt);
      ProbeItemsSmall(probes[n], n, signedAt);
    }
  }

  lemma ProbeItemsSmall(probe: Probe, index: nat, signedAt: u64)
    requires index < |PROBE_IDS| && AcceptedProbe(probe, index, signedAt)
    ensures forall item :: item in ProbeItems(probe) ==> SmallItem(item)
  {
    hide HasPrivateAddress, MatchesDenylist, Components, Contains;
    assert |PROBE_IDS[index]| <= 64;
  }

  lemma SafeRefIsShort(value: Str)
    requires IsSafeRef(value)
    ensures |value| <= MAX_REF_BYTES
  {
  }

  lemma AcceptedItemsSmall(
    claim: Attestation, trustedKey: seq<byte>, releaseFingerprint: Str, expectedSource: Source, crypto: Crypto)
    requires Accepted(claim, trustedKey, releaseFingerprint, expectedSource, crypto)
    ensures |SignedItems(claim)| <= 114
    ensures forall item :: item in SignedItems(claim) ==> SmallItem(item)
  {
    hide IsSafeRef, Bytes, AcceptedSignature, AcceptedProbe, ProbesItems;
    ProbesItemsSmall(claim.probes, claim.authority.signedAt);
    SafeRefIsShort(claim.runnerLockRef);
    SafeRefIsShort(claim.verifier.identity);
    SafeRefIsShort(claim.verifier.independenceEvidenceRef);
    assert forall item :: item in PrefixItems(claim) ==> SmallItem(item);
    assert forall item :: item in SuffixItems(claim) ==> SmallItem(item);
    BlockerItemsSmall(claim.actionableBlockers);
    assert SmallItem(Array(|claim.actionableBlockers|));
    hide SmallItem;
  }

  lemma BlockerItemsSmall(blockers: seq<Str>)
    requires forall blocker :: blocker in blockers ==> IsBlocker(blocker)
    ensures forall item :: item in BlockerItems(blockers) ==> SmallItem(item)
  {
    forall i | 0 <= i < |blockers| ensures |blockers[i]| <= MAX_BLOCKER_BYTES {
      assert blockers[i] in blockers;
    }
  }

  lemma AcceptedIsRepresentable(
    claim: Attestation, trustedKey: seq<byte>, releaseFingerprint: Str, expectedSource: Source, crypto: Crypto)
    requires Accepted(claim, trustedKey, releaseFingerprint, expectedSource, crypto)
    ensures Representable(claim)
  {
    hide Accepted, SignedItems, Encode;
    AcceptedItemsSmall(claim, trustedKey, releaseFingerprint, expectedSource, crypto);
    var items := SignedItems(claim);
    forall item | item in items ensures |EncodeItem(item)| <= 300 && Fits(item) {
      assert SmallItem(item);
    }
    EncodeLength(items, 300);
  }

  /** Two claims accepted under the same trusted key whose signed bytes are equal differ in
      nothing but the signature text, whatever release fingerprint and source each was
      checked against. */
  lemma SignedBytesFixAcceptedClaim(
    a: Attestation, b: Attestation, trustedKey: seq<byte>, crypto: Crypto,
    fingerprintA: Str, fingerprintB: Str, sourceA: Source, sourceB: Source)
    requires AssessReadiness(a, trustedKey, fingerprintA, sourceA, crypto).Ok?
    requires AssessReadiness(b, trustedKey, fingerprintB, sourceB, crypto).Ok?
    requires MessageOf(a) == MessageOf(b)
    ensures a.(authority := a.authority.(signatureHex := b.authority.signatureHex)) == b
  {
    AssessmentIsExact(a, trustedKey, fingerprintA, sourceA, crypto);
    AssessmentIsExact(b, trustedKey, fingerprintB, sourceB, crypto);
    AcceptedClaimsAgree(a, b, trustedKey, crypto, fingerprintA, fingerprintB, sourceA, sourceB);
  }

  lemma AcceptedClaimsAgree(
    a: Attestation, b: Attestation, trustedKey: seq<byte>, crypto: Crypto,
    fingerprintA: Str, fingerprintB: Str, sourceA: Source, sourceB: Source)
    requires Accepted(a, trustedKey, fingerprintA, sourceA, crypto)
    requires Accepted(b, trustedKey, fingerprintB, sourceB, crypto)
    requires MessageOf(a) == MessageOf(b)
    ensures a.(authority := a.authority.(signatureHex := b.authority.signatureHex)) == b
  {
    hide AssessReadiness, IsSafeRef, Bytes, Hex.IsLowerHex, MessageOf, AcceptedProbes, IsBlocker;
    AcceptedIsRepresentable(a, trustedKey, fingerprintA, sourceA, crypto);
    AcceptedIsRepresentable(b, trustedKey, fingerprintB, sourceB, crypto);
    MessageFixesSignedFields(a, b);
  }

  /** `ready` is deliberately not signed: flipping it leaves the message as it was, so the
      signature alone does not carry it and the blockers rule has to. */
  lemma ReadyIsNotSigned(claim: Attestation)
    ensures MessageOf(claim.(ready := !claim.ready)) == MessageOf(claim)
  {
    SameFieldsSameItems(claim.(ready := !claim.ready), claim);
  }

  // ----- Signing ---------------------------------------------------------------------------

  /** A draft with the verifier's key, the digest of its message and a signature filled in. */
  function Sealed(draft: Attestation, key: seq<byte>, signature: seq<byte>, crypto: Crypto): Attestation {
    var keyed := draft.(verifier := draft.verifier.(
      signingPublicKeyHex := Hex.Encode(key), keyFingerprint := Hex.Encode(crypto.sha256(key))));
    keyed.(authority := keyed.authority.(
      canonicalMessageSha256 := Hex.Encode(crypto.sha256(MessageOf(keyed))), signatureHex := Hex.Encode(signature)))
  }

  lemma SealingKeepsMessage(draft: Attestation, key: seq<byte>, signature: seq<byte>, crypto: Crypto)
    ensures var sealed := Sealed(draft, key, signature, crypto);
            sealed.authority.canonicalMessageSha256 == Hex.Encode(crypto.sha256(MessageOf(sealed)))
  {
    hide Hex.Encode;
    var keyed := draft.(verifier := draft.verifier.(
      signingPublicKeyHex := Hex.Encode(key), keyFingerprint := Hex.Encode(crypto.sha256(key))));
    SameFieldsSameItems(Sealed(draft, key, signature, crypto), keyed);
  }

  /** What is signed properly is accepted: sound content and probes, sealed with the trusted key,
      which is not the release authority's, and a signature that verifies. */
  lemma SealedIsAccepted(
    draft: Attestation, key: seq<byte>, signature: seq<byte>, releaseFingerprint: Str, source: Source, crypto: Crypto)
    requires AcceptedContent(draft, source) && AcceptedProbes(draft)
    requires IsSafeRef(draft.verifier.identity) && IsSafeRef(draft.verifier.independenceEvidenceRef)
    requires |key| == 32 && crypto.validKey(key) && |signature| == 64 && forall b :: |crypto.sha256(b)| == 32
    requires Hex.IsLowerHex(releaseFingerprint, 64) && releaseFingerprint != Hex.Encode(crypto.sha256(key))
    requires crypto.verifies(key, MessageOf(Sealed(draft, key, signature, crypto)), signature)
    ensures AssessReadiness(Sealed(draft, key, signature, crypto), key, releaseFingerprint, source, crypto).Ok?
  {
    var sealed := Sealed(draft, key, signature, crypto);
    SealingKeepsMessage(draft, key, signature, crypto);
    AssessmentIsExact(sealed, key, releaseFingerprint, source, crypto);
    hide AssessReadiness, IsSafeRef, MessageOf, Hex.IsLowerHex, Hex.Encode, IsBlocker, Bytes;
    Hex.DecodeEncode(crypto.sha256(key));
    Hex.DecodeEncode(crypto.sha256(MessageOf(sealed)));
    assert AcceptedContent(sealed, source) && AcceptedProbes(sealed);
    assert AcceptedKeys(sealed, key, releaseFingerprint, crypto);
    assert AcceptedSignature(sealed, key, crypto);
  }

  // Such drafts exist.
  ghost function SampleDraft(): Attestation {
    var digest := Hex.Encode(seq(32, (_: nat) => 0));
    Attestation(
      Bytes(READINESS_ATTESTATION_SCHEMA), 1, 1, Source(digest[..40], digest[..40]), [97], digest,
      seq(|PROBE_IDS|, i requires 0 <= i < |PROBE_IDS| => Probe(Bytes(PROBE_IDS[i]), Bytes("attested"), 1, [97], digest)),
      [], VerifierBinding([97], [], [], [97]), Authority(Bytes(READINESS_DOMAIN), [], [], 1, 2), true,
      Bytes(READINESS_DISCLAIMER))
  }

  lemma SampleRef()
    ensures IsSafeRef([97])
  {
    var s: Str := [97];
    assert RunEnd(s, 0) == 0 && RunEnd(s, 1) == 1;
    assert !HasPrivateAddress(s);
    assert NextSeparator(s, 0, 1, IsSlash) == 1;
    assert Split(s, 0, 1, IsSlash) == [Span(0, 1)];
    assert Field(s, Span(0, 1)) == s;
    assert Components(s) == [s];
    assert ToLower(s) == s;
    ShortIsHarmless(s);
  }

  lemma DenylistIsLong()
    ensures |Bytes("..")| > 1
    ensures forall i :: 0 <= i < |SECRET_SUBSTRINGS| ==> |Bytes(SECRET_SUBSTRINGS[i])| > 1
    ensures forall i :: 0 <= i < |HOST_LOCAL_SUBSTRINGS| ==> |Bytes(HOST_LOCAL_SUBSTRINGS[i])| > 1
    ensures forall i :: 0 <= i < |LOCAL_IPV6_PREFIXES| ==> |Bytes(LOCAL_IPV6_PREFIXES[i])| > 1
  {
  }

  lemma ShortIsHarmless(s: Str)
    requires |s| == 1 && ToLower(s) == s && !HasPrivateAddress(s)
    ensures !MatchesDenylist(s) && !Contains(s, Bytes(".."))
  {
    hide HasPrivateAddress;
    forall needle: Str | |needle| > 1 ensures !Contains(s, needle) && !StartsWith(s, needle) {
    }
    hide Contains, StartsWith, ToLower;
    DenylistIsLong();
    hide Bytes;
  }

  lemma SampleDraftIsSound()
    ensures AcceptedContent(SampleDraft(), SampleDraft().source) && AcceptedProbes(SampleDraft())
    ensures IsSafeRef(SampleDraft().verifier.identity) && IsSafeRef(SampleDraft().verifier.independenceEvidenceRef)
  {
    SampleRef();
    Hex.DecodeEncode(seq(32, (_: nat) => 0));
    hide Bytes, IsSafeRef, Hex.Encode, IsBlocker;
  }
}

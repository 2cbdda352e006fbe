/** The readiness keystone: `assess_and_bind`, `verify_only_with` and `verify_and_publish_with` of
    `xtask/src/readiness_keystone.rs`. (Its publisher is in `Publication`.) */
module Keystone {
  import opened Prelude
  import opened Readiness
  import Hex

  const CLOCK_SKEW_MS: u64 := 5 * 60 * 1000
  const MAX_ATTESTATION_BYTES: nat := 1024 * 1024

  datatype KeystoneError =
    | Unreadable
    | SourceUnavailable
    | RunnerLockUnavailable
    | TrustedKeyUnavailable
    | Rejected(reason: ReadinessError)
    | RunnerLockHashMismatch
    | Expired
    | Future
    | NotReady
    | Oversized
    | UnsafeOutput
    | PublishFailed

  datatype Receipt = Receipt(
    source: Source, canonicalMessageSha256: seq<byte>, runnerLockSha256: seq<byte>, verifierKeyFingerprint: Str,
    ready: bool, published: bool)

  /** Everything the keystone asks of its surroundings. `serialize` is the pretty JSON of a claim,
      about which nothing is assumed. */
  datatype Deps = Deps(
    trustedKey: Option<seq<byte>>, releaseFingerprint: Str, crypto: Crypto, currentSource: Option<Source>,
    runnerLockSha256: Option<seq<byte>>, now: u64, serialize: Attestation -> seq<byte>, outIsFree: bool,
    publishes: seq<byte> -> bool)

  /** `assess_and_bind`. */
  function AssessAndBind(claim: Attestation, source: Source, lockSha256: seq<byte>, deps: Deps): Result<Receipt, KeystoneError> {
    var _ :- Need(deps.trustedKey.Some?, TrustedKeyUnavailable);
    match AssessReadiness(claim, deps.trustedKey.value, deps.releaseFingerprint, source, deps.crypto)
    case Err(reason) => Err(Rejected(reason))
    case Ok(assessed) =>
      var _ :- Need(Hex.Decode(claim.runnerLockSha256) == Some(lockSha256), RunnerLockHashMismatch);
      var _ :- Need(deps.now < claim.authority.expiresAt, Expired);
      var _ :- Need(claim.authority.signedAt <= Min(deps.now + CLOCK_SKEW_MS, TWO_64 - 1), Future);
      Ok(Receipt(claim.source, assessed.canonicalMessageSha256, lockSha256, claim.verifier.keyFingerprint, claim.ready, false))
  }

  /** `verify_only_with`: ready or not. */
  function VerifyOnly(input: Option<Attestation>, deps: Deps): Result<Receipt, KeystoneError> {
    var _ :- Need(input.Some?, Unreadable);
    var _ :- Need(deps.currentSource.Some?, SourceUnavailable);
    var _ :- Need(deps.runnerLockSha256.Some?, RunnerLockUnavailable);
    AssessAndBind(input.value, deps.currentSource.value, deps.runnerLockSha256.value, deps)
  }

  /** A claim is bound in a window of time: accepted for this source under this key, naming this
      runner lock, not yet expired, and not signed further ahead than the clock may be off. */
  ghost predicate IsBound(claim: Attestation, source: Source, lockSha256: seq<byte>, deps: Deps) {
    && deps.trustedKey.Some?
    && Accepted(claim, deps.trustedKey.value, deps.releaseFingerprint, source, deps.crypto)
    && Hex.Decode(claim.runnerLockSha256) == Some(lockSha256)
    && claim.authority.signedAt - CLOCK_SKEW_MS <= deps.now < claim.authority.expiresAt
  }

  lemma BindingIsExact(claim: Attestation, source: Source, lockSha256: seq<byte>, deps: Deps)
    ensures AssessAndBind(claim, source, lockSha256, deps).Ok? <==> IsBound(claim, source, lockSha256, deps)
  {
    hide AssessReadiness, Accepted, Hex.Decode;
    if deps.trustedKey.Some? {
      AssessmentIsExact(claim, deps.trustedKey.value, deps.releaseFingerprint, source, deps.crypto);
    }
  }

  predicate IsPublishable(input: Option<Attestation>, deps: Deps) {
    && VerifyOnly(input, deps).Ok?
    && input.value.ready
    && |deps.serialize(input.value)| < MAX_ATTESTATION_BYTES
    && deps.outIsFree
  }

  /** `verify_and_publish_with`; `attempt` is what it hands to the publisher, if it gets there. */
  method VerifyAndPublish(input: Option<Attestation>, deps: Deps)
    returns (r: Result<Receipt, KeystoneError>, attempt: Option<seq<byte>>)
    ensures attempt.Some? <==> IsPublishable(input, deps)
    ensures attempt.Some? ==> attempt.value == deps.serialize(input.value) + ['\n' as int]
    ensures r.Ok? <==> attempt.Some? && deps.publishes(attempt.value)
    ensures r.Ok? ==> r.value == VerifyOnly(input, deps).value.(published := true)
  {
    hide AssessAndBind;
    attempt := None;
    var verified := VerifyOnly(input, deps);
    if verified.Err? {
      return Err(verified.error), None;
    }
    ReceiptIsOfClaim(input, deps);
    if !verified.value.ready {
      return Err(NotReady), None;
    }
    var bytes := deps.serialize(input.value) + ['\n' as int];
    if |bytes| > MAX_ATTESTATION_BYTES {
      return Err(Oversized), None;
    }
    if !deps.outIsFree {
      return Err(UnsafeOutput), None;
    }
    attempt := Some(bytes);
    r := if deps.publishes(bytes) then Ok(verified.value.(published := true)) else Err(PublishFailed);
  }

  /** A receipt speaks of the claim, its source and its message. */
  lemma ReceiptIsOfClaim(input: Option<Attestation>, deps: Deps)
    ensures VerifyOnly(input, deps).Ok? ==>
              var (claim, receipt) := (input.value, VerifyOnly(input, deps).value);
              && receipt.ready == claim.ready && receipt.source == claim.source
              && Some(receipt.source) == deps.currentSource
              && receipt.canonicalMessageSha256 == deps.crypto.sha256(MessageOf(claim))
              && Some(receipt.runnerLockSha256) == deps.runnerLockSha256
              && receipt.verifierKeyFingerprint == claim.verifier.keyFingerprint && !receipt.published
  {
    if VerifyOnly(input, deps).Ok? {
      AssessedMessage(input.value, deps.trustedKey.value, deps.releaseFingerprint, deps.currentSource.value, deps.crypto);
      hide AssessReadiness;
    }
  }

  lemma AssessedMessage(
    claim: Attestation, trustedKey: seq<byte>, releaseFingerprint: Str, expectedSource: Source, crypto: Crypto)
    ensures var assessed := AssessReadiness(claim, trustedKey, releaseFingerprint, expectedSource, crypto);
            assessed.Ok? ==>
              && assessed.value.canonicalMessageSha256 == crypto.sha256(MessageOf(claim))
              && claim.source == expectedSource
  {
    hide MessageOf, ValidateClaimStructure, ValidateProbeSet, ValidateBlockers, ValidateVerifier,
      ValidateVerifierIndependence, ValidateTrustedVerifierBinding, ValidateAuthorityDomain, ValidateFreshness,
      ValidateReadyConsistency, ValidateCanonicalHash, ValidateSignature;
  }

  /** A claim goes to the publisher exactly when there is one, it is bound to the current source and the
      current runner lock, it is ready, its text with a line feed fits in a mebibyte, and the output
      place is free. */
  lemma PublishableIsExact(input: Option<Attestation>, deps: Deps)
    ensures IsPublishable(input, deps) <==>
              && input.Some? && deps.currentSource.Some? && deps.runnerLockSha256.Some?
              && IsBound(input.value, deps.currentSource.value, deps.runnerLockSha256.value, deps)
              && input.value.ready
              && |deps.serialize(input.value)| + 1 <= 1024 * 1024
              && deps.outIsFree
  {
    hide AssessAndBind, IsBound;
    if input.Some? && deps.currentSource.Some? && deps.runnerLockSha256.Some? {
      BindingIsExact(input.value, deps.currentSource.value, deps.runnerLockSha256.value, deps);
    }
  }

  /** Whatever is handed to the publisher is an accepted claim without blockers; and what its signer
      signed determines it: any other claim that could ever be published under the same trusted key
      with the same signed bytes differs in nothing but the signature text. */
  lemma PublishedClaimsAreSigned(a: Attestation, b: Attestation, depsA: Deps, depsB: Deps)
    requires IsPublishable(Some(a), depsA) && IsPublishable(Some(b), depsB)
    requires depsA.trustedKey == depsB.trustedKey && depsA.crypto == depsB.crypto
    ensures a.actionableBlockers == []
    ensures MessageOf(a) == MessageOf(b) ==> a.(authority := a.authority.(signatureHex := b.authority.signatureHex)) == b
  {
    hide AssessReadiness, MessageOf;
    var (key, crypto) := (depsA.trustedKey.value, depsA.crypto);
    ReadyHasNoBlockers(a, key, depsA.releaseFingerprint, depsA.currentSource.value, crypto);
    if MessageOf(a) == MessageOf(b) {
      SignedBytesFixAcceptedClaim(a, b, key, crypto, depsA.releaseFingerprint, depsB.releaseFingerprint,
                                  depsA.currentSource.value, depsB.currentSource.value);
    }
  }

  lemma ReadyHasNoBlockers(
    claim: Attestation, trustedKey: seq<byte>, releaseFingerprint: Str, expectedSource: Source, crypto: Crypto)
    requires AssessReadiness(claim, trustedKey, releaseFingerprint, expectedSource, crypto).Ok?
    ensures claim.ready <==> claim.actionableBlockers == []
  {
    hide MessageOf, ValidateClaimStructure, ValidateProbeSet, ValidateBlockers, ValidateVerifier,
      ValidateVerifierIndependence, ValidateTrustedVerifierBinding, ValidateAuthorityDomain, ValidateFreshness,
      ValidateSourceBinding, ValidateCanonicalHash, ValidateSignature;
  }
}

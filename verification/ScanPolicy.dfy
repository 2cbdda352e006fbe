/** The inspector's policy, its finding codes and its byte scan:
    `xtask/src/artifact_inspector.rs`. */
module ScanPolicy {
  import opened Prelude
  import Refs

  datatype FindingCode =
    | QuarantinedHash
    | TestControlMarker
    | PrivateBuildPath
    | CredentialMarker
    | ForbiddenPattern
    | EntryLimitExceeded
    | ByteLimitExceeded
    | LinkRejected
    | UnsupportedArchive
    | ExecutableCountMismatch
    | ManifestMissing
    | ManifestMalformed
    | VersionMismatch
    | LicenseMismatch
    | SourceCommitMismatch
    | PlatformMetadataMissing
    | ProvenanceMissing
    | ProvenanceInvalid
    | PreviewAuthorizationMissing
    | PreviewAuthorizationInvalid
    | PreviewAuthorizationBindingMismatch
    | PreviewAuthorizationExpired
    | PreviewAuthorityUntrusted
    | BuildInputHashMissing
    | BuildInputHashMalformed
    | PackagedExecutableHashMissing
    | PackagedExecutableHashMalformed
    | PackagedExecutableHashMismatch
    | ProvenanceCandidateHashMalformed
    | ProvenanceCandidateMismatch
    | ArtifactManifestMissing
    | ArtifactManifestMalformed
    | ArtifactManifestArtifactMismatch
    | ArtifactManifestArtifactHashMismatch

  /** Recorded as evidence, but no obstacle to acceptance. */
  predicate IsEvidenceOnly(code: FindingCode) {
    code.ProvenanceMissing? || code.ProvenanceInvalid? || code.PreviewAuthorizationMissing?
    || code.PreviewAuthorizationInvalid? || code.PreviewAuthorizationBindingMismatch?
    || code.PreviewAuthorizationExpired? || code.PreviewAuthorityUntrusted?
  }

  /** The scan stopped short of the whole artifact. */
  predicate IsIncomplete(code: FindingCode) {
    code.EntryLimitExceeded? || code.ByteLimitExceeded? || code.UnsupportedArchive? || code.ManifestMalformed?
  }

  datatype Policy = Policy(
    schema: Str,
    version: nat,
    maxEntries: u64,
    maxUncompressedBytes: u64,
    expectedLicense: Str,
    expectedVersion: Option<Str>,
    expectedSourceCommit: Option<Str>,
    forbiddenPatterns: seq<Str>,
    testControlEnvironment: seq<Str>)

  const POLICY_SCHEMA := "rutile.artifact-inspector-policy.v1"
  const MAX_POLICY_ENTRIES: nat := 256
  const MAX_POLICY_UNCOMPRESSED_BYTES: nat := 64 * 1024 * 1024

  predicate IsHexDigit(c: byte) {
    Refs.IsDigit(c) || 'a' as int <= c <= 'f' as int || 'A' as int <= c <= 'F' as int
  }

  /** `validate_policy`: the inspector only exists for such a policy. */
  predicate IsValid(policy: Policy) {
    && policy.schema == Bytes(POLICY_SCHEMA)
    && policy.version == 1
    && 0 < policy.maxEntries <= MAX_POLICY_ENTRIES
    && 0 < policy.maxUncompressedBytes <= MAX_POLICY_UNCOMPRESSED_BYTES
    && (exists c :: c in policy.expectedLicense && !IsAsciiWhitespace(c))
    && policy.forbiddenPatterns != []
    && policy.testControlEnvironment != []
    && (forall pattern :: pattern in policy.forbiddenPatterns ==> pattern != [])
    && (policy.expectedSourceCommit.Some? ==>
          && |policy.expectedSourceCommit.value| == 40
          && forall c :: c in policy.expectedSourceCommit.value ==> IsHexDigit(c))
  }

  // ----- Forbidden patterns ------------------------------------------------------------

  predicate ContainsText(s: Str, text: string) {
    Refs.Contains(s, Bytes(text))
  }

  function ClassifyPattern(pattern: Str, testEnvironment: seq<Str>): (code: FindingCode)
    ensures !IsEvidenceOnly(code) && !IsIncomplete(code)
  {
    if pattern in testEnvironment || ContainsText(pattern, "TEST_CONTROL") || ContainsText(pattern, "native-smoke")
    then TestControlMarker
    else if ContainsText(pattern, "/home/") || ContainsText(pattern, "/Users/") || ContainsText(pattern, "/tmp/")
            || ContainsText(pattern, "workspace")
    then PrivateBuildPath
    else if ContainsText(Refs.ToLower(pattern), "token") || ContainsText(Refs.ToLower(pattern), "secret")
            || '@' as int in pattern
    then CredentialMarker
    else ForbiddenPattern
  }

  /** A pattern that looks like a credential is not repeated in the report. */
  function RedactPattern(pattern: Str): Str {
    if ClassifyPattern(pattern, []) == CredentialMarker then Bytes("credential pattern matched") else pattern
  }

  predicate Occurs(bytes: seq<byte>, pattern: Str) {
    pattern != [] && Refs.Contains(bytes, pattern)
  }

  // ----- Credential and e-mail shapes ----------------------------------------------------

  predicate IsTokenByte(c: byte) {
    Refs.IsAlphanumeric(c) || c == '_' as int || c == '-' as int
  }

  predicate IsTokenShapeAt(bytes: seq<byte>, start: nat, prefix: Str, minimum: nat)
    requires start <= |bytes|
  {
    && Refs.StartsWith(bytes[start..], prefix)
    && !(start > 0 && IsTokenByte(bytes[start - 1]))
    && start + minimum <= |bytes|
    && forall i :: start <= i < start + minimum ==> IsTokenByte(bytes[i])
  }

  predicate HasTokenShape(bytes: seq<byte>, prefix: Str, minimum: nat) {
    exists start :: 0 <= start <= |bytes| && IsTokenShapeAt(bytes, start, prefix, minimum)
  }

  predicate IsLocalByte(c: byte) {
    Refs.IsAlphanumeric(c) || c in Bytes("._%+-")
  }

  predicate IsDomainByte(c: byte) {
    Refs.IsAlphanumeric(c) || c in Bytes(".-")
  }

  const IsWordSeparator: byte -> bool := (c: byte) => IsAsciiWhitespace(c) || c in Bytes("<>\"'(),;")

  const AT: byte := '@' as int
  const IsAt: byte -> bool := (c: byte) => c == AT

  /** `word` is an address: its first `@` splits it into a local part and a dotted domain. */
  predicate IsAddress(bytes: seq<byte>, word: Refs.Span)
    requires word.lo <= word.hi <= |bytes|
  {
    var at := Refs.NextSeparator(bytes, word.lo, word.hi, IsAt);
    && word.lo < at < word.hi
    && Refs.DOT in bytes[at + 1..word.hi]
    && (forall i :: word.lo <= i < at ==> IsLocalByte(bytes[i]))
    && (forall i :: at < i < word.hi ==> IsDomainByte(bytes[i]))
  }

  function Words(bytes: seq<byte>): (words: seq<Refs.Span>)
    ensures Refs.IsSplit(bytes, 0, |bytes|, IsWordSeparator, words)
  {
    Refs.SplitIsSplit(bytes, 0, |bytes|, IsWordSeparator);
    Refs.Split(bytes, 0, |bytes|, IsWordSeparator)
  }

  predicate HasAddress(bytes: seq<byte>) {
    var words := Words(bytes);
    exists k :: 0 <= k < |words| && IsAddress(bytes, words[k])
  }

  /** `contains_sensitive_shape`. */
  predicate HasSensitiveShape(bytes: seq<byte>) {
    || HasTokenShape(bytes, Bytes("ghp_"), 24)
    || HasTokenShape(bytes, Bytes("github_pat_"), 28)
    || HasTokenShape(bytes, Bytes("sk-"), 24)
    || HasTokenShape(bytes, Bytes("AKIA"), 16)
    || HasAddress(bytes)
  }

  /** An address written anywhere: delimited on both sides, with an `@` inside. */
  ghost predicate AddressAt(bytes: seq<byte>, lo: nat, at: nat, hi: nat) {
    && lo < at < hi <= |bytes|
    && (lo > 0 ==> IsWordSeparator(bytes[lo - 1]))
    && (hi < |bytes| ==> IsWordSeparator(bytes[hi]))
    && bytes[at] == AT
    && Refs.DOT in bytes[at + 1..hi]
    && (forall i :: lo <= i < at ==> IsLocalByte(bytes[i]))
    && (forall i :: at < i < hi ==> IsDomainByte(bytes[i]))
  }

  lemma AddressBytes(c: byte)
    ensures IsLocalByte(c) || IsDomainByte(c) ==> c != AT && !IsWordSeparator(c)
    ensures !IsWordSeparator(AT)
  {
    var (local, domain, separators) := (Bytes("._%+-"), Bytes(".-"), Bytes("<>\"'(),;"));
    assert local == [46, 95, 37, 43, 45] && domain == [46, 45];
    assert separators == [60, 62, 34, 39, 40, 41, 44, 59];
  }

  /** The word-by-word scan finds an address exactly when one is written somewhere. */
  lemma AddressIsPositional(bytes: seq<byte>)
    ensures HasAddress(bytes) <==> exists lo, at, hi :: AddressAt(bytes, lo, at, hi)
  {
    hide IsAddress, AddressAt, Words;
    if HasAddress(bytes) {
      var k :| 0 <= k < |Words(bytes)| && IsAddress(bytes, Words(bytes)[k]);
      WordIsAddress(bytes, k);
    }
    if lo, at, hi :| AddressAt(bytes, lo, at, hi) {
      var k := AddressIsWord(bytes, lo, at, hi);
    }
  }

  lemma WordIsAddress(bytes: seq<byte>, k: nat)
    requires k < |Words(bytes)| && IsAddress(bytes, Words(bytes)[k])
    ensures var word := Words(bytes)[k];
            AddressAt(bytes, word.lo, Refs.NextSeparator(bytes, word.lo, word.hi, IsAt), word.hi)
  {
    Refs.PiecesAreDelimited(bytes, IsWordSeparator, k);
    hide Words, Bytes;
  }

  lemma AddressIsWord(bytes: seq<byte>, lo: nat, at: nat, hi: nat) returns (k: nat)
    requires AddressAt(bytes, lo, at, hi)
    ensures k < |Words(bytes)| && IsAddress(bytes, Words(bytes)[k])
  {
    forall i | lo <= i < hi ensures !IsWordSeparator(bytes[i]) && (IsAt(bytes[i]) <==> i == at) {
      AddressBytes(bytes[i]);
    }
    k := Refs.DelimitedIsPiece(bytes, IsWordSeparator, lo, hi);
    hide Words, Bytes, IsLocalByte, IsDomainByte;
    assert Refs.NextSeparator(bytes, lo, hi, IsAt) == at;
  }

  /** A token of one of the known services, not inside a longer word. */
  ghost predicate TokenAt(bytes: seq<byte>, prefix: string, minimum: nat, start: nat) {
    && start + minimum <= |bytes|
    && Refs.IsWrittenAt(bytes, prefix, start)
    && (forall i :: start <= i < start + minimum ==> IsWordByte(bytes[i]))
    && (start > 0 ==> !IsWordByte(bytes[start - 1]))
  }

  predicate IsWordByte(c: byte) {
    || '0' as int <= c <= '9' as int || 'a' as int <= c <= 'z' as int || 'A' as int <= c <= 'Z' as int
    || c == '_' as int || c == '-' as int
  }

  lemma TokenShapeIsPositional(bytes: seq<byte>, prefix: string, minimum: nat)
    ensures HasTokenShape(bytes, Bytes(prefix), minimum) <==> exists start: nat :: TokenAt(bytes, prefix, minimum, start)
  {
    forall start: nat | start <= |bytes|
      ensures IsTokenShapeAt(bytes, start, Bytes(prefix), minimum) <==> TokenAt(bytes, prefix, minimum, start)
    {
      Refs.ContainsIsWritten(bytes[start..], prefix);
      assert start + |prefix| <= |bytes| ==> bytes[start..][0..|prefix|] == bytes[start..start + |prefix|];
    }
    hide TokenAt, IsTokenShapeAt;
    if start: nat :| TokenAt(bytes, prefix, minimum, start) {
      assert start <= |bytes| by { TokenIsWithin(bytes, prefix, minimum, start); }
      assert IsTokenShapeAt(bytes, start, Bytes(prefix), minimum);
    }
  }

  lemma TokenIsWithin(bytes: seq<byte>, prefix: string, minimum: nat, start: nat)
    requires TokenAt(bytes, prefix, minimum, start)
    ensures start <= |bytes|
  {
  }

  // ----- What a scan finds ------------------------------------------------------------------

  /** Nothing the scan looks for. */
  predicate IsClean(policy: Policy, bytes: seq<byte>) {
    && (forall pattern :: pattern in policy.forbiddenPatterns ==> !Occurs(bytes, pattern))
    && !HasSensitiveShape(bytes)
  }

  lemma PatternOccurs(bytes: seq<byte>, pattern: Str)
    requires pattern != []
    ensures Occurs(bytes, pattern) <==> exists i :: 0 <= i <= |bytes| && pattern <= bytes[i..]
  {
    assert forall i :: 0 <= i <= |bytes| ==> (Refs.StartsWith(bytes[i..], pattern) <==> pattern <= bytes[i..]);
  }

  /** What clean bytes are, position by position: none of the forbidden patterns stands anywhere, no
      token of a known service and no e-mail address. */
  lemma CleanIsPositional(policy: Policy, bytes: seq<byte>)
    requires IsValid(policy)
    ensures IsClean(policy, bytes) <==>
              && (forall k, i :: 0 <= k < |policy.forbiddenPatterns| && 0 <= i <= |bytes| ==>
                    !(policy.forbiddenPatterns[k] <= bytes[i..]))
              && (forall start: nat ::
                    && !TokenAt(bytes, "ghp_", 24, start) && !TokenAt(bytes, "github_pat_", 28, start)
                    && !TokenAt(bytes, "sk-", 24, start) && !TokenAt(bytes, "AKIA", 16, start))
              && (forall lo, at, hi :: !AddressAt(bytes, lo, at, hi))
  {
    TokenShapeIsPositional(bytes, "ghp_", 24);
    TokenShapeIsPositional(bytes, "github_pat_", 28);
    TokenShapeIsPositional(bytes, "sk-", 24);
    TokenShapeIsPositional(bytes, "AKIA", 16);
    AddressIsPositional(bytes);
    hide TokenAt, AddressAt, HasTokenShape, HasAddress, Bytes, Occurs;
    forall k | 0 <= k < |policy.forbiddenPatterns|
      ensures Occurs(bytes, policy.forbiddenPatterns[k]) <==>
                exists i :: 0 <= i <= |bytes| && policy.forbiddenPatterns[k] <= bytes[i..]
    {
      assert policy.forbiddenPatterns[k] in policy.forbiddenPatterns;
      PatternOccurs(bytes, policy.forbiddenPatterns[k]);
    }
  }

  /** Scanning `bytes` reports `code`. */
  ghost predicate ScanRaises(policy: Policy, bytes: seq<byte>, code: FindingCode) {
    || (exists pattern :: pattern in policy.forbiddenPatterns && Occurs(bytes, pattern)
                          && ClassifyPattern(pattern, policy.testControlEnvironment) == code)
    || (HasSensitiveShape(bytes) && code == CredentialMarker)
  }
}

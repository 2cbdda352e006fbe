/** Preview-publication authorization records: `xtask/src/release_authority.rs`. */
module ReleaseAuthority {
  import opened Prelude
  import Cbor
  import Hex
  import Readiness

  const SCHEMA := "rutile.preview-publication-authorization.v1"
  const PREVIEW_TIER := "preview"
  const PREVIEW_AUTH_DOMAIN := "Rutile Preview Publication Authorization\0v1\0"

  datatype Statement = Statement(
    artifactSha256: Str, provenanceSha256: Str, tier: Str, product: Str, versionLabel: Str, signedAt: Str, expiresAt: Str)

  datatype Record = Record(
    schema: Str,
    version: nat,
    tier: Str,
    product: Str,
    versionLabel: Str,
    artifactSha256: Str,
    provenanceSha256: Str,
    keyFingerprint: Str,
    signingPublicKeyHex: Str,
    signedAt: Str,
    expiresAt: Str,
    canonicalMessageSha256: Str,
    signatureHex: Str)

  datatype AuthorityError = InvalidRecord | TooLarge | BadHex | BadKey

  /** `to_json` is the canonical (sorted-key) serialization, about which nothing is assumed. */
  type ToJson = Statement -> Str

  /** `canonical_message`: the length is refused when it does not fit in 32 bits. */
  function CanonicalMessage(statement: Statement, toJson: ToJson): Result<seq<byte>, AuthorityError> {
    var json := toJson(statement);
    Cbor.Pow256Values();
    if |json| < 0x1_0000_0000 then Ok(Bytes(PREVIEW_AUTH_DOMAIN) + Cbor.BigEndian(|json|, 4) + json)
    else Err(TooLarge)
  }

  function StatementOf(record: Record): Statement {
    Statement(record.artifactSha256, record.provenanceSha256, record.tier, record.product,
              record.versionLabel, record.signedAt, record.expiresAt)
  }

  /** `decode_fixed`: either case of hex digit is read. */
  function DecodeFixed(text: Str, len: nat): Result<seq<byte>, AuthorityError> {
    match Hex.Decode(text)
    case Some(bytes) => if |bytes| == len then Ok(bytes) else Err(BadHex)
    case None => Err(BadHex)
  }

  function WellShaped(record: Record): Result<(), AuthorityError> {
    Need(record.schema == Bytes(SCHEMA) && record.version == 1 && record.tier == Bytes(PREVIEW_TIER)
         && |record.canonicalMessageSha256| == 64 && |record.signatureHex| == 128
         && |record.signingPublicKeyHex| == 64, InvalidRecord)
  }

  /** `verify`. */
  function Verify(record: Record, pinnedKey: seq<byte>, crypto: Readiness.Crypto, toJson: ToJson): Result<(), AuthorityError> {
    var _ :- WellShaped(record);
    var message :- CanonicalMessage(StatementOf(record), toJson);
    var _ :- Need(Hex.Encode(crypto.sha256(message)) == record.canonicalMessageSha256, InvalidRecord);
    var key :- DecodeFixed(record.signingPublicKeyHex, 32);
    var _ :- Need(key == pinnedKey, InvalidRecord);
    var _ :- Need(record.keyFingerprint == Hex.Encode(crypto.sha256(pinnedKey)), InvalidRecord);
    var signature :- DecodeFixed(record.signatureHex, 64);
    var _ :- Need(crypto.validKey(pinnedKey), BadKey);
    Need(crypto.verifies(pinnedKey, message, signature), InvalidRecord)
  }

  /** The domain, the length in four bytes, most significant first, and the text. */
  ghost function Framed(json: Str): (message: seq<byte>)
    requires |json| < 0x1_0000_0000
  {
    Bytes("Rutile Preview Publication Authorization\0v1\0")
    + [|json| / 0x100_0000, |json| / 0x1_0000 % 0x100, |json| / 0x100 % 0x100, |json| % 0x100] + json
  }

  lemma MessageIsFramed(statement: Statement, toJson: ToJson)
    ensures CanonicalMessage(statement, toJson).Ok? <==> |toJson(statement)| < 0x1_0000_0000
    ensures CanonicalMessage(statement, toJson).Ok? ==> CanonicalMessage(statement, toJson).value == Framed(toJson(statement))
  {
    Cbor.Pow256Values();
    var n := |toJson(statement)|;
    if n < 0x1_0000_0000 {
      assert n / 0x100 / 0x100 == n / 0x1_0000 && n / 0x1_0000 / 0x100 == n / 0x100_0000;
      assert Cbor.Pow256(3) == 0x100_0000;
      assert Cbor.BigEndian(n / 0x100_0000, 1) == [n / 0x100_0000];
      assert Cbor.BigEndian(n / 0x1_0000, 2) == [n / 0x100_0000, n / 0x1_0000 % 0x100];
      assert Cbor.BigEndian(n / 0x100, 3) == [n / 0x100_0000, n / 0x1_0000 % 0x100, n / 0x100 % 0x100];
      assert Cbor.BigEndian(n, 4) == [n / 0x100_0000, n / 0x1_0000 % 0x100, n / 0x100 % 0x100, n % 0x100];
    }
  }

  /** What a verified record is: of the schema and the preview tier, naming the pinned key, and carrying a
      signature by that key over exactly its own seven statement fields. */
  ghost predicate Verified(record: Record, pinnedKey: seq<byte>, crypto: Readiness.Crypto, toJson: ToJson) {
    && record.schema == Bytes("rutile.preview-publication-authorization.v1") && record.version == 1
    && record.tier == Bytes("preview")
    && |record.canonicalMessageSha256| == 64 && |record.signatureHex| == 128
    && var json := toJson(Statement(record.artifactSha256, record.provenanceSha256, record.tier, record.product,
                                    record.versionLabel, record.signedAt, record.expiresAt));
    && |json| < 0x1_0000_0000
    && var message := Framed(json);
    && record.canonicalMessageSha256 == Hex.Encode(crypto.sha256(message))
    && |pinnedKey| == 32 && crypto.validKey(pinnedKey)
    && Hex.Decode(record.signingPublicKeyHex) == Some(pinnedKey)
    && record.keyFingerprint == Hex.Encode(crypto.sha256(pinnedKey))
    && exists signature ::
         && |signature| == 64
         && Hex.Decode(record.signatureHex) == Some(signature)
         && crypto.verifies(pinnedKey, message, signature)
  }

  lemma VerifyIsExact(record: Record, pinnedKey: seq<byte>, crypto: Readiness.Crypto, toJson: ToJson)
    ensures Verify(record, pinnedKey, crypto, toJson).Ok? <==> Verified(record, pinnedKey, crypto, toJson)
  {
    MessageIsFramed(StatementOf(record), toJson);
    hide Bytes, CanonicalMessage, Framed, Hex.Encode, Hex.Decode;
    if Verify(record, pinnedKey, crypto, toJson).Ok? {
      var signature := DecodeFixed(record.signatureHex, 64).value;
      assert |signature| == 64 && Hex.Decode(record.signatureHex) == Some(signature);
    }
  }

  // ----- Signing ---------------------------------------------------------------------------------

  /** A key pair, by its public key and what it signs. */
  datatype Signer = Signer(publicKey: seq<byte>, sign: seq<byte> -> seq<byte>)

  /** `sign`. */
  function Sign(statement: Statement, signer: Signer, crypto: Readiness.Crypto, toJson: ToJson): Result<Record, AuthorityError> {
    var message :- CanonicalMessage(statement, toJson);
    Ok(Record(
      Bytes(SCHEMA), 1, statement.tier, statement.product, statement.versionLabel, statement.artifactSha256,
      statement.provenanceSha256, Hex.Encode(crypto.sha256(signer.publicKey)), Hex.Encode(signer.publicKey),
      statement.signedAt, statement.expiresAt, Hex.Encode(crypto.sha256(message)), Hex.Encode(signer.sign(message))))
  }

  /** Keys, digests and signatures have their lengths, and what the pair signs verifies under its key. */
  ghost predicate IsSigner(signer: Signer, crypto: Readiness.Crypto) {
    && |signer.publicKey| == 32 && crypto.validKey(signer.publicKey)
    && forall message: seq<byte> ::
         && |crypto.sha256(message)| == 32
         && |signer.sign(message)| == 64
         && crypto.verifies(signer.publicKey, message, signer.sign(message))
  }

  /** What is signed verifies under the signer's key exactly when its statement is of the preview tier,
      which signing does not look at. */
  lemma SignedVerifies(statement: Statement, signer: Signer, crypto: Readiness.Crypto, toJson: ToJson)
    requires IsSigner(signer, crypto) && Sign(statement, signer, crypto, toJson).Ok?
    ensures Verify(Sign(statement, signer, crypto, toJson).value, signer.publicKey, crypto, toJson).Ok? <==>
              statement.tier == Bytes("preview")
  {
    var message := CanonicalMessage(statement, toJson).value;
    Hex.DecodeEncode(signer.publicKey);
    Hex.DecodeEncode(signer.sign(message));
    assert |crypto.sha256(message)| == 32;
    hide Bytes, CanonicalMessage, Hex.Encode, Hex.Decode;
  }

  ghost predicate IsInjective(toJson: ToJson) {
    forall a, b :: toJson(a) == toJson(b) ==> a == b
  }

  lemma MessageEndsInText(statement: Statement, toJson: ToJson)
    requires CanonicalMessage(statement, toJson).Ok?
    ensures var message := CanonicalMessage(statement, toJson).value;
            |message| >= |PREVIEW_AUTH_DOMAIN| + 4 && message[|PREVIEW_AUTH_DOMAIN| + 4..] == toJson(statement)
  {
    MessageIsFramed(statement, toJson);
    hide Bytes, CanonicalMessage;
  }

  /** When different statements are written differently, one message is signed for one statement only:
      verified records over the same message agree in all seven statement fields. */
  lemma MessageFixesStatement(
      a: Record, b: Record, keyA: seq<byte>, keyB: seq<byte>, crypto: Readiness.Crypto, toJson: ToJson)
    requires IsInjective(toJson)
    requires Verify(a, keyA, crypto, toJson).Ok? && Verify(b, keyB, crypto, toJson).Ok?
    requires CanonicalMessage(StatementOf(a), toJson) == CanonicalMessage(StatementOf(b), toJson)
    ensures a.artifactSha256 == b.artifactSha256 && a.provenanceSha256 == b.provenanceSha256
    ensures a.tier == b.tier && a.product == b.product && a.versionLabel == b.versionLabel
    ensures a.signedAt == b.signedAt && a.expiresAt == b.expiresAt
  {
    MessageEndsInText(StatementOf(a), toJson);
    MessageEndsInText(StatementOf(b), toJson);
    hide Bytes, Hex.Encode, Hex.Decode, WellShaped, DecodeFixed, CanonicalMessage;
  }

  /** No bytes are both a readiness message and a preview-authorization message, so a signature
      under one domain never serves the other. */
  lemma DomainsAreDisjoint(claim: Readiness.Attestation, statement: Statement, toJson: ToJson)
    ensures CanonicalMessage(statement, toJson).Ok? ==>
              CanonicalMessage(statement, toJson).value != Readiness.MessageOf(claim)
  {
    var (readiness, preview) := (Bytes(Readiness.READINESS_DOMAIN), Bytes(PREVIEW_AUTH_DOMAIN));
    assert readiness[7] == 'I' as int && preview[7] == 'P' as int;
    assert Readiness.MessageOf(claim)[7] == readiness[7];
    if CanonicalMessage(statement, toJson).Ok? {
      assert CanonicalMessage(statement, toJson).value[7] == preview[7];
    }
  }
}

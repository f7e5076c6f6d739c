/** Node-manifest signing of `botnet.go.old/src/internal/crypto/manifest.go`.
    `marshal` stands for `json.Marshal` of a manifest; it is a parameter and
    is never assumed to fail. */
module Manifest {
  import opened Wrappers
  import opened Types
  import GoStrings
  import GoTime
  import Keys

  /** `CreateManifestSignaturePayload`: the marshalled copy of the manifest
      with every field but the signature. */
  function SigningPayload(marshal: NodeManifest -> string, m: NodeManifest): string {
    marshal(m.(signature := ""))
  }

  /** The signature does not enter the payload; every other field does
      whenever the marshaller is injective. */
  lemma PayloadIgnoresSignature(marshal: NodeManifest -> string, m1: NodeManifest, m2: NodeManifest)
    requires forall a, b :: marshal(a) == marshal(b) ==> a == b
    ensures SigningPayload(marshal, m1) == SigningPayload(marshal, m2) <==>
      m1.(signature := m2.signature) == m2
  {
    if SigningPayload(marshal, m1) == SigningPayload(marshal, m2) {
      assert m1.(signature := "") == m2.(signature := "");
    }
  }

  const KeyPrefix: string := "ed25519:"

  /** `FormatNodePublicKey`. */
  function FormatNodePublicKey(publicKeyBase64: string): (r: string)
    ensures |r| == |KeyPrefix| + |publicKeyBase64|
    ensures GoStrings.HasPrefix(r, KeyPrefix) && r[|KeyPrefix|..] == publicKeyBase64
  {
    KeyPrefix + publicKeyBase64
  }

  /** The key text a manifest's public key is read from: the part after
      "ed25519:" when the field is longer than the prefix and starts with
      it, otherwise the whole field. */
  function StripKeyPrefix(publicKey: string): (r: string)
    ensures |publicKey| > |KeyPrefix| && GoStrings.HasPrefix(publicKey, KeyPrefix) ==>
      publicKey == KeyPrefix + r
    ensures !(|publicKey| > |KeyPrefix| && GoStrings.HasPrefix(publicKey, KeyPrefix)) ==> r == publicKey
  {
    if |publicKey| > |KeyPrefix| && publicKey[..|KeyPrefix|] == KeyPrefix then publicKey[|KeyPrefix|..]
    else publicKey
  }

  /** Stripping undoes formatting for a non-empty key; an empty key's
      formatted text is exactly the prefix, which is kept whole. */
  lemma StripFormat(k: string)
    ensures k != "" ==> StripKeyPrefix(FormatNodePublicKey(k)) == k
    ensures StripKeyPrefix(FormatNodePublicKey("")) == KeyPrefix
  {
    assert FormatNodePublicKey("") == KeyPrefix;
  }

  /** `SignNodeManifest`: the manifest is stamped with `now`, then its
      payload is signed; no other field changes. `ed25519.Sign` panics on a
      private key of the wrong length, which is the `Err` outcome. */
  function SignNodeManifest(p: Keys.Primitives, marshal: NodeManifest -> string, m: NodeManifest, privateKey: string, now: int)
    : (r: Result<NodeManifest, Keys.KeyPanic>)
    ensures r.Err? <==> |privateKey| != Keys.PrivateKeySize
    ensures r.Err? ==> r.error == Keys.BadKeyLength(|privateKey|)
    ensures r.Ok? ==>
      && r.value.updatedAt == now
      && r.value.(updatedAt := m.updatedAt, signature := m.signature) == m
      && r.value.signature == p.encode(p.sign(privateKey, SigningPayload(marshal, r.value)))
  {
    if |privateKey| != Keys.PrivateKeySize then Err(Keys.BadKeyLength(|privateKey|))
    else
      var stamped := m.(updatedAt := now);
      Ok(stamped.(signature := p.encode(p.sign(privateKey, SigningPayload(marshal, stamped)))))
  }

  datatype VerifyError =
    | NoSignature
    | NoPublicKey
    | KeyDecode(reason: Keys.KeyError)
    | SignatureDecode
    | Invalid

  /** `VerifyNodeManifestSignature`; `None` means valid. The two empty
      fields are rejected, signature first, before anything is decoded. The
      decoded key has 32 bytes, so `ed25519.Verify` cannot panic here. */
  function VerifyNodeManifestSignature(p: Keys.Primitives, marshal: NodeManifest -> string, m: NodeManifest)
    : (r: Option<VerifyError>)
    ensures m.signature == "" ==> r == Some(NoSignature)
    ensures m.signature != "" && m.publicKey == "" ==> r == Some(NoPublicKey)
    ensures r.None? <==> (m.signature != "" && m.publicKey != ""
      && Keys.PublicKeyFromBase64(p, StripKeyPrefix(m.publicKey)).Ok?
      && p.decode(m.signature).Some?
      && p.verify(Keys.PublicKeyFromBase64(p, StripKeyPrefix(m.publicKey)).value,
                  SigningPayload(marshal, m), p.decode(m.signature).value))
  {
    if m.signature == "" then Some(NoSignature)
    else if m.publicKey == "" then Some(NoPublicKey)
    else match Keys.PublicKeyFromBase64(p, StripKeyPrefix(m.publicKey))
      case Err(e) => Some(KeyDecode(e))
      case Ok(key) => match p.decode(m.signature)
        case None => Some(SignatureDecode)
        case Some(sig) => if p.verify(key, SigningPayload(marshal, m), sig) then None else Some(Invalid)
  }

  datatype ValidateError =
    | ManifestNil
    | MissingNodeId
    | MissingPublicKey
    | MissingSignature
    | TooOld
    | TooFarInFuture
    | Unverified(cause: VerifyError)

  const MaxAge: int := 7 * 24 * GoTime.Hour
  const MaxFuture: int := 10 * GoTime.Minute

  /** `ValidateNodeManifestWithTimestamp`; `manifest` is `None` for a nil
      manifest. The checks run in order: nil, node ID, public key, signature,
      age, future skew, and only then the signature itself. */
  function ValidateNodeManifest(p: Keys.Primitives, marshal: NodeManifest -> string, manifest: Option<NodeManifest>, now: int)
    : (r: Option<ValidateError>)
    ensures manifest.None? ==> r == Some(ManifestNil)
    ensures manifest.Some? ==> var m := manifest.value;
      && (m.nodeId == "" ==> r == Some(MissingNodeId))
      && (m.nodeId != "" && m.publicKey == "" ==> r == Some(MissingPublicKey))
      && (m.nodeId != "" && m.publicKey != "" && m.signature == "" ==> r == Some(MissingSignature))
      && (m.nodeId != "" && m.publicKey != "" && m.signature != "" && now - m.updatedAt > MaxAge ==> r == Some(TooOld))
      && ((m.nodeId != "" && m.publicKey != "" && m.signature != "" && now - m.updatedAt <= MaxAge
           && m.updatedAt - now > MaxFuture) ==> r == Some(TooFarInFuture))
    ensures r.None? <==> (manifest.Some? && manifest.value.nodeId != ""
      && -MaxFuture <= now - manifest.value.updatedAt <= MaxAge
      && VerifyNodeManifestSignature(p, marshal, manifest.value).None?)
  {
    match manifest
    case None => Some(ManifestNil)
    case Some(m) =>
      if m.nodeId == "" then Some(MissingNodeId)
      else if m.publicKey == "" then Some(MissingPublicKey)
      else if m.signature == "" then Some(MissingSignature)
      else if now - m.updatedAt > MaxAge then Some(TooOld)
      else if m.updatedAt - now > MaxFuture then Some(TooFarInFuture)
      else match VerifyNodeManifestSignature(p, marshal, m)
        case Some(e) => Some(Unverified(e))
        case None => None
  }

  /** A manifest that advertises its node's formatted public key and is
      signed with the matching private key validates for as long as it is
      at most a week old and at most ten minutes ahead, both bounds
      included. */
  lemma SignedManifestValidates(p: Keys.Primitives, marshal: NodeManifest -> string, kp: Keys.KeyPair,
                                m: NodeManifest, signedAt: int, now: int)
    requires Keys.Sound(p) && Keys.WellFormed(p, kp)
    requires m.nodeId != "" && m.publicKey == FormatNodePublicKey(p.encode(kp.publicKey))
    requires -MaxFuture <= now - signedAt <= MaxAge
    ensures SignNodeManifest(p, marshal, m, kp.privateKey, signedAt).Ok?
    ensures ValidateNodeManifest(p, marshal, Some(SignNodeManifest(p, marshal, m, kp.privateKey, signedAt).value), now) == None
  {
    var signed := SignNodeManifest(p, marshal, m, kp.privateKey, signedAt).value;
    var sig := p.sign(kp.privateKey, SigningPayload(marshal, signed));
    assert |sig| == Keys.SignatureSize;
    assert signed.signature != "";
    assert |kp.publicKey| == Keys.PublicKeySize;
    assert p.encode(kp.publicKey) != "";
    StripFormat(p.encode(kp.publicKey));
    Keys.KeysRoundTrip(p, kp);
  }

  /** The timestamp window of the manifest test: eight days old or fifteen
      minutes ahead fails before the signature is looked at. */
  lemma StaleOrFutureManifestRejected(p: Keys.Primitives, marshal: NodeManifest -> string, m: NodeManifest, now: int)
    requires m.nodeId != "" && m.publicKey != "" && m.signature != ""
    ensures ValidateNodeManifest(p, marshal, Some(m.(updatedAt := now - 8 * 24 * GoTime.Hour)), now) == Some(TooOld)
    ensures ValidateNodeManifest(p, marshal, Some(m.(updatedAt := now + 15 * GoTime.Minute)), now) == Some(TooFarInFuture)
  {
  }
}

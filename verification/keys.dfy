/** The Ed25519 key helpers of `botnet.go.old/src/internal/crypto/keys.go`.
    Signing, verification and base64 are not interpreted: they are the
    fields of a `Primitives` value, and a byte string is a `string` whose
    characters stand for bytes. What the proofs need of them is `Sound`. */
module Keys {
  import opened Wrappers

  /** `crypto/ed25519` and `encoding/base64` as uninterpreted functions;
      `publicOf` is the public half of a private key. */
  datatype Primitives = Primitives(
    encode: string -> string,
    decode: string -> Option<string>,
    sign: (string, string) -> string,
    verify: (string, string, string) -> bool,
    publicOf: string -> string)

  const PublicKeySize: int := 32
  const PrivateKeySize: int := 64
  const SignatureSize: int := 64

  /** The laws of base64 and Ed25519 the round-trip lemmas rely on: decoding
      undoes encoding, a non-empty byte string encodes to a non-empty text,
      signatures and public keys have their sizes, and a signature verifies
      under the signer's public key. */
  ghost predicate Sound(p: Primitives) {
    && (forall x :: p.decode(p.encode(x)) == Some(x))
    && (forall x :: x != "" ==> p.encode(x) != "")
    && (forall sk, m :: |p.sign(sk, m)| == SignatureSize)
    && (forall sk :: |p.publicOf(sk)| == PublicKeySize)
    && (forall sk, m :: p.verify(p.publicOf(sk), m, p.sign(sk, m)))
  }

  datatype KeyPair = KeyPair(publicKey: string, privateKey: string)

  /** A key pair as `GenerateKeyPair` makes it. */
  predicate WellFormed(p: Primitives, kp: KeyPair) {
    |kp.privateKey| == PrivateKeySize && kp.publicKey == p.publicOf(kp.privateKey)
  }

  datatype KeyError = NotBase64 | WrongLength(got: int)

  /** A run-time panic of `crypto/ed25519`: `Sign` panics on a private key
      that is not 64 bytes long and `Verify` on a public key that is not 32
      bytes long, instead of returning an error. */
  datatype KeyPanic = BadKeyLength(got: int)

  /** `PublicKeyFromBase64`: the decoded bytes, which must be 32 of them. */
  function PublicKeyFromBase64(p: Primitives, encoded: string): (r: Result<string, KeyError>)
    ensures p.decode(encoded).None? ==> r == Err(NotBase64)
    ensures p.decode(encoded).Some? ==>
      (r.Ok? <==> |p.decode(encoded).value| == PublicKeySize)
    ensures r.Ok? ==> r.value == p.decode(encoded).value
  {
    match p.decode(encoded)
    case None => Err(NotBase64)
    case Some(bytes) => if |bytes| != PublicKeySize then Err(WrongLength(|bytes|)) else Ok(bytes)
  }

  /** `PrivateKeyFromBase64`: the decoded bytes, which must be 64 of them. */
  function PrivateKeyFromBase64(p: Primitives, encoded: string): (r: Result<string, KeyError>)
    ensures p.decode(encoded).None? ==> r == Err(NotBase64)
    ensures p.decode(encoded).Some? ==>
      (r.Ok? <==> |p.decode(encoded).value| == PrivateKeySize)
    ensures r.Ok? ==> r.value == p.decode(encoded).value
  {
    match p.decode(encoded)
    case None => Err(NotBase64)
    case Some(bytes) => if |bytes| != PrivateKeySize then Err(WrongLength(|bytes|)) else Ok(bytes)
  }

  /** Encoding a well-formed pair's keys and decoding them gives them back. */
  lemma KeysRoundTrip(p: Primitives, kp: KeyPair)
    requires Sound(p) && WellFormed(p, kp)
    ensures PublicKeyFromBase64(p, p.encode(kp.publicKey)) == Ok(kp.publicKey)
    ensures PrivateKeyFromBase64(p, p.encode(kp.privateKey)) == Ok(kp.privateKey)
  {
  }
}

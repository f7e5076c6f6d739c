/** Message signing of `botnet.go.old/src/internal/crypto/signing.go`: the
    canonical payload "author|text|unix seconds", signing with a default
    timestamp, and the ordered checks before a signature is verified. */
module Signing {
  import opened Wrappers
  import opened Types
  import GoStrings
  import GoTime
  import Strconv
  import Keys

  /** `CreateCanonicalPayload`: the author, the text and the timestamp's
      whole Unix seconds, separated by '|'. */
  function CanonicalPayload(m: Message): string {
    m.authorId + "|" + m.text + "|" + Strconv.Itoa(GoTime.Unix(m.timestamp))
  }

  /** The payload splits back into author, text and seconds when neither
      the author nor the text holds a '|'. */
  lemma PayloadSplits(m: Message)
    requires '|' !in m.authorId && '|' !in m.text
    ensures GoStrings.Split(CanonicalPayload(m), '|') ==
      [m.authorId, m.text, Strconv.Itoa(GoTime.Unix(m.timestamp))]
  {
    var digits := Strconv.Itoa(GoTime.Unix(m.timestamp));
    Strconv.ItoaBytes(GoTime.Unix(m.timestamp));
    assert '|' !in digits by {
      forall i | 0 <= i < |digits| ensures digits[i] != '|' {
      }
    }
    assert CanonicalPayload(m) == m.authorId + ['|'] + (m.text + ['|'] + digits);
    GoStrings.SplitCons(m.authorId, '|', m.text + ['|'] + digits);
    GoStrings.SplitCons(m.text, '|', digits);
    GoStrings.SplitWhole(digits, '|');
  }

  /** For authors and texts without '|', two messages have the same
      payload exactly when they agree on author, text and whole second; no
      other field (ID, type, recipient, signature, sub-second time) counts. */
  lemma PayloadDeterminesSignedFields(m1: Message, m2: Message)
    requires '|' !in m1.authorId && '|' !in m1.text && '|' !in m2.authorId && '|' !in m2.text
    ensures CanonicalPayload(m1) == CanonicalPayload(m2) <==>
      m1.authorId == m2.authorId && m1.text == m2.text && GoTime.Unix(m1.timestamp) == GoTime.Unix(m2.timestamp)
  {
    if CanonicalPayload(m1) == CanonicalPayload(m2) {
      PayloadSplits(m1);
      PayloadSplits(m2);
      var s1 := [m1.authorId, m1.text, Strconv.Itoa(GoTime.Unix(m1.timestamp))];
      var s2 := [m2.authorId, m2.text, Strconv.Itoa(GoTime.Unix(m2.timestamp))];
      assert s1 == s2;
      assert s1[2] == s2[2];
      Strconv.ItoaInjective(GoTime.Unix(m1.timestamp), GoTime.Unix(m2.timestamp));
    }
  }

  lemma UnixExample()
    ensures GoTime.Unix(GoTime.FromUnix(1640995200)) == 1640995200
  {
  }

  /** The payload of the message in the canonical-payload test. */
  lemma CanonicalPayloadExample(m: Message)
    requires m.authorId == "test-agent" && m.text == "Test message content"
    requires m.timestamp == GoTime.FromUnix(1640995200)
    ensures CanonicalPayload(m) == "test-agent" + "|" + "Test message content" + "|" + "1640995200"
  {
    UnixExample();
    Strconv.ItoaExample();
  }

  /** `SignMessage`: a zero timestamp is replaced by `now`, then the
      signature is the encoded signature of the canonical payload; nothing
      else changes. `ed25519.Sign` panics on a private key of the wrong
      length, which is the `Err` outcome. */
  function SignMessage(p: Keys.Primitives, m: Message, privateKey: string, now: int): (r: Result<Message, Keys.KeyPanic>)
    ensures r.Err? <==> |privateKey| != Keys.PrivateKeySize
    ensures r.Err? ==> r.error == Keys.BadKeyLength(|privateKey|)
    ensures r.Ok? ==>
      && r.value.timestamp == (if GoTime.IsZero(m.timestamp) then now else m.timestamp)
      && r.value.(signature := m.signature, timestamp := m.timestamp) == m
      && r.value.signature == p.encode(p.sign(privateKey, CanonicalPayload(r.value)))
  {
    if |privateKey| != Keys.PrivateKeySize then Err(Keys.BadKeyLength(|privateKey|))
    else
      var stamped := if GoTime.IsZero(m.timestamp) then m.(timestamp := now) else m;
      Ok(stamped.(signature := p.encode(p.sign(privateKey, CanonicalPayload(stamped)))))
  }

  datatype SignatureError =
    | MessageNil
    | MissingAuthor
    | MissingSignature
    | TooOld
    | TooFarInFuture
    | BadPublicKey(reason: Keys.KeyError)
    | NoSignature
    | BadSignatureEncoding
    | InvalidSignature

  /** `VerifyMessageSignature`; `Ok(None)` means the signature is valid. An
      empty signature is rejected before anything is decoded, and
      `ed25519.Verify` panics (the `Err` outcome) on a public key of the
      wrong length once the signature has decoded. */
  function VerifyMessageSignature(p: Keys.Primitives, m: Message, publicKey: string)
    : (r: Result<Option<SignatureError>, Keys.KeyPanic>)
    ensures m.signature == "" ==> r == Ok(Some(NoSignature))
    ensures m.signature != "" && p.decode(m.signature).None? ==> r == Ok(Some(BadSignatureEncoding))
    ensures r.Err? <==> (m.signature != "" && p.decode(m.signature).Some? && |publicKey| != Keys.PublicKeySize)
    ensures r.Err? ==> r.error == Keys.BadKeyLength(|publicKey|)
    ensures r == Ok(None) <==> (m.signature != "" && p.decode(m.signature).Some?
      && |publicKey| == Keys.PublicKeySize
      && p.verify(publicKey, CanonicalPayload(m), p.decode(m.signature).value))
  {
    if m.signature == "" then Ok(Some(NoSignature))
    else match p.decode(m.signature)
      case None => Ok(Some(BadSignatureEncoding))
      case Some(sig) =>
        if |publicKey| != Keys.PublicKeySize then Err(Keys.BadKeyLength(|publicKey|))
        else if p.verify(publicKey, CanonicalPayload(m), sig) then Ok(None) else Ok(Some(InvalidSignature))
  }

  const MaxAge: int := 24 * GoTime.Hour
  const MaxFuture: int := 5 * GoTime.Minute

  /** `ValidateMessageSignature`; `message` is `None` for a nil message. The
      checks run in order: nil, author, signature, age, future skew, key
      decoding, and only then the signature itself. */
  function ValidateMessageSignature(p: Keys.Primitives, message: Option<Message>, publicKeyBase64: string, now: int)
    : (r: Option<SignatureError>)
    ensures message.None? ==> r == Some(MessageNil)
    ensures message.Some? ==> var m := message.value;
      && (m.authorId == "" ==> r == Some(MissingAuthor))
      && (m.authorId != "" && m.signature == "" ==> r == Some(MissingSignature))
      && (m.authorId != "" && m.signature != "" && now - m.timestamp > MaxAge ==> r == Some(TooOld))
      && (m.authorId != "" && m.signature != "" && now - m.timestamp <= MaxAge && m.timestamp - now > MaxFuture
          ==> r == Some(TooFarInFuture))
    ensures r.None? <==> (message.Some? && message.value.authorId != "" && message.value.signature != ""
      && -MaxFuture <= now - message.value.timestamp <= MaxAge
      && Keys.PublicKeyFromBase64(p, publicKeyBase64).Ok?
      && VerifyMessageSignature(p, message.value, Keys.PublicKeyFromBase64(p, publicKeyBase64).value) == Ok(None))
  {
    match message
    case None => Some(MessageNil)
    case Some(m) =>
      if m.authorId == "" then Some(MissingAuthor)
      else if m.signature == "" then Some(MissingSignature)
      else if now - m.timestamp > MaxAge then Some(TooOld)
      else if m.timestamp - now > MaxFuture then Some(TooFarInFuture)
      else match Keys.PublicKeyFromBase64(p, publicKeyBase64)
        case Err(e) => Some(BadPublicKey(e))
        case Ok(key) =>
          // The decoded key has 32 bytes, so `ed25519.Verify` cannot panic here.
          match VerifyMessageSignature(p, m, key)
          case Ok(verdict) => verdict
          case Err(_) => assert false; Some(InvalidSignature)
  }

  /** A message signed with a well-formed key pair validates against the
      encoded public key for as long as its timestamp is at most 24 hours
      old and at most 5 minutes ahead, both bounds included. */
  lemma SignedMessageValidates(p: Keys.Primitives, kp: Keys.KeyPair, m: Message, signedAt: int, now: int)
    requires Keys.Sound(p) && Keys.WellFormed(p, kp) && m.authorId != ""
    requires var t := SignMessage(p, m, kp.privateKey, signedAt).value.timestamp;
      -MaxFuture <= now - t <= MaxAge
    ensures SignMessage(p, m, kp.privateKey, signedAt).Ok?
    ensures ValidateMessageSignature(p, Some(SignMessage(p, m, kp.privateKey, signedAt).value), p.encode(kp.publicKey), now) == None
  {
    var signed := SignMessage(p, m, kp.privateKey, signedAt).value;
    var sig := p.sign(kp.privateKey, CanonicalPayload(signed));
    assert |sig| == Keys.SignatureSize;
    assert sig != "";
    assert signed.signature != "";
    Keys.KeysRoundTrip(p, kp);
  }
}

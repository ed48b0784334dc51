/**
 * `CryptoEngine.encryptSymmetric` / `decryptSymmetric` / `getEncryptionPublicKey`:
 * a short message boxed for the holder of a Curve25519 secret key, carried as
 * three base64 fields. The box itself is the abstract `Nacl` primitive; what is
 * modelled is the plumbing of keys, nonces and encodings and the error exits.
 */
module PublicKeyBox {
  import opened Wrappers
  import opened Buffers
  import opened Primitives

  /** `EthEncryptedData`: the three base64 fields of a boxed message. */
  datatype EthEncryptedData = EthEncryptedData(nonce: string, ephemPublicKey: string, ciphertext: string)

  /** The exceptions these operations throw or let escape. */
  datatype BoxError =
    | BadPublicKey       // "Bad public key": the recipient key is not base64
    | BadPublicKeySize   // tweetnacl's "bad public key size"
    | BadSecretKeySize   // tweetnacl's "bad secret key size"
    | BadNonceSize       // tweetnacl's "bad nonce size"
    | InvalidBase64      // thrown by base64.decode on a field of the message
    | DecryptionFailed   // "Decryption failed."

  /** The primitives these operations call. */
  datatype BoxEngine = BoxEngine(utf8: Utf8, base64: Base64, nacl: Nacl)

  ghost predicate BoxEngineLaws(b: BoxEngine)
  {
    TextCodecLaws(b.utf8) && Base64Laws(b.base64) && NaclLaws(b.nacl)
  }

  /** `getEncryptionPublicKey(privateKey)`: the base64 public key of the secret
      key written in hex. */
  function GetEncryptionPublicKey(b: BoxEngine, privateKey: string): (r: Result<string, BoxError>)
    ensures r.Failure? <==> |HexDecode(privateKey)| != BoxSecretKeyLength
    ensures r.Failure? ==> r.error == BadSecretKeySize
    ensures r.Success? && Base64Laws(b.base64) ==>
      b.base64.decode(r.value) == Some(b.nacl.publicKeyOf(HexDecode(privateKey)))
  {
    var secretKey := HexDecode(privateKey);
    if |secretKey| != BoxSecretKeyLength then Failure(BadSecretKeySize)
    else Success(b.base64.encode(b.nacl.publicKeyOf(secretKey)))
  }

  /**
   * `encryptSymmetric(publicKey, data)`, with the ephemeral secret key of
   * `nacl.box.keyPair()` and the nonce of `nacl.randomBytes(24)` passed in.
   */
  function EncryptSymmetric(b: BoxEngine, publicKey: string, data: string, ephemeralSecret: Bytes, nonce: Bytes)
    : (r: Result<EthEncryptedData, BoxError>)
    requires |ephemeralSecret| == BoxSecretKeyLength && |nonce| == BoxNonceLength
    ensures r == Failure(BadPublicKey) <==> b.base64.decode(publicKey).None?
    ensures r == Failure(BadPublicKeySize) <==>
      b.base64.decode(publicKey).Some? && |b.base64.decode(publicKey).value| != BoxPublicKeyLength
    ensures r.Success? <==>
      b.base64.decode(publicKey).Some? && |b.base64.decode(publicKey).value| == BoxPublicKeyLength
    ensures r.Success? && Base64Laws(b.base64) ==>
      && b.base64.decode(r.value.nonce) == Some(nonce)
      && b.base64.decode(r.value.ephemPublicKey) == Some(b.nacl.publicKeyOf(ephemeralSecret))
      && b.base64.decode(r.value.ciphertext)
         == Some(b.nacl.box(b.utf8.encode(data), nonce, b.base64.decode(publicKey).value, ephemeralSecret))
  {
    match b.base64.decode(publicKey)
    case None => Failure(BadPublicKey)
    case Some(recipient) =>
      if |recipient| != BoxPublicKeyLength then Failure(BadPublicKeySize)
      else
        var encrypted := b.nacl.box(b.utf8.encode(data), nonce, recipient, ephemeralSecret);
        Success(EthEncryptedData(
          b.base64.encode(nonce),
          b.base64.encode(b.nacl.publicKeyOf(ephemeralSecret)),
          b.base64.encode(encrypted)))
  }

  /** The three fields decode as base64. */
  predicate FieldsDecode(b: BoxEngine, encryptedData: EthEncryptedData)
  {
    && b.base64.decode(encryptedData.nonce).Some?
    && b.base64.decode(encryptedData.ciphertext).Some?
    && b.base64.decode(encryptedData.ephemPublicKey).Some?
  }

  /** Every check before `box.open` passes: the secret key is 32 bytes, the
      fields decode, the ephemeral public key is 32 bytes and the nonce 24. */
  predicate ChecksPass(b: BoxEngine, encryptedData: EthEncryptedData, privateKey: string)
  {
    && |HexDecode(privateKey)| == BoxSecretKeyLength
    && FieldsDecode(b, encryptedData)
    && |b.base64.decode(encryptedData.ephemPublicKey).value| == BoxPublicKeyLength
    && |b.base64.decode(encryptedData.nonce).value| == BoxNonceLength
  }

  /** What `box.open` yields once the checks pass; `None` is its `null`. */
  function Unboxed(b: BoxEngine, encryptedData: EthEncryptedData, privateKey: string): Option<Bytes>
    requires ChecksPass(b, encryptedData, privateKey)
  {
    b.nacl.open(b.base64.decode(encryptedData.ciphertext).value,
                b.base64.decode(encryptedData.nonce).value,
                b.base64.decode(encryptedData.ephemPublicKey).value, HexDecode(privateKey))
  }

  /** `decryptSymmetric` without its final check that the text is non-empty:
      the evidently intended behaviour. Each exception is raised exactly
      where the check that throws it is the first to fail. */
  function DecryptSymmetricAllowingEmpty(b: BoxEngine, encryptedData: EthEncryptedData, privateKey: string)
    : (r: Result<string, BoxError>)
    ensures r == Failure(BadSecretKeySize) <==> |HexDecode(privateKey)| != BoxSecretKeyLength
    ensures r == Failure(InvalidBase64) <==>
      |HexDecode(privateKey)| == BoxSecretKeyLength && !FieldsDecode(b, encryptedData)
    ensures r == Failure(BadPublicKeySize) <==>
      && |HexDecode(privateKey)| == BoxSecretKeyLength && FieldsDecode(b, encryptedData)
      && |b.base64.decode(encryptedData.ephemPublicKey).value| != BoxPublicKeyLength
    ensures r == Failure(BadNonceSize) <==>
      && |HexDecode(privateKey)| == BoxSecretKeyLength && FieldsDecode(b, encryptedData)
      && |b.base64.decode(encryptedData.ephemPublicKey).value| == BoxPublicKeyLength
      && |b.base64.decode(encryptedData.nonce).value| != BoxNonceLength
    ensures r.Success? || r == Failure(DecryptionFailed) ==> ChecksPass(b, encryptedData, privateKey)
    ensures ChecksPass(b, encryptedData, privateKey) ==>
      && (r == Failure(DecryptionFailed) <==> Unboxed(b, encryptedData, privateKey).None?)
      && (Unboxed(b, encryptedData, privateKey).Some? ==>
            r == Success(b.utf8.decode(Unboxed(b, encryptedData, privateKey).value)))
  {
    var secretKey := HexDecode(privateKey);
    if |secretKey| != BoxSecretKeyLength then Failure(BadSecretKeySize)
    else
      var nonce := b.base64.decode(encryptedData.nonce);
      var ciphertext := b.base64.decode(encryptedData.ciphertext);
      var ephemPublicKey := b.base64.decode(encryptedData.ephemPublicKey);
      if nonce.None? || ciphertext.None? || ephemPublicKey.None? then Failure(InvalidBase64)
      else if |ephemPublicKey.value| != BoxPublicKeyLength then Failure(BadPublicKeySize)
      else if |nonce.value| != BoxNonceLength then Failure(BadNonceSize)
      else
        match b.nacl.open(ciphertext.value, nonce.value, ephemPublicKey.value, secretKey)
        case None => Failure(DecryptionFailed)
        case Some(message) => Success(b.utf8.decode(message))
  }

  /** `decryptSymmetric(encryptedData, privateKey)` as written: an opened box
      whose text is empty is also reported as "Decryption failed.". */
  function DecryptSymmetric(b: BoxEngine, encryptedData: EthEncryptedData, privateKey: string)
    : (r: Result<string, BoxError>)
    ensures r.Success? ==> r.value != "" && r == DecryptSymmetricAllowingEmpty(b, encryptedData, privateKey)
    ensures DecryptSymmetricAllowingEmpty(b, encryptedData, privateKey).Failure? ==>
      r == DecryptSymmetricAllowingEmpty(b, encryptedData, privateKey)
    ensures DecryptSymmetricAllowingEmpty(b, encryptedData, privateKey) == Success("") ==> r == Failure(DecryptionFailed)
    ensures var a := DecryptSymmetricAllowingEmpty(b, encryptedData, privateKey);
      a.Success? && a.value != "" ==> r == a
  {
    match DecryptSymmetricAllowingEmpty(b, encryptedData, privateKey)
    case Failure(error) => Failure(error)
    case Success(output) => if output == "" then Failure(DecryptionFailed) else Success(output)
  }

  /** The recipient whose secret key is `privateKey` reads every message boxed
      for its public key, less a leading byte-order mark that the text decoder
      drops. */
  lemma BoxRoundTrip(b: BoxEngine, privateKey: string, message: string, ephemeralSecret: Bytes, nonce: Bytes)
    requires BoxEngineLaws(b)
    requires |HexDecode(privateKey)| == BoxSecretKeyLength
    requires |ephemeralSecret| == BoxSecretKeyLength && |nonce| == BoxNonceLength
    ensures GetEncryptionPublicKey(b, privateKey).Success?
    ensures var encrypted := EncryptSymmetric(b, GetEncryptionPublicKey(b, privateKey).value, message, ephemeralSecret, nonce);
      && encrypted.Success?
      && DecryptSymmetricAllowingEmpty(b, encrypted.value, privateKey) == Success(StripBom(message))
  {
    var secretKey := HexDecode(privateKey);
    var publicKey := b.nacl.publicKeyOf(secretKey);
    assert |publicKey| == BoxPublicKeyLength;
    var publicKeyText := GetEncryptionPublicKey(b, privateKey).value;
    assert b.base64.decode(publicKeyText) == Some(publicKey);
    var encrypted := EncryptSymmetric(b, publicKeyText, message, ephemeralSecret, nonce).value;
    var ephemeralPublic := b.nacl.publicKeyOf(ephemeralSecret);
    var boxed := b.nacl.box(b.utf8.encode(message), nonce, publicKey, ephemeralSecret);
    assert b.base64.decode(encrypted.nonce) == Some(nonce);
    assert b.base64.decode(encrypted.ciphertext) == Some(boxed);
    assert b.base64.decode(encrypted.ephemPublicKey) == Some(ephemeralPublic);
    assert |ephemeralPublic| == BoxPublicKeyLength;
    assert b.nacl.open(boxed, nonce, ephemeralPublic, secretKey) == Some(b.utf8.encode(message));
  }

  /** As written, every message that does not decode to the empty text makes
      the round trip. */
  lemma BoxRoundTripNonEmpty(b: BoxEngine, privateKey: string, message: string, ephemeralSecret: Bytes, nonce: Bytes)
    requires BoxEngineLaws(b) && StripBom(message) != ""
    requires |HexDecode(privateKey)| == BoxSecretKeyLength
    requires |ephemeralSecret| == BoxSecretKeyLength && |nonce| == BoxNonceLength
    ensures GetEncryptionPublicKey(b, privateKey).Success?
    ensures var encrypted := EncryptSymmetric(b, GetEncryptionPublicKey(b, privateKey).value, message, ephemeralSecret, nonce);
      && encrypted.Success?
      && DecryptSymmetric(b, encrypted.value, privateKey) == Success(StripBom(message))
  {
    BoxRoundTrip(b, privateKey, message, ephemeralSecret, nonce);
  }

  /** As written, a message that decodes to the empty text, `""` or a lone
      byte-order mark, does not come back: decrypting it throws
      "Decryption failed.". */
  lemma EmptyMessageRejected(b: BoxEngine, privateKey: string, message: string, ephemeralSecret: Bytes, nonce: Bytes)
    requires BoxEngineLaws(b) && StripBom(message) == ""
    requires |HexDecode(privateKey)| == BoxSecretKeyLength
    requires |ephemeralSecret| == BoxSecretKeyLength && |nonce| == BoxNonceLength
    ensures GetEncryptionPublicKey(b, privateKey).Success?
    ensures var encrypted := EncryptSymmetric(b, GetEncryptionPublicKey(b, privateKey).value, message, ephemeralSecret, nonce);
      && encrypted.Success?
      && DecryptSymmetric(b, encrypted.value, privateKey) == Failure(DecryptionFailed)
  {
    BoxRoundTrip(b, privateKey, message, ephemeralSecret, nonce);
  }
}

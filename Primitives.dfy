/**
 * The foreign primitives the core calls, kept abstract. Each is a datatype of
 * function values; the laws a primitive is relied on to satisfy are stated as a
 * ghost predicate, which every theorem that needs them takes as a hypothesis.
 *
 *  - UTF-8 text encoding (`Buffer.from(s)`, `buf.toString("utf-8")`, and the
 *    `utf8` codec of `@scure/base`);
 *  - JSON (`JSON.stringify`, `JSON.parse`, as in RFC 8259);
 *  - AES-256-GCM (NIST SP 800-38D) through Node's cipher objects;
 *  - PBKDF2-HMAC-SHA512 (section 5.2 of RFC 8018) through `crypto.pbkdf2Sync`;
 *  - NaCl `crypto_box` (Curve25519, XSalsa20-Poly1305) through `tweetnacl`;
 *  - base64 (section 4 of RFC 4648) through `@scure/base`.
 */
module Primitives {
  import opened Wrappers
  import opened Buffers
  import opened JsText

  // ---------------------------------------------------------------------------
  // UTF-8
  // ---------------------------------------------------------------------------

  datatype Utf8 = Utf8(encode: string -> Bytes, decode: Bytes -> string)

  /** Decoding inverts encoding, and ASCII text encodes one byte per character. */
  ghost predicate Utf8Laws(u: Utf8)
  {
    && (forall s :: u.decode(u.encode(s)) == s)
    && (forall s :: IsAscii(s) ==> u.encode(s) == AsciiBytes(s))
  }

  /** A text without its leading byte-order mark, if it has one. */
  function StripBom(s: string): (t: string)
    ensures t == s <==> s == [] || s[0] != '\U{FEFF}'
    ensures t != s ==> s == ['\U{FEFF}'] + t
  {
    if s != [] && s[0] == '\U{FEFF}' then s[1..] else s
  }

  /** The `utf8` codec of `@scure/base`, a `TextEncoder` and a `TextDecoder`
      with its default `ignoreBOM: false`: decoding gives back the text less
      one leading byte-order mark, and ASCII text encodes one byte per
      character. Node's `Buffer` codec keeps the mark and obeys `Utf8Laws`. */
  ghost predicate TextCodecLaws(u: Utf8)
  {
    && (forall s :: u.decode(u.encode(s)) == StripBom(s))
    && (forall s :: IsAscii(s) ==> u.encode(s) == AsciiBytes(s))
  }

  // ---------------------------------------------------------------------------
  // JSON
  // ---------------------------------------------------------------------------

  /** A JSON value. Numbers are kept to integers; objects keep their members in
      order. */
  datatype Json =
    | JNull
    | JBool(b: bool)
    | JNum(n: int)
    | JStr(s: string)
    | JArr(items: seq<Json>)
    | JObj(members: seq<(string, Json)>)

  /** `parse` returns `None` where `JSON.parse` throws a SyntaxError. */
  datatype JsonCodec = JsonCodec(stringify: Json -> string, parse: string -> Option<Json>)

  /** `Number.MAX_SAFE_INTEGER`, 2^53 - 1. */
  const MaxSafeInteger: int := 0x1F_FFFF_FFFF_FFFF

  /** A key JavaScript treats as an array index: the canonical decimal text of
      an integer below 2^32 - 1. */
  predicate IsIndexKey(k: string)
  {
    && |k| >= 1 && (forall i :: 0 <= i < |k| ==> IsDigit(k[i]))
    && (|k| > 1 ==> k[0] != '0')
    && DigitsValue(k) < 0xFFFF_FFFF
  }

  /** The members of an object in the order JavaScript enumerates its own keys:
      the keys are distinct, and index keys come first, in ascending order. */
  predicate MembersInJsOrder(members: seq<(string, Json)>)
  {
    && (forall a, b :: 0 <= a < b < |members| ==> members[a].0 != members[b].0)
    && (forall a, b :: 0 <= a < b < |members| && IsIndexKey(members[b].0) ==>
          IsIndexKey(members[a].0) && DigitsValue(members[a].0) < DigitsValue(members[b].0))
  }

  /** A value `JSON.parse` can return and `JSON.stringify` writes out exactly:
      its integers are safe and its objects list their keys in enumeration
      order. */
  predicate IsJsValue(v: Json)
  {
    match v
    case JNum(n) => -MaxSafeInteger <= n <= MaxSafeInteger
    case JArr(items) => forall k :: 0 <= k < |items| ==> IsJsValue(items[k])
    case JObj(members) =>
      MembersInJsOrder(members) && forall k :: 0 <= k < |members| ==> IsJsValue(members[k].1)
    case _ => true
  }

  /** Parsing the serialisation of a value `JSON.parse` can return gives the
      value back. */
  ghost predicate JsonLaws(j: JsonCodec)
  {
    forall v :: IsJsValue(v) ==> j.parse(j.stringify(v)) == Some(v)
  }

  // ---------------------------------------------------------------------------
  // AES-256-GCM
  // ---------------------------------------------------------------------------

  /** What a cipher yields: the ciphertext (`update` then `final`) and the
      authentication tag (`getAuthTag`). */
  datatype Sealed = Sealed(ciphertext: Bytes, tag: Bytes)

  /**
   * `seal(key, iv, plaintext)` runs a `createCipheriv` cipher to the end;
   * `open(key, iv, tag, ciphertext)` runs a `createDecipheriv` decipher with
   * `setAuthTag(tag)`, and is `None` where any step throws: a tag that does not
   * authenticate, or a tag or IV length the cipher refuses.
   */
  datatype Aead = Aead(seal: (Bytes, Bytes, Bytes) -> Sealed, open: (Bytes, Bytes, Bytes, Bytes) -> Option<Bytes>)

  /** With a 32-byte key and a 16-byte IV, the tag is 16 bytes, the ciphertext is
      as long as the plaintext, and opening with the matching tag gives the
      plaintext back. */
  ghost predicate AeadLaws(a: Aead)
  {
    forall key, iv, m :: |key| == 32 && |iv| == 16 ==>
      var sealed := a.seal(key, iv, m);
      && |sealed.tag| == 16
      && |sealed.ciphertext| == |m|
      && a.open(key, iv, sealed.tag, sealed.ciphertext) == Some(m)
  }

  // ---------------------------------------------------------------------------
  // PBKDF2-HMAC-SHA512
  // ---------------------------------------------------------------------------

  /** `derive(password, salt, iterations, keyLength)`, for iteration counts
      `pbkdf2Sync` accepts. */
  datatype Kdf = Kdf(derive: (Bytes, Bytes, int, nat) -> Bytes)

  /** The derived key has the requested length. */
  ghost predicate KdfLaws(k: Kdf)
  {
    forall password, salt, iterations, keyLength ::
      |k.derive(password, salt, iterations, keyLength)| == keyLength
  }

  // ---------------------------------------------------------------------------
  // NaCl box
  // ---------------------------------------------------------------------------

  const BoxPublicKeyLength: nat := 32
  const BoxSecretKeyLength: nat := 32
  const BoxNonceLength: nat := 24

  /**
   * `publicKeyOf(secretKey)` is `nacl.box.keyPair.fromSecretKey(secretKey).publicKey`;
   * `box(message, nonce, theirPublicKey, mySecretKey)` and
   * `open(box, nonce, theirPublicKey, mySecretKey)` are `nacl.box` and
   * `nacl.box.open` once their key and nonce lengths have been checked;
   * `open` is `None` where `nacl.box.open` returns null.
   */
  datatype Nacl = Nacl(
    publicKeyOf: Bytes -> Bytes,
    box: (Bytes, Bytes, Bytes, Bytes) -> Bytes,
    open: (Bytes, Bytes, Bytes, Bytes) -> Option<Bytes>)

  /** Public keys are 32 bytes, and the recipient opens what the sender boxed:
      the sender uses the recipient's public key and its own secret key, the
      recipient the sender's public key and its own secret key. */
  ghost predicate NaclLaws(n: Nacl)
  {
    && (forall sk :: |sk| == BoxSecretKeyLength ==> |n.publicKeyOf(sk)| == BoxPublicKeyLength)
    && (forall m, nonce, senderSecret, recipientSecret ::
          |senderSecret| == BoxSecretKeyLength && |recipientSecret| == BoxSecretKeyLength &&
          |nonce| == BoxNonceLength ==>
          n.open(n.box(m, nonce, n.publicKeyOf(recipientSecret), senderSecret),
                 nonce, n.publicKeyOf(senderSecret), recipientSecret) == Some(m))
  }

  // ---------------------------------------------------------------------------
  // base64
  // ---------------------------------------------------------------------------

  /** `decode` is `None` where `base64.decode` throws. */
  datatype Base64 = Base64(encode: Bytes -> string, decode: string -> Option<Bytes>)

  ghost predicate Base64Laws(b: Base64)
  {
    forall bytes :: b.decode(b.encode(bytes)) == Some(bytes)
  }
}

/**
 * `CryptoEngine.encryptAesGcm` / `decryptAesGcm`: a value protected under a
 * password, serialised as a self-describing text envelope
 *
 *     "enc::" + hex(salt[64] ‖ iv[16] ‖ authTag[16] ‖ ASCII(counter)[5] ‖ ciphertext)
 *
 * where the key is PBKDF2 of the password over the salt, with an iteration count
 * derived from the printed decoy counter.
 */
module PasswordEnvelope {
  import opened Wrappers
  import opened JsText
  import opened Buffers
  import opened Primitives

  /** `getEncryptedPrefix()`. */
  const Marker: string := "enc::"

  const SaltLength: nat := 64
  const IvLength: nat := 16
  const TagLength: nat := 16
  const CounterLength: nat := 5
  /** Bytes before the ciphertext: salt, iv, tag and counter digits. */
  const HeaderLength: nat := 101
  const KeyLength: nat := 32
  const MinCounter: int := 10000
  const MaxCounter: int := 99999
  /** `pbkdf2Sync` accepts iteration counts from 1 to 2^31 - 1. */
  const MaxIterations: int := 0x7FFF_FFFF

  /** What `encryptAesGcm` is given: a string, or an object to serialise. */
  datatype Plaintext = Text(s: string) | Structured(value: Json)

  /** What a successful `decryptAesGcm` returns: the parsed JSON value, or the
      raw text when it is not JSON. */
  datatype Decrypted = Parsed(value: Json) | Raw(text: string)

  /** The primitives a `CryptoEngine` calls for password envelopes. */
  datatype Engine = Engine(utf8: Utf8, json: JsonCodec, aead: Aead, kdf: Kdf)

  ghost predicate EngineLaws(e: Engine)
  {
    Utf8Laws(e.utf8) && AeadLaws(e.aead) && KdfLaws(e.kdf)
  }

  /** The text that gets encrypted: objects are serialised, strings kept. */
  function Serialise(j: JsonCodec, input: Plaintext): string
  {
    match input
    case Structured(v) => j.stringify(v)
    case Text(s) => s
  }

  /** The decrypted text as `decryptAesGcm` returns it: JSON first, and the
      raw text when `JSON.parse` throws. */
  function Reading(j: JsonCodec, text: string): Decrypted
  {
    match j.parse(text)
    case Some(v) => Parsed(v)
    case None => Raw(text)
  }

  /** The decoy counter `Math.floor(random * (99999 - 10000 + 1)) + 10000`
      drawn from `random = Math.random()`. */
  function DecoyCounter(random: real): (n: int)
    requires 0.0 <= random < 1.0
    ensures MinCounter <= n <= MaxCounter
  {
    (random * (MaxCounter - MinCounter + 1) as real).Floor + MinCounter
  }

  /** The iteration count actually used, `Math.floor(n * 0.47 + 1337)`, in
      integer arithmetic; NaN stays NaN. */
  function WorkFactor(n: IntOrNaN): (r: IntOrNaN)
    ensures r.NaN? <==> n.NaN?
    ensures n.Int? && MinCounter <= n.i <= MaxCounter ==> 6037 <= r.i <= 48336
    ensures n.Int? && n.i >= 0 ==> r.i >= 1337
  {
    match n
    case NaN => NaN
    case Int(i) => Int(i * 47 / 100 + 1337)
  }

  /** `deriveKeyFromPassword`: PBKDF2-HMAC-SHA512 to a 32-byte key; `None` where
      `pbkdf2Sync` throws because the iteration count is NaN or out of range. */
  function DeriveKeyFromPassword(kdf: Kdf, password: Bytes, salt: Bytes, iterations: IntOrNaN): (key: Option<Bytes>)
    ensures key.Some? <==> iterations.Int? && 1 <= iterations.i <= MaxIterations
    ensures KdfLaws(kdf) && key.Some? ==> |key.value| == KeyLength
  {
    if iterations.Int? && 1 <= iterations.i <= MaxIterations
    then Some(kdf.derive(password, salt, iterations.i, KeyLength))
    else None
  }

  // ---------------------------------------------------------------------------
  // Binary layout
  // ---------------------------------------------------------------------------

  /** The five parts of an envelope's bytes. */
  datatype Fields = Fields(salt: Bytes, iv: Bytes, tag: Bytes, counterText: Bytes, ciphertext: Bytes)

  /** `Buffer.concat([salt, iv, authTag, counterText, encryptedData])`. */
  function Pack(f: Fields): (data: Bytes)
    ensures |f.salt| == SaltLength && |f.iv| == IvLength && |f.tag| == TagLength && |f.counterText| == CounterLength
      ==> |data| == HeaderLength + |f.ciphertext|
  {
    f.salt + f.iv + f.tag + f.counterText + f.ciphertext
  }

  /** The slices `decryptAesGcm` takes at offsets 0, 64, 80, 96 and 101. */
  function Unpack(data: Bytes): (f: Fields)
    ensures |data| >= HeaderLength ==> Pack(f) == data
    ensures |data| < HeaderLength ==> f.ciphertext == []
  {
    Fields(Slice(data, 0, 64), Slice(data, 64, 80), Slice(data, 80, 96), Slice(data, 96, 101), Slice(data, 101, |data|))
  }

  /** Slicing at the fixed offsets inverts the concatenation. */
  lemma UnpackPack(f: Fields)
    requires |f.salt| == SaltLength && |f.iv| == IvLength && |f.tag| == TagLength && |f.counterText| == CounterLength
    ensures Unpack(Pack(f)) == f
  {
    var data := Pack(f);
    assert data[0..64] == f.salt;
    assert data[64..80] == f.iv;
    assert data[80..96] == f.tag;
    assert data[96..101] == f.counterText;
    assert data[101..] == f.ciphertext;
  }

  /** Hex digits contain no `n`, so the marker occurs once in front of them. */
  lemma MarkerBeforeHex(hex: string)
    requires IsLowerHex(hex)
    ensures Split(Marker + hex, Marker) == ["", hex]
    ensures Count(Marker + hex, Marker) == 1
  {
    assert Marker[1] == 'n';
    assert HeadUnique(Marker);
    CountWithoutChar(hex, Marker, 'n');
    SplitAfterLeadingSeparator(Marker, hex);
  }

  // ---------------------------------------------------------------------------
  // encryptAesGcm
  // ---------------------------------------------------------------------------

  /** The envelope `encryptAesGcm` produces from the given salt, IV and counter. */
  function EnvelopeOf(e: Engine, input: Plaintext, password: Bytes, salt: Bytes, iv: Bytes, counter: int): string
    requires |salt| == SaltLength && |iv| == IvLength && MinCounter <= counter <= MaxCounter
  {
    var text := Serialise(e.json, input);
    var key := DeriveKeyFromPassword(e.kdf, password, salt, WorkFactor(Int(counter))).value;
    var sealed := e.aead.seal(key, iv, e.utf8.encode(text));
    var counterText := e.utf8.encode(DecimalString(counter));
    Marker + HexEncode(Pack(Fields(salt, iv, sealed.tag, counterText, sealed.ciphertext)))
  }

  /**
   * `encryptAesGcm(plainText, password)`, with the outputs of
   * `crypto.randomBytes(64)`, `crypto.randomBytes(16)` and `Math.random()`
   * passed in as `salt`, `iv` and `random`.
   */
  method EncryptAesGcm(e: Engine, plainText: Plaintext, password: Bytes, salt: Bytes, iv: Bytes, random: real)
    returns (r: string)
    requires |salt| == SaltLength && |iv| == IvLength && 0.0 <= random < 1.0
    ensures r == EnvelopeOf(e, plainText, password, salt, iv, DecoyCounter(random))
    ensures |r| >= |Marker| && r[..|Marker|] == Marker && Count(r, Marker) == 1
  {
    var text := Serialise(e.json, plainText);
    var iterations := DecoyCounter(random);
    var encryptionKey := DeriveKeyFromPassword(e.kdf, password, salt, WorkFactor(Int(iterations))).value;
    var sealed := e.aead.seal(encryptionKey, iv, e.utf8.encode(text));
    var encryptedData := sealed.ciphertext;
    var authTag := sealed.tag;
    var counterText := e.utf8.encode(DecimalString(iterations));
    var output := HexEncode(Pack(Fields(salt, iv, authTag, counterText, encryptedData)));
    HexEncodeIsLowerHex(Pack(Fields(salt, iv, authTag, counterText, encryptedData)));
    MarkerBeforeHex(output);
    r := Marker + output;
  }

  /** The envelope is the marker followed by the hex of 101 + |ciphertext|
      bytes, whose fixed-offset slices are the salt, the IV, the tag, the
      five counter digits and the ciphertext. */
  lemma EnvelopeLayout(e: Engine, input: Plaintext, password: Bytes, salt: Bytes, iv: Bytes, counter: int)
    requires EngineLaws(e)
    requires |salt| == SaltLength && |iv| == IvLength && MinCounter <= counter <= MaxCounter
    ensures var envelope := EnvelopeOf(e, input, password, salt, iv, counter);
      && envelope[..|Marker|] == Marker
      && Count(envelope, Marker) == 1
      && var data := HexDecode(envelope[|Marker|..]);
      && var f := Unpack(data);
      && |data| == HeaderLength + |e.utf8.encode(Serialise(e.json, input))|
      && f.salt == salt && f.iv == iv && |f.tag| == TagLength
      && e.utf8.decode(f.counterText) == DecimalString(counter)
      && ParseInt(e.utf8.decode(f.counterText)) == Int(counter)
      && |f.ciphertext| == |e.utf8.encode(Serialise(e.json, input))|
  {
    var text := Serialise(e.json, input);
    var key := DeriveKeyFromPassword(e.kdf, password, salt, WorkFactor(Int(counter))).value;
    var sealed := e.aead.seal(key, iv, e.utf8.encode(text));
    var digits := DecimalString(counter);
    FiveDigits(counter);
    var counterText := e.utf8.encode(digits);
    assert counterText == AsciiBytes(digits);
    var f := Fields(salt, iv, sealed.tag, counterText, sealed.ciphertext);
    var hex := HexEncode(Pack(f));
    var envelope := Marker + hex;
    assert envelope[..|Marker|] == Marker && envelope[|Marker|..] == hex;
    HexEncodeIsLowerHex(Pack(f));
    MarkerBeforeHex(hex);
    HexRoundTrip(Pack(f));
    UnpackPack(f);
    ParseIntOfDecimal(counter, []);
    assert digits + [] == digits;
  }

  // ---------------------------------------------------------------------------
  // decryptAesGcm
  // ---------------------------------------------------------------------------

  /** Decrypting what follows the marker. */
  function OpenPayload(e: Engine, payload: string, password: Bytes): Option<Decrypted>
  {
    var f := Unpack(HexDecode(payload));
    var iterations := ParseInt(e.utf8.decode(f.counterText));
    var key := DeriveKeyFromPassword(e.kdf, password, f.salt, WorkFactor(iterations));
    if key.None? then None
    else
      match e.aead.open(key.value, f.iv, f.tag, f.ciphertext)
      case None => None
      case Some(m) => Some(Reading(e.json, e.utf8.decode(m)))
  }

  /** What `decryptAesGcm(cipherText, password)` returns; `None` is `undefined`. */
  function OpenEnvelope(e: Engine, cipherText: string, password: Bytes): Option<Decrypted>
  {
    var parts := Split(cipherText, Marker);
    if |parts| != 2 then None else OpenPayload(e, parts[1], password)
  }

  /** `decryptAesGcm(cipherText, password)`: every failure returns `undefined`. */
  method DecryptAesGcm(e: Engine, cipherText: string, password: Bytes) returns (r: Option<Decrypted>)
    ensures r == OpenEnvelope(e, cipherText, password)
    ensures Count(cipherText, Marker) != 1 ==> r == None
  {
    assert HeadUnique(Marker);
    SplitCount(cipherText, Marker);
    var cipherTextParts := Split(cipherText, Marker);
    if |cipherTextParts| != 2 {
      return None;
    }
    var payload := cipherTextParts[1];
    var inputData := HexDecode(payload);
    var salt := Slice(inputData, 0, 64);
    var iv := Slice(inputData, 64, 80);
    var authTag := Slice(inputData, 80, 96);
    var iterations := ParseInt(e.utf8.decode(Slice(inputData, 96, 101)));
    var encryptedData := Slice(inputData, 101, |inputData|);
    var decryptionKey := DeriveKeyFromPassword(e.kdf, password, salt, WorkFactor(iterations));
    if decryptionKey.None? {
      return None;
    }
    var decrypted := e.aead.open(decryptionKey.value, iv, authTag, encryptedData);
    if decrypted.None? {
      return None;
    }
    var text := e.utf8.decode(decrypted.value);
    r := Some(Reading(e.json, text));
  }

  // ---------------------------------------------------------------------------
  // Properties
  // ---------------------------------------------------------------------------

  /** Decrypting an untampered envelope with the same password gives back the
      encrypted text, read as JSON where it parses. */
  lemma RoundTrip(e: Engine, input: Plaintext, password: Bytes, salt: Bytes, iv: Bytes, counter: int)
    requires EngineLaws(e)
    requires |salt| == SaltLength && |iv| == IvLength && MinCounter <= counter <= MaxCounter
    ensures OpenEnvelope(e, EnvelopeOf(e, input, password, salt, iv, counter), password)
         == Some(Reading(e.json, Serialise(e.json, input)))
  {
    var text := Serialise(e.json, input);
    var key := DeriveKeyFromPassword(e.kdf, password, salt, WorkFactor(Int(counter))).value;
    var plainBytes := e.utf8.encode(text);
    var sealed := e.aead.seal(key, iv, plainBytes);
    var f := Fields(salt, iv, sealed.tag, e.utf8.encode(DecimalString(counter)), sealed.ciphertext);
    var hex := HexEncode(Pack(f));
    var envelope := EnvelopeOf(e, input, password, salt, iv, counter);
    assert envelope == Marker + hex;
    EnvelopeLayout(e, input, password, salt, iv, counter);
    HexEncodeIsLowerHex(Pack(f));
    MarkerBeforeHex(hex);
    assert Split(envelope, Marker)[1] == hex;
    assert envelope[|Marker|..] == hex;
    var g := Unpack(HexDecode(hex));
    assert ParseInt(e.utf8.decode(g.counterText)) == Int(counter);
    HexRoundTrip(Pack(f));
    UnpackPack(f);
    assert g == f;
    assert DeriveKeyFromPassword(e.kdf, password, g.salt, WorkFactor(ParseInt(e.utf8.decode(g.counterText)))) == Some(key);
    assert |key| == KeyLength;
    assert e.aead.open(key, g.iv, g.tag, g.ciphertext) == Some(plainBytes);
    assert e.utf8.decode(plainBytes) == text;
    assert OpenPayload(e, hex, password) == Some(Reading(e.json, text));
  }

  /** An object comes back structurally equal. */
  lemma StructuredRoundTrip(e: Engine, v: Json, password: Bytes, salt: Bytes, iv: Bytes, counter: int)
    requires EngineLaws(e) && JsonLaws(e.json) && IsJsValue(v)
    requires |salt| == SaltLength && |iv| == IvLength && MinCounter <= counter <= MaxCounter
    ensures OpenEnvelope(e, EnvelopeOf(e, Structured(v), password, salt, iv, counter), password) == Some(Parsed(v))
  {
    RoundTrip(e, Structured(v), password, salt, iv, counter);
  }

  /** A string that is not JSON comes back unchanged. */
  lemma RawTextRoundTrip(e: Engine, s: string, password: Bytes, salt: Bytes, iv: Bytes, counter: int)
    requires EngineLaws(e) && e.json.parse(s).None?
    requires |salt| == SaltLength && |iv| == IvLength && MinCounter <= counter <= MaxCounter
    ensures OpenEnvelope(e, EnvelopeOf(e, Text(s), password, salt, iv, counter), password) == Some(Raw(s))
  {
    RoundTrip(e, Text(s), password, salt, iv, counter);
  }

  /** A string that is JSON (such as "123") comes back parsed, not as itself. */
  lemma JsonTextRoundTrip(e: Engine, s: string, password: Bytes, salt: Bytes, iv: Bytes, counter: int)
    requires EngineLaws(e) && e.json.parse(s).Some?
    requires |salt| == SaltLength && |iv| == IvLength && MinCounter <= counter <= MaxCounter
    ensures OpenEnvelope(e, EnvelopeOf(e, Text(s), password, salt, iv, counter), password) == Some(Parsed(e.json.parse(s).value))
    ensures OpenEnvelope(e, EnvelopeOf(e, Text(s), password, salt, iv, counter), password) != Some(Raw(s))
  {
    RoundTrip(e, Text(s), password, salt, iv, counter);
  }

  /** Decryption proceeds only when the marker occurs exactly once. */
  lemma MarkerGuard(e: Engine, cipherText: string, password: Bytes)
    requires Count(cipherText, Marker) != 1
    ensures OpenEnvelope(e, cipherText, password) == None
  {
    assert HeadUnique(Marker);
    SplitCount(cipherText, Marker);
  }

  /** With the marker occurring once, anywhere, decryption reads whatever
      follows it. */
  lemma MarkerAnywhere(e: Engine, before: string, payload: string, password: Bytes)
    requires Count(before + Marker + payload, Marker) == 1
    ensures OpenEnvelope(e, before + Marker + payload, password) == OpenPayload(e, payload, password)
  {
    assert HeadUnique(Marker);
    SplitSingle(before + Marker + payload, Marker, before, payload);
  }

  /** Counter digits that `parseInt` reads as NaN make key derivation throw,
      and decryption returns `undefined`. */
  lemma NonNumericCounterFails(e: Engine, payload: string, password: Bytes)
    requires ParseInt(e.utf8.decode(Slice(HexDecode(payload), 96, 101))) == NaN
    ensures OpenPayload(e, payload, password) == None
  {
  }

  /** Decryption succeeds only if the cipher authenticated the ciphertext
      under the tag, with the key derived from the password and the salt. */
  lemma SuccessMeansAuthentic(e: Engine, cipherText: string, password: Bytes)
    requires OpenEnvelope(e, cipherText, password).Some?
    ensures Count(cipherText, Marker) == 1
    ensures var f := Unpack(HexDecode(Split(cipherText, Marker)[1]));
      var key := DeriveKeyFromPassword(e.kdf, password, f.salt, WorkFactor(ParseInt(e.utf8.decode(f.counterText))));
      key.Some? && e.aead.open(key.value, f.iv, f.tag, f.ciphertext).Some?
  {
    assert HeadUnique(Marker);
    SplitCount(cipherText, Marker);
  }
}

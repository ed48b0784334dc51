/**
 * The MagicPay tests: the Groth16 calldata is wrapped in brackets, parsed and
 * destructured into the proof points and the public signals, which become the
 * arguments of `magicPay`; the deposit helper; and the "encryption" test that
 * derives a box key from a signature hash and boxes "Hello world" for it.
 */
module MagicPayTest {
  import opened Wrappers
  import opened JsText
  import opened Buffers
  import opened Primitives
  import opened JsValues
  import opened Transfer
  import opened PublicKeyBox

  /** viem's `zeroAddress`, used as the native token and as the relayer. */
  const ZeroAddress: string := "0x" + seq(40, _ => '0')

  // ---------------------------------------------------------------------------
  // Groth16 calldata
  // ---------------------------------------------------------------------------

  /** `[a, b, c, d] = v`: array destructuring of four targets, with no length
      check. Arrays and strings are iterable; missing positions are
      `undefined`; any other value throws a TypeError. */
  function Destructure4(v: Json): (r: Result<seq<JsValue>, JsError>)
    ensures r.Success? <==> v.JArr? || v.JStr?
    ensures r.Failure? ==> r.error == TypeError
    ensures r.Success? ==> |r.value| == 4
    ensures v.JArr? ==> forall k :: 0 <= k < 4 ==>
      r.value[k] == (if k < |v.items| then Some(v.items[k]) else None)
  {
    match v
    case JArr(items) => Success(seq(4, k requires 0 <= k < 4 => if k < |items| then Some(items[k]) else None))
    case JStr(s) => Success(seq(4, k requires 0 <= k < 4 => if k < |s| then Some(JStr([s[k]])) else None))
    case _ => Failure(TypeError)
  }

  /** `[pA, pB, pC, publicSignals] = JSON.parse(`[${proofCalldata}]`)`. */
  function Groth16Calldata(j: JsonCodec, proofCalldata: string): (r: Result<seq<JsValue>, JsError>)
    ensures r.Success? ==> |r.value| == 4
    ensures r == Failure(SyntaxError) <==> j.parse("[" + proofCalldata + "]").None?
  {
    match j.parse("[" + proofCalldata + "]")
    case None => Failure(SyntaxError)
    case Some(v) => Destructure4(v)
  }

  /** When the bracketed calldata is the JSON text of the four-element array
      `[pA, pB, pC, publicSignals]`, destructuring recovers all four. */
  lemma Groth16RoundTrip(j: JsonCodec, proofCalldata: string, pA: Json, pB: Json, pC: Json, publicSignals: Json)
    requires JsonLaws(j) && IsJsValue(pA) && IsJsValue(pB) && IsJsValue(pC) && IsJsValue(publicSignals)
    requires "[" + proofCalldata + "]" == j.stringify(JArr([pA, pB, pC, publicSignals]))
    ensures Groth16Calldata(j, proofCalldata) == Success([Some(pA), Some(pB), Some(pC), Some(publicSignals)])
  {
    var items := [pA, pB, pC, publicSignals];
    assert IsJsValue(JArr(items));
    assert j.parse(j.stringify(JArr(items))) == Some(JArr(items));
    var r := Destructure4(JArr(items));
    assert r.value[0] == Some(pA) && r.value[1] == Some(pB);
    assert r.value[2] == Some(pC) && r.value[3] == Some(publicSignals);
    assert r.value == [Some(pA), Some(pB), Some(pC), Some(publicSignals)];
  }

  /** Without a length check, an array of three leaves `publicSignals`
      undefined, and reading `publicSignals[0]` then throws a TypeError. */
  lemma ShortCalldataLeavesSignalsUndefined(j: JsonCodec, proofCalldata: string, items: seq<Json>, owner: string)
    requires j.parse("[" + proofCalldata + "]") == Some(JArr(items)) && |items| == 3
    ensures Groth16Calldata(j, proofCalldata).Success?
    ensures Groth16Calldata(j, proofCalldata).value[3] == None
    ensures PaymentArgsOf(Groth16Calldata(j, proofCalldata).value[3], owner) == Failure(TypeError)
  {
  }

  /** Elements after the fourth are dropped silently. */
  lemma LongCalldataKeepsFirstFour(j: JsonCodec, proofCalldata: string, items: seq<Json>)
    requires j.parse("[" + proofCalldata + "]") == Some(JArr(items)) && |items| > 4
    ensures Groth16Calldata(j, proofCalldata) == Success([Some(items[0]), Some(items[1]), Some(items[2]), Some(items[3])])
  {
    var r := Groth16Calldata(j, proofCalldata);
    assert r.value[0] == Some(items[0]) && r.value[1] == Some(items[1]);
    assert r.value[2] == Some(items[2]) && r.value[3] == Some(items[3]);
    assert r.value == [Some(items[0]), Some(items[1]), Some(items[2]), Some(items[3])];
  }

  /** The proof struct `{ pA, pB, pC }`. */
  datatype Groth16Proof = Groth16Proof(pA: JsValue, pB: JsValue, pC: JsValue)

  /** `magicPay.write.magicPay([token, inputs, outputs, publicIn, publicOut, relayer, proof], { value })`. */
  datatype MagicPayCall = MagicPayCall(
    token: string,
    inputs: seq<JsValue>,
    outputs: seq<Output>,
    publicIn: int,
    publicOut: int,
    relayer: string,
    proof: Groth16Proof,
    value: int)

  /**
   * The part both the deposit helper and the "should transfer" test run after
   * the prover: wrap and parse the calldata, overwrite the prover's
   * `publicSignals` with the fourth element, build the arguments and the call
   * with the given amounts, the zero token and the zero relayer.
   */
  method SubmitGroth16(j: JsonCodec, owner: string, proverSignals: Json, proofCalldata: string, publicIn: int, publicOut: int, value: int)
    returns (r: Result<MagicPayCall, JsError>)
    ensures Groth16Calldata(j, proofCalldata).Failure? ==> r == Failure(Groth16Calldata(j, proofCalldata).error)
    ensures Groth16Calldata(j, proofCalldata).Success? ==>
      var parts := Groth16Calldata(j, proofCalldata).value;
      && (r.Success? <==> parts[3] != None && parts[3] != Some(JNull))
      && (r.Success? ==>
            r.value.proof == Groth16Proof(parts[0], parts[1], parts[2]) &&
            PaymentArgs(r.value.inputs, r.value.outputs) == PaymentArgsOf(parts[3], owner).value)
    ensures r.Success? ==>
      && r.value.token == ZeroAddress && r.value.relayer == ZeroAddress
      && r.value.publicIn == publicIn && r.value.publicOut == publicOut && r.value.value == value
  {
    var publicSignals: JsValue := Some(proverSignals);
    var jsonData := "[" + proofCalldata + "]";
    var parsed := j.parse(jsonData);
    if parsed.None? {
      return Failure(SyntaxError);
    }
    var parts := Destructure4(parsed.value);
    if parts.Failure? {
      return Failure(parts.error);
    }
    var pA, pB, pC;
    pA, pB, pC, publicSignals := parts.value[0], parts.value[1], parts.value[2], parts.value[3];
    var args := PaymentArgsOf(publicSignals, owner);
    if args.Failure? {
      return Failure(args.error);
    }
    r := Success(MagicPayCall(ZeroAddress, args.value.inputs, args.value.outputs, publicIn, publicOut,
                              ZeroAddress, Groth16Proof(pA, pB, pC), value));
  }

  /** The "should transfer" test: the fixed witness, then a call declaring
      1000 in, 0 out and paying 1000. */
  method ShouldTransfer(j: JsonCodec, owner: string, proverSignals: Json, proofCalldata: string)
    returns (r: Result<MagicPayCall, JsError>)
    ensures r.Success? ==> CallAgreesWithWitness(r.value.publicIn, r.value.publicOut, r.value.value, FixedTransferWitness)
    ensures r.Success? ==> r.value.token == ZeroAddress && r.value.relayer == ZeroAddress
    ensures Groth16Calldata(j, proofCalldata).Success? ==>
      var parts := Groth16Calldata(j, proofCalldata).value;
      r.Success? <==> parts[3] != None && parts[3] != Some(JNull)
  {
    r := SubmitGroth16(j, owner, proverSignals, proofCalldata, 1000, 0, 1000);
  }

  /** End to end: a well-formed calldata puts the exported proof points into
      the proof struct and the first four signals, in order, into the
      arguments. */
  lemma ExportedSignalsReachMagicPay(j: JsonCodec, proofCalldata: string, owner: string, pA: Json, pB: Json, pC: Json, signals: seq<Json>)
    requires JsonLaws(j) && IsJsValue(pA) && IsJsValue(pB) && IsJsValue(pC) && IsJsValue(JArr(signals))
    requires "[" + proofCalldata + "]" == j.stringify(JArr([pA, pB, pC, JArr(signals)]))
    requires |signals| >= 4
    ensures Groth16Calldata(j, proofCalldata) == Success([Some(pA), Some(pB), Some(pC), Some(JArr(signals))])
    ensures CarriedSignals(PaymentArgsOf(Some(JArr(signals)), owner).value)
      == [Some(signals[0]), Some(signals[1]), Some(signals[2]), Some(signals[3])]
  {
    Groth16RoundTrip(j, proofCalldata, pA, pB, pC, JArr(signals));
    PaymentArgsCarrySignals(signals, owner);
  }

  // ---------------------------------------------------------------------------
  // The deposit helper
  // ---------------------------------------------------------------------------

  /** The witness the deposit helper proves: `amount` in publicly, into one
      new note of `amount` with secret 1. */
  function DepositWitness(amount: nat): (w: Witness)
    ensures Balanced(w)
    ensures w.inPublicAmount == amount && w.outPublicAmount == 0
  {
    assert Sum([amount, 0]) == amount + Sum([0]);
    Witness(amount, 0, [0, 0], [0, 0], [amount, 0], [1, 0])
  }

  lemma DepositWitnessOf1000()
    ensures DepositWitness(1000) == FixedTransferWitness
  {
  }

  /** Public in, public out and value of the helper's `magicPay` call, as
      written: 1000, 0 and 1000 whatever `amount` is. */
  function DepositCallAmounts(amount: nat): (r: (int, int, int))
  {
    (1000, 0, 1000)
  }

  /** As written, the call agrees with the witness just proved only when
      `amount` is 1000. */
  lemma DepositAgreesOnlyAt1000(amount: nat)
    ensures var (publicIn, publicOut, value) := DepositCallAmounts(amount);
      CallAgreesWithWitness(publicIn, publicOut, value, DepositWitness(amount)) <==> amount == 1000
  {
  }

  lemma DepositOf500Disagrees()
    ensures var (publicIn, publicOut, value) := DepositCallAmounts(500);
      !CallAgreesWithWitness(publicIn, publicOut, value, DepositWitness(500))
  {
    DepositAgreesOnlyAt1000(500);
  }

  /** The amounts as evidently intended: the public amounts of the witness. */
  function IntendedDepositAmounts(amount: nat): (r: (int, int, int))
    ensures CallAgreesWithWitness(r.0, r.1, r.2, DepositWitness(amount))
  {
    (amount, 0, amount)
  }

  /** The deposit helper after the prover, as written. */
  method Deposit(j: JsonCodec, amount: nat, owner: string, proverSignals: Json, proofCalldata: string)
    returns (r: Result<MagicPayCall, JsError>)
    ensures r.Success? ==>
      (CallAgreesWithWitness(r.value.publicIn, r.value.publicOut, r.value.value, DepositWitness(amount)) <==> amount == 1000)
  {
    var (publicIn, publicOut, value) := DepositCallAmounts(amount);
    r := SubmitGroth16(j, owner, proverSignals, proofCalldata, publicIn, publicOut, value);
    DepositAgreesOnlyAt1000(amount);
  }

  /** The deposit helper with the intended amounts. */
  method IntendedDeposit(j: JsonCodec, amount: nat, owner: string, proverSignals: Json, proofCalldata: string)
    returns (r: Result<MagicPayCall, JsError>)
    ensures r.Success? ==> CallAgreesWithWitness(r.value.publicIn, r.value.publicOut, r.value.value, DepositWitness(amount))
  {
    var (publicIn, publicOut, value) := IntendedDepositAmounts(amount);
    r := SubmitGroth16(j, owner, proverSignals, proofCalldata, publicIn, publicOut, value);
  }

  // ---------------------------------------------------------------------------
  // The "encryption" test
  // ---------------------------------------------------------------------------

  lemma HexPrefixHeadUnique()
    ensures HeadUnique("0x")
  {
  }

  /** `signatureHash.split("0x")[1]`: the text after the first `0x`, or
      `undefined` when there is none. */
  function EncryptionPrivateKey(signatureHash: string): (r: Option<string>)
    ensures r.Some? <==> Count(signatureHash, "0x") >= 1
  {
    SplitCount(signatureHash, "0x");
    var parts := Split(signatureHash, "0x");
    if |parts| >= 2 then Some(parts[1]) else None
  }

  /** A hash written as `0x` and lower-case hex digits loses exactly its
      prefix. */
  lemma StripHexPrefix(digits: string)
    requires IsLowerHex(digits)
    ensures EncryptionPrivateKey("0x" + digits) == Some(digits)
  {
    assert 'x' !in digits by {
      forall k | 0 <= k < |digits| ensures digits[k] != 'x' {
        assert IsLowerHexChar(digits[k]);
      }
    }
    CountWithoutChar(digits, "0x", 'x');
    SplitAfterLeadingSeparator("0x", digits);
  }

  /** Why the test can fail. `Buffer.from(undefined, "hex")` throws when the
      hash has no `0x`. */
  datatype ScenarioError = NoPrivateKey | BoxFailure(error: BoxError)

  /** The test body with the hash of the signature, the ephemeral secret key
      and the nonce as parameters: strip the prefix, derive the public key,
      box "Hello world" for it and open it with the private key. */
  function Encryption(b: BoxEngine, signatureHash: string, ephemeralSecret: Bytes, nonce: Bytes)
    : (r: Result<string, ScenarioError>)
    requires |ephemeralSecret| == BoxSecretKeyLength && |nonce| == BoxNonceLength
    ensures EncryptionPrivateKey(signatureHash).None? ==> r == Failure(NoPrivateKey)
  {
    match EncryptionPrivateKey(signatureHash)
    case None => Failure(NoPrivateKey)
    case Some(encryptionPrivateKey) =>
      match GetEncryptionPublicKey(b, encryptionPrivateKey)
      case Failure(e) => Failure(BoxFailure(e))
      case Success(encryptionPublicKey) =>
        match EncryptSymmetric(b, encryptionPublicKey, "Hello world", ephemeralSecret, nonce)
        case Failure(e) => Failure(BoxFailure(e))
        case Success(data) =>
          match DecryptSymmetric(b, data, encryptionPrivateKey)
          case Failure(e) => Failure(BoxFailure(e))
          case Success(decryptedData) => Success(decryptedData)
  }

  /** With a real hash (`0x` and 64 lower-case hex digits) the test decrypts
      "Hello world" again. */
  lemma EncryptionRecoversMessage(b: BoxEngine, digits: string, ephemeralSecret: Bytes, nonce: Bytes)
    requires BoxEngineLaws(b)
    requires IsLowerHex(digits) && |digits| == 64
    requires |ephemeralSecret| == BoxSecretKeyLength && |nonce| == BoxNonceLength
    ensures Encryption(b, "0x" + digits, ephemeralSecret, nonce) == Success("Hello world")
  {
    StripHexPrefix(digits);
    HexDecodeLength(digits);
    assert StripBom("Hello world") == "Hello world";
    BoxRoundTripNonEmpty(b, digits, "Hello world", ephemeralSecret, nonce);
  }
}

/**
 * The ETHPay "should transfer" test: prove the fixed transfer, extract the
 * Plonk calldata and call `pay2` with the public signals as arguments.
 */
module EthPayTest {
  import opened Wrappers
  import opened Primitives
  import opened JsValues
  import opened ProofAdapter
  import opened Transfer

  /** `ethPay.write.pay2([inputs, outputs, publicIn, publicOut, proof], { value })`. */
  datatype Pay2Call = Pay2Call(
    inputs: seq<JsValue>,
    outputs: seq<Output>,
    publicIn: int,
    publicOut: int,
    proof: Json,
    value: int)

  /**
   * The test body after the prover: the count guard of lines 41-47, the
   * arguments of lines 49-61 and the call of lines 63-65. The prover's output
   * and the exported calldata are parameters.
   */
  method ShouldTransfer(j: JsonCodec, owner: string, prover: ProverOutput, proofCalldata: string)
    returns (r: Result<Pay2Call, JsError>)
    ensures r.Success? ==> CallAgreesWithWitness(r.value.publicIn, r.value.publicOut, r.value.value, FixedTransferWitness)
    ensures PlonkCalldata(j, prover, proofCalldata).Failure? ==> r == Failure(SyntaxError)
    ensures PlonkCalldata(j, prover, proofCalldata).Success? ==>
      var parsed := PlonkCalldata(j, prover, proofCalldata).value;
      && (r.Success? <==> parsed.publicSignals != JNull)
      && (r.Failure? ==> r.error == TypeError)
      && (r.Success? ==>
            r.value.proof == parsed.proof &&
            PaymentArgs(r.value.inputs, r.value.outputs) == PaymentArgsOf(Some(parsed.publicSignals), owner).value)
  {
    var parsed := ParsePlonkCalldata(j, prover, proofCalldata);
    if parsed.Failure? {
      return Failure(parsed.error);
    }
    var proof, publicSignals := parsed.value.proof, parsed.value.publicSignals;
    var args := PaymentArgsOf(Some(publicSignals), owner);
    if args.Failure? {
      return Failure(args.error);
    }
    r := Success(Pay2Call(args.value.inputs, args.value.outputs, 1000, 0, proof, 1000));
  }

  /** End to end: when the exported calldata holds the JSON texts of the proof
      and of at least four signals, `pay2` receives that proof and those four
      signals in order, and its amounts agree with the balanced witness. */
  lemma ExportedSignalsReachPay2(j: JsonCodec, prover: ProverOutput, proofCalldata: string, owner: string, proof: Json, signals: seq<Json>)
    requires JsonLaws(j) && IsJsValue(proof) && IsJsValue(JArr(signals))
    requires Matches(proofCalldata) == [j.stringify(proof), j.stringify(JArr(signals))]
    requires |signals| >= 4
    ensures PlonkCalldata(j, prover, proofCalldata) == Success(ProverOutput(proof, JArr(signals)))
    ensures PaymentArgsOf(Some(JArr(signals)), owner).Success?
    ensures CarriedSignals(PaymentArgsOf(Some(JArr(signals)), owner).value)
      == [Some(signals[0]), Some(signals[1]), Some(signals[2]), Some(signals[3])]
    ensures Balanced(FixedTransferWitness)
  {
    PlonkCalldataRoundTrip(j, prover, proofCalldata, proof, JArr(signals));
    PaymentArgsCarrySignals(signals, owner);
    FixedTransferWitnessBalanced();
  }
}

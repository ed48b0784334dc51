/**
 * What the tests hand to the transfer circuit and to the payment contracts:
 * the witness of a two-input, two-output transfer, and the `inputs` and
 * `outputs` arguments that are read out of the public signals.
 */
module Transfer {
  import opened Wrappers
  import opened Primitives
  import opened JsValues

  /** The circuit input of `transfer2`. The tests write every amount and
      secret as a decimal string; here they are the numbers they spell. */
  datatype Witness = Witness(
    inPublicAmount: nat,
    outPublicAmount: nat,
    inputAmounts: seq<nat>,
    inputSecrets: seq<nat>,
    outputAmounts: seq<nat>,
    outputSecrets: seq<nat>)

  function Sum(xs: seq<nat>): nat
  {
    if xs == [] then 0 else xs[0] + Sum(xs[1..])
  }

  /** Value conservation as the transfer circuit enforces it: what comes in
      publicly plus the spent notes equals what goes out publicly plus the new
      notes. */
  predicate Balanced(w: Witness)
  {
    w.inPublicAmount + Sum(w.inputAmounts) == w.outPublicAmount + Sum(w.outputAmounts)
  }

  /** The witness of both "should transfer" tests: 1000 deposited publicly
      into one new note of 1000 with secret 1. */
  const FixedTransferWitness: Witness := Witness(1000, 0, [0, 0], [0, 0], [1000, 0], [1, 0])

  lemma FixedTransferWitnessBalanced()
    ensures Balanced(FixedTransferWitness)
    ensures |FixedTransferWitness.inputAmounts| == 2 && |FixedTransferWitness.outputAmounts| == 2
  {
    assert Sum([1000, 0]) == 1000 + Sum([0]);
  }

  /** The declared public amounts and the value sent agree with a witness: the
      contract is told the witness's public amounts, and the native value
      paid in is the public input amount. */
  predicate CallAgreesWithWitness(publicIn: int, publicOut: int, value: int, w: Witness)
  {
    publicIn == w.inPublicAmount && publicOut == w.outPublicAmount && value == w.inPublicAmount
  }

  /** One element of `outputs`: the owner address, the encrypted amount read
      from the public signals, and the empty message `"0x"`. */
  datatype Output = Output(owner: string, encryptedAmount: JsValue, message: string)

  /** The `inputs` and `outputs` arguments of `pay2` and `magicPay`. */
  datatype PaymentArgs = PaymentArgs(inputs: seq<JsValue>, outputs: seq<Output>)

  /** The public signals the arguments carry, in the order they were read. */
  function CarriedSignals(args: PaymentArgs): seq<JsValue>
  {
    args.inputs + seq(|args.outputs|, k requires 0 <= k < |args.outputs| => args.outputs[k].encryptedAmount)
  }

  /**
   * `inputs = [publicSignals[0], publicSignals[1]]` and the two outputs owned
   * by `owner` with `publicSignals[2]` and `publicSignals[3]` as encrypted
   * amounts. Indexing `undefined` or `null` throws a TypeError.
   */
  function PaymentArgsOf(publicSignals: JsValue, owner: string): (r: Result<PaymentArgs, JsError>)
    ensures r.Failure? <==> publicSignals == None || publicSignals == Some(JNull)
    ensures r.Failure? ==> r.error == TypeError
    ensures r.Success? ==> |r.value.inputs| == 2 && |r.value.outputs| == 2
    ensures r.Success? ==> forall k :: 0 <= k < |r.value.outputs| ==>
      r.value.outputs[k].owner == owner && r.value.outputs[k].message == "0x"
  {
    match Member(publicSignals, 0)
    case Failure(e) => Failure(e)
    case Success(in0) =>
      var in1 := Member(publicSignals, 1).value;
      var out0 := Member(publicSignals, 2).value;
      var out1 := Member(publicSignals, 3).value;
      Success(PaymentArgs([in0, in1], [Output(owner, out0, "0x"), Output(owner, out1, "0x")]))
  }

  /** Nothing is lost or reordered: the arguments carry the first four public
      signals, in order, and nothing else. */
  lemma PaymentArgsCarrySignals(signals: seq<Json>, owner: string)
    requires |signals| >= 4
    ensures PaymentArgsOf(Some(JArr(signals)), owner).Success?
    ensures CarriedSignals(PaymentArgsOf(Some(JArr(signals)), owner).value)
      == [Some(signals[0]), Some(signals[1]), Some(signals[2]), Some(signals[3])]
  {
    var args := PaymentArgsOf(Some(JArr(signals)), owner).value;
    assert args.inputs == [Some(signals[0]), Some(signals[1])];
    assert args.outputs[0].encryptedAmount == Some(signals[2]);
    assert args.outputs[1].encryptedAmount == Some(signals[3]);
  }
}

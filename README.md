# Confidential transaction: envelope, box and calldata model

A Dafny model of the off-chain helpers of the confidential-transaction
repository. It covers three parts.

- **Password envelopes** (`CryptoEngine.encryptAesGcm` / `decryptAesGcm`). A value
  is encrypted under a password into the text
  `"enc::" + hex(salt[64] ‖ iv[16] ‖ tag[16] ‖ counter digits[5] ‖ ciphertext)`.
  The AES-256-GCM key is PBKDF2-HMAC-SHA512 of the password, with an iteration
  count derived from the printed decoy counter. Decryption reverses the layout and
  returns `undefined` on any failure.
- **Public-key boxes** (`encryptSymmetric` / `decryptSymmetric` /
  `getEncryptionPublicKey`). A message is boxed with NaCl `crypto_box` for a
  Curve25519 public key and carried as three base64 fields.
- **The calldata adapter.** This is the code in `calucateZkProof` and the tests
  that turns the prover's exported calldata into contract arguments:
  - the `/\[.*?\]/g` group search and its count guard (Plonk);
  - the bracket-wrap and four-way destructuring (Groth16);
  - the `inputs` / `outputs` arguments read from the public signals;
  - the transfer witnesses;
  - the `split("0x")[1]` key strip of the "encryption" test.

The primitives are abstract. AES-GCM, PBKDF2, NaCl box, base64, UTF-8 and JSON
each appear as a datatype of functions (`Primitives.dfy`). Each has a ghost
predicate stating the law it is trusted to obey, for example "open after seal
gives the message back" or "parse after stringify gives the value back". The
JSON law is stated only for values `JSON.parse` can return (`IsJsValue`): safe
integers, and objects whose keys are distinct and listed in JavaScript's
enumeration order, with index-like keys first and ascending. UTF-8 has two
laws, one per library. Node's `Buffer` codec, used for password envelopes,
gives every text back (`Utf8Laws`). The `utf8` codec of `@scure/base`, used
for boxes, is a `TextDecoder` that drops one leading byte-order mark U+FEFF
(`TextCodecLaws`). Every
lemma that relies on a law names it in its `requires`; nothing is assumed
globally.

All randomness arrives as parameters, with the lengths that the random sources
guarantee:
- the salt and IV of `crypto.randomBytes`;
- `Math.random()`;
- the ephemeral key pair and the nonce of tweetnacl.

The prover and `exportSolidityCallData` are outside the model. Their output (the
prover's values and the calldata text) is a parameter as well.

Two JavaScript and Node behaviours are written out:
- `Buffer.from(s, "hex")` stops at the first pair that is not an ASCII hex
  pair and drops an odd trailing digit (characters above U+00FF are not
  modelled; see "## Left out");
- `String.prototype.split` scans left to right and does not overlap matches.

`parseInt(s, 10)` is also written out: it skips leading white space, takes an
optional sign and the leading digits, and gives NaN when there are none. Member
access `v[k]` on a parsed value follows JavaScript too: `undefined` and `null`
throw a TypeError.

The UTF-8 codec's fields are named by direction. `encode` takes text to bytes
and `decode` takes bytes to text. `@scure/base` names the same two functions
the other way round.

Where the behaviour of the code and the behaviour asked of it differ, the model
follows the code. Requested behaviour becomes a separate member with the
relation between the two proved. This happens in three places:
- **Count guard.** On a group count other than two, the code silently keeps
  the prover's values. `ProofAdapter.StrictPlonkCalldata` is the stricter
  behaviour that raises a format error instead, and
  `ProofAdapter.GuardVersusStrict` relates the two.
- **Groth16 destructuring.** The code destructures without a length check, and
  so does the model.
- **Deposit amounts.** The deposit helper hard-codes its amounts, and so does
  the model (see Findings).

## Model

| member | source | states |
|---|---|---|
| JsText.SplitCount | test/utils/crypto.ts:100-103 | `split` on a separator whose first character does not recur yields one part more than the separator has occurrences, so "exactly two parts" means "exactly one marker" |
| JsText.Split | test/utils/crypto.ts:100 | `split` always returns at least one part |
| JsText.JoinSplit | test/utils/crypto.ts:100 | joining the parts of `split` with the separator gives back the original text |
| JsText.SplitSingle | test/utils/crypto.ts:100-109 | when the separator occurs once, the two parts are exactly the text before it and the text after it |
| JsText.SplitAbsent | test/utils/crypto.ts:100 | a text without the separator splits into itself alone |
| JsText.CountWithoutChar | test/utils/crypto.ts:86-88 | a text lacking one character of the separator contains no occurrence of it |
| JsText.SplitAfterLeadingSeparator | test/utils/crypto.ts:88 | separator plus a separator-free rest splits into `""` and the rest, with one occurrence |
| JsText.DecimalString | test/utils/crypto.ts:84 | `toString()` of a non-negative integer is non-empty, all decimal digits, with no leading zero except for 0 itself |
| JsText.FiveDigits | test/utils/crypto.ts:52-53 | every counter from 10000 to 99999 prints as exactly five digits |
| JsText.TrimStart | test/utils/crypto.ts:118-121 | `parseInt`'s white-space skip removes exactly the leading white space |
| JsText.LeadingDigits | test/utils/crypto.ts:118-121 | the digit run `parseInt` reads is the longest all-digit prefix |
| JsText.DigitsValueOfDecimal | test/utils/crypto.ts:118-121 | reading the printed digits of `n` gives back `n` |
| JsText.ParseIntOfDecimal | test/utils/crypto.ts:118-121 | `parseInt` of the decimal text of `n`, followed by nothing or a non-digit, is `n` |
| JsText.ParseIntNonNumeric | test/utils/crypto.ts:118-121 | text starting with a character that is not white space, a sign or a digit parses to NaN |
| Buffers.Slice | test/utils/crypto.ts:115-122 | `Buffer.slice` clamps both bounds: in range it is the exact subsequence, past the end it is shortened or empty |
| Buffers.HexEncode | test/utils/crypto.ts:86 | `toString("hex")` has two characters per byte |
| Buffers.HexEncodeIsLowerHex | test/utils/crypto.ts:86 | every character of `toString("hex")` is a lower-case hex digit |
| Buffers.HexDecode | test/utils/crypto.ts:112 | `Buffer.from(s, "hex")`, reading ASCII hex digits only, never yields more than half as many bytes as characters |
| Buffers.HexDecodeOfEncoded | test/utils/crypto.ts:86-112 | decoding hex-encoded bytes followed by any text yields those bytes followed by the decoding of the text |
| Buffers.HexRoundTrip | test/utils/crypto.ts:86-112 | hex decoding inverts hex encoding |
| Buffers.HexDecodeLength | test/utils/crypto.ts:195 | a well-formed hex text of even length decodes to exactly half its length in bytes |
| PasswordEnvelope.DecoyCounter | test/utils/crypto.ts:52-53 | the counter drawn from `Math.random()` lies in [10000, 99999] |
| PasswordEnvelope.WorkFactor | test/utils/crypto.ts:59 | the iteration count is NaN exactly when the counter is NaN, lies in [6037, 48336] for counters in range, and is at least 1337 for non-negative ones |
| PasswordEnvelope.DeriveKeyFromPassword | test/utils/crypto.ts:20-26 | a key is derived exactly when the iteration count is an integer in [1, 2^31-1] (otherwise `pbkdf2Sync` throws), and it is 32 bytes long |
| PasswordEnvelope.Pack | test/utils/crypto.ts:80-86 | the concatenation of fields of the fixed lengths is 101 bytes plus the ciphertext |
| PasswordEnvelope.Unpack | test/utils/crypto.ts:115-122 | the slices at 0/64/80/96/101 concatenate back to any buffer of at least 101 bytes; a shorter buffer has an empty ciphertext |
| PasswordEnvelope.UnpackPack | test/utils/crypto.ts:115-122 | slicing at the fixed offsets recovers salt, IV, tag, counter digits and ciphertext exactly |
| PasswordEnvelope.MarkerBeforeHex | test/utils/crypto.ts:86-88 | `"enc::"` in front of lower-case hex occurs exactly once, and splitting on it yields `""` and the hex |
| PasswordEnvelope.EncryptAesGcm | test/utils/crypto.ts:32-94 | the output is the envelope of the serialised input under the derived key with the drawn counter; it begins with the marker, which occurs in it exactly once |
| PasswordEnvelope.EnvelopeLayout | test/utils/crypto.ts:80-88 | the envelope is the marker plus the hex of 101 + \|ciphertext\| bytes; its slices are the given salt and IV, a 16-byte tag, five counter digits that `parseInt` reads back as the counter, and a ciphertext as long as the encoded text |
| PasswordEnvelope.DecryptAesGcm | test/utils/crypto.ts:96-156 | the step-by-step decryption returns the specified result, and `undefined` whenever the marker does not occur exactly once |
| PasswordEnvelope.RoundTrip | test/utils/crypto.ts:37-41 | decrypting an untampered envelope with the same password yields the serialised text read as JSON, or the raw text where `JSON.parse` throws |
| PasswordEnvelope.StructuredRoundTrip | test/utils/crypto.ts:146-147 | an encrypted object that `JSON.parse` could return decrypts to a structurally equal value |
| PasswordEnvelope.RawTextRoundTrip | test/utils/crypto.ts:148-149 | a string that is not JSON decrypts to itself |
| PasswordEnvelope.JsonTextRoundTrip | test/utils/crypto.ts:146-147 | a string that is JSON decrypts to its parsed value, not to the original string |
| PasswordEnvelope.MarkerGuard | test/utils/crypto.ts:100-107 | a text in which the marker does not occur exactly once decrypts to `undefined` |
| PasswordEnvelope.MarkerAnywhere | test/utils/crypto.ts:100-110 | with a single marker anywhere in the text, decryption reads whatever follows it, ignoring what precedes it |
| PasswordEnvelope.NonNumericCounterFails | test/utils/crypto.ts:118-129 | counter bytes that `parseInt` reads as NaN make key derivation fail, and decryption returns `undefined` |
| PasswordEnvelope.SuccessMeansAuthentic | test/utils/crypto.ts:138-144 | a successful decryption implies one marker, a derivable key and a ciphertext that the cipher authenticated under the stored tag |
| PublicKeyBox.GetEncryptionPublicKey | test/utils/crypto.ts:229-234 | fails with "bad secret key size" exactly when the hex key does not decode to 32 bytes; otherwise the base64 text decodes to the key's public key |
| PublicKeyBox.EncryptSymmetric | test/utils/crypto.ts:158-189 | "Bad public key" exactly when the key is not base64; "bad public key size" exactly when it decodes to other than 32 bytes; success exactly when it decodes to 32 bytes, and then the three fields decode to the nonce, the ephemeral public key and the box of the UTF-8 message |
| PublicKeyBox.DecryptSymmetric | test/utils/crypto.ts:191-227 | as written: every failure of the corrected decryption and every non-empty success of it is returned unchanged, and an empty message is reported as "Decryption failed."; every success is non-empty |
| PublicKeyBox.DecryptSymmetricAllowingEmpty | test/utils/crypto.ts:195-225 | without the `!output` check: "bad secret key size" exactly when the key is not 32 bytes; otherwise a base64 error exactly when a field does not decode; otherwise "bad public key size" exactly when the ephemeral key is not 32 bytes; otherwise "bad nonce size" exactly when the nonce is not 24 bytes; once every check passes, "Decryption failed." exactly when `box.open` returns null, and otherwise the UTF-8 text of the opened message |
| PublicKeyBox.BoxRoundTrip | test/utils/crypto.ts:158-234 | a message boxed for the public key of a secret key opens with that secret key to the same message less a leading byte-order mark, the empty one included |
| PublicKeyBox.BoxRoundTripNonEmpty | test/utils/crypto.ts:158-227 | as written, every message that does not decode to the empty text makes the round trip, less a leading byte-order mark |
| PublicKeyBox.EmptyMessageRejected | test/utils/crypto.ts:218-222 | as written, `""` and a lone U+FEFF box but decrypting them fails with "Decryption failed." |
| JsValues.Lookup | test/ETHPay.spec.ts:49 | an object member is found exactly when some member has the key, and the value found is that of the last member with the key |
| JsValues.Member | test/ETHPay.spec.ts:49-58 | indexing throws a TypeError exactly on `undefined` and `null`; on an array it gives the element, or `undefined` past the end |
| ProofAdapter.CloseFrom | test/utils/crypto.ts:249 | where the lazy `.*?\]` ends, when it ends, is a `]` inside the text at or after the start |
| ProofAdapter.CloseFromFirst | test/utils/crypto.ts:249 | the end found is the first `]`, with no line terminator before it; when there is none, every `]` has a line terminator before it |
| ProofAdapter.CloseFromIsShortestMatch | test/utils/crypto.ts:249 | from a `[`, the end found is a match of the pattern and no shorter match exists; when none is found, no match starts there |
| ProofAdapter.SpansFromWellFormed | test/ETHPay.spec.ts:41 | every group taken starts at `[`, ends at `]`, contains no line terminator, and groups follow each other without overlap |
| ProofAdapter.SpansFromLazy | test/ETHPay.spec.ts:41 | the search is lazy: no group holds a `]` before its last character, so each ends at the first `]` after its `[` |
| ProofAdapter.SpansFrom | test/utils/crypto.ts:249 | every group the global search takes from an index lies inside the text, at or after that index, and is non-empty |
| ProofAdapter.SpansFromCover | test/utils/crypto.ts:249 | no match is missed: every position at or after the search's start where the pattern matches lies inside one of the groups taken |
| ProofAdapter.SpansCover | test/ETHPay.spec.ts:41 | every match of the pattern in the calldata lies inside one of the groups `match` returns, whose text is that group's substring |
| ProofAdapter.MatchesShape | test/ETHPay.spec.ts:41 | the matched texts are the substrings of well-formed, non-overlapping, left-to-right groups, each ending at the first `]` after its `[` |
| ProofAdapter.MatchBrackets | test/utils/crypto.ts:249 | the hand-written scanner returns exactly the matches of `/\[.*?\]/g` |
| ProofAdapter.ParsePlonkCalldata | test/utils/crypto.ts:249-255 | proof and signals are overwritten by the parsed groups only when there are exactly two groups; for any other count, no match included, the prover's values come back unchanged and no error is raised |
| ProofAdapter.PlonkCalldataRoundTrip | test/utils/crypto.ts:251-255 | when the two groups are the JSON texts of a proof and of signals, the guard yields exactly that proof and those signals |
| ProofAdapter.StrictPlonkCalldata | test/ETHPay.spec.ts:43-47 | the strict reading fails with a format error exactly when the group count is not two |
| ProofAdapter.GuardVersusStrict | test/ETHPay.spec.ts:43-47 | with two groups the code and the strict reading agree; otherwise the code keeps the prover's values where the strict reading fails |
| Transfer.FixedTransferWitnessBalanced | test/ETHPay.spec.ts:24-32 | the fixed witness balances, 1000 + 0 + 0 = 0 + 1000 + 0, with two inputs and two outputs |
| Transfer.PaymentArgsOf | test/ETHPay.spec.ts:49-61 | fails with a TypeError exactly when the signals are `undefined` or `null`; otherwise gives two inputs and two outputs, each owned by the caller with message `"0x"` |
| Transfer.PaymentArgsCarrySignals | test/ETHPay.spec.ts:49-61 | `inputs` is signals 0 and 1, and the encrypted amounts are signals 2 and 3, in order |
| EthPayTest.ShouldTransfer | test/ETHPay.spec.ts:41-65 | the `pay2` call declares 1000 in and 0 out and sends 1000, agreeing with the witness; it carries the guarded proof and the arguments read from the guarded signals; it fails with a SyntaxError exactly when a group does not parse, and with a TypeError exactly when the signals are `null` |
| EthPayTest.ExportedSignalsReachPay2 | test/ETHPay.spec.ts:37-65 | a calldata holding the JSON of a proof and of at least four signals puts that proof and those four signals, in order, into the call |
| MagicPayTest.Destructure4 | test/MagicPay.spec.ts:49 | four-way destructuring succeeds exactly on arrays and strings, takes positions 0-3 with no length check, and gives `undefined` for missing positions |
| MagicPayTest.Groth16Calldata | test/MagicPay.spec.ts:46-49 | the bracket-wrapped calldata yields four values, and a SyntaxError exactly when it does not parse |
| MagicPayTest.Groth16RoundTrip | test/MagicPay.spec.ts:136-139 | when the wrapped calldata is the JSON of `[pA, pB, pC, publicSignals]`, destructuring recovers all four |
| MagicPayTest.ShortCalldataLeavesSignalsUndefined | test/MagicPay.spec.ts:139-141 | with only three elements, `publicSignals` is `undefined` and reading `publicSignals[0]` throws a TypeError |
| MagicPayTest.LongCalldataKeepsFirstFour | test/MagicPay.spec.ts:139 | elements after the fourth are dropped |
| MagicPayTest.SubmitGroth16 | test/MagicPay.spec.ts:136-171 | the prover's signals are overwritten by the fourth element; the call carries the first three elements as the proof and the arguments read from the fourth, the zero token and relayer, and the given amounts; it fails exactly when parsing, destructuring or reading the signals throws |
| MagicPayTest.ShouldTransfer | test/MagicPay.spec.ts:115-171 | the `magicPay` call declares 1000 in and 0 out and sends 1000, agreeing with the fixed witness, with the zero token and relayer |
| MagicPayTest.ExportedSignalsReachMagicPay | test/MagicPay.spec.ts:131-153 | a well-formed calldata puts the exported proof points into the proof and the first four signals, in order, into the arguments |
| MagicPayTest.DepositWitness | test/MagicPay.spec.ts:27-36 | the deposit witness balances for every amount, with `amount` in publicly and nothing out |
| MagicPayTest.DepositWitnessOf1000 | test/MagicPay.spec.ts:118-126 | the fixed "should transfer" witness is the deposit witness of 1000 |
| MagicPayTest.DepositAgreesOnlyAt1000 | test/MagicPay.spec.ts:71-88 | as written, the hard-coded call amounts agree with the deposit witness exactly when the amount is 1000 |
| MagicPayTest.DepositOf500Disagrees | test/MagicPay.spec.ts:71-88 | a deposit of 500 proves a witness of 500 but declares and pays 1000 |
| MagicPayTest.IntendedDepositAmounts | test/MagicPay.spec.ts:27-36 | corrected: the call amounts agree with the deposit witness for every amount |
| MagicPayTest.Deposit | test/MagicPay.spec.ts:27-91 | as written: a successful call agrees with the proved witness exactly when the amount is 1000 |
| MagicPayTest.IntendedDeposit | test/MagicPay.spec.ts:27-91 | corrected: a successful call always agrees with the proved witness |
| MagicPayTest.EncryptionPrivateKey | test/MagicPay.spec.ts:99 | `split("0x")[1]` is defined exactly when the hash contains `0x` |
| MagicPayTest.StripHexPrefix | test/MagicPay.spec.ts:99 | `0x` followed by lower-case hex digits yields exactly the digits, since `x` is not a hex digit |
| MagicPayTest.Encryption | test/MagicPay.spec.ts:94-114 | the test fails with a TypeError-style error when the hash has no `0x` |
| MagicPayTest.EncryptionRecoversMessage | test/MagicPay.spec.ts:100-113 | for a hash of `0x` and 64 lower-case hex digits, the test decrypts "Hello world" again |

## Left out

- AES-256-GCM, PBKDF2-HMAC-SHA512, the NaCl box, base64, UTF-8 and JSON are not implemented. They are foreign library calls, trusted through the laws stated in `Primitives.dfy`.
- Tamper detection is not modelled. That a modified envelope or box fails to open is a cryptographic property; the model states only that success implies authentication.
- The cipher's streaming interface (`update`, `final`, `getAuthTag`, `setAuthTag`) is collapsed into one `seal` and one `open` call, because the chunking does not change the result.
- Randomness is not modelled. The outputs of `crypto.randomBytes`, `Math.random`, `nacl.randomBytes` and `nacl.box.keyPair` are parameters, and their lengths and ranges are preconditions.
- PasswordEnvelope.EncryptAesGcm: does not model the `catch` that returns `undefined`. With total primitives and randomness passed in, nothing in the model can throw there.
- PasswordEnvelope.WorkFactor: `Math.floor(n * 0.47 + 1337)` is modelled as the integer `n * 47 / 100 + 1337`. The two agree over the counter range, but the double arithmetic is not modelled.
- `Password` (string, Buffer or typed array) is modelled as its bytes.
- JSON numbers are restricted to integers, because floating point is not modelled.
- Strings are sequences of Unicode scalar values, whereas JavaScript strings are sequences of UTF-16 code units. A string holding a lone surrogate cannot be represented, so the model does not capture that UTF-8 encoding turns it into U+FFFD; `RawTextRoundTrip` and `BoxRoundTrip` are stated only for well-formed strings.
- Buffers.HexDecode: accepts only the ASCII hex digits, whereas Node casts each UTF-16 code unit to a byte before the look-up, so a code unit above U+00FF (such as U+0161, read as `a`) is read by its low byte. Modelling the cast needs the UTF-16 view of strings that is left out above; on such text the model decodes fewer bytes than Node in `DecryptAesGcm`, `GetEncryptionPublicKey` and `DecryptSymmetric`.
- JsValues.Member: indexes a JSON string by code point, where JavaScript's `s[k]` indexes UTF-16 code units; the two differ on characters outside the Basic Multilingual Plane.
- `typeof plainText === "object"` is modelled as the `Structured` case of the input, and `String(plainText)` on other primitives is not modelled.
- Unicode white space in `parseInt` is limited to the characters ECMAScript lists. `String.prototype.split` and `match` are modelled for their use here: a fixed non-empty separator, and the one pattern.
- snarkjs is not modelled: `fullProve`, `exportSolidityCallData`, `getCurveFromName` and `curve.terminate`. These are the external prover and native resource teardown; their output reaches the model as parameters.
- Contract deployment, the chain calls themselves, `getOwner`, `getTransactions`, hardhat fixtures and `console` logging are not modelled. The model records each call's arguments as a value.
- The deposit helper's free variables `owner` and `magicPay` become a parameter and the recorded call; its unused `receiver` argument is dropped.
- Viem's checks that arguments are well-formed hex are not modelled.
- Witness amounts are the numbers that the decimal strings spell.
- test/GenerateProof.spec.ts and hardhat.config.ts are not part of this model. They only time the prover and configure the build.

## Findings

| source | as written | input that shows it | evidently intended | confidence | as-written member | corrected member |
|---|---|---|---|---|---|---|
| test/utils/crypto.ts:218-222 | `decryptSymmetric` throws "Decryption failed." when the opened text decodes to the empty text, because of the `!output` check its own comment calls extraneous | `encryptSymmetric(pk, "")`, or `encryptSymmetric(pk, "\uFEFF")`, followed by `decryptSymmetric(…, sk)` | the message decrypts to `""` like any other | medium, not executed | PublicKeyBox.EmptyMessageRejected | PublicKeyBox.BoxRoundTrip |
| test/MagicPay.spec.ts:71-88 | the deposit helper proves a witness of `amount` but declares 1000 in and sends a value of 1000 | `deposit(500n, …)` | declare `amount` in and send `amount` | medium, not executed | MagicPayTest.DepositAgreesOnlyAt1000 | MagicPayTest.IntendedDepositAmounts |

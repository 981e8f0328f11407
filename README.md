# LEVM precompiles, modelled in Dafny

This project models the precompiled contracts of LEVM, the Ethereum virtual
machine of ethrex (`crates/vm/levm/src/precompiles.rs`): everything around the
cryptography. It covers:

- which addresses each fork recognises as precompiles;
- how a call is dispatched to one of the seventeen precompiles;
- how gas is taken from the caller's remaining gas;
- how calldata is zero-padded, sliced and zero-extended, and how results are left-padded;
- the MODEXP size header, operands and output (EIP-198);
- the length and format gates of ECPAIRING (EIP-197), BLAKE2F (EIP-152),
  point evaluation (EIP-4844) and the seven BLS12-381 precompiles (EIP-2537);
- the EIP-2537 field-element, point and scalar codecs;
- the BN254 coordinate checks against the field prime.

Curve arithmetic, pairings, hashes, the KZG check, the BLAKE2 compression
function and the gas formulas are foreign to this file. They enter the model as
parameters of function type: `GasSchedule`, `PairingOps`, `KzgOps`,
`Bls12Ops` and `CurveChecks`. Every modelled precompile is proved for every choice of
them.

`gas_remaining: &mut u64` is modelled as an input `gasRemaining` and an output
`gasAfter`, the value left behind on every path. usize is taken to be 64 bits.

Files, one module each:

- `bytes.dfy` (`Bytes`): bytes, u32/u64, big- and little-endian values.
- `errors.dfy` (`Errors`): the error variants, `Result` and `Option`.
- `gas.dfy` (`Gas`): the gas schedule and gas charging.
- `framing.dfy` (`Framing`): zero-padding, slicing and left-padding.
- `addresses.dfy` (`Addresses`): forks, addresses, `is_precompile` and dispatch.
- `modexp.dfy` (`ModExp`): MODEXP.
- `bn254.dfy` (`Bn254`): ECPAIRING.
- `blake2f.dfy` (`Blake2f`): BLAKE2F.
- `pointevaluation.dfy` (`PointEvaluation`): the point evaluation precompile.
- `bls12codec.dfy` (`Bls12Codec`): the EIP-2537 encodings.
- `bls12.dfy` (`Bls12`): the seven BLS12-381 precompiles.

## Model

| member | source | states |
|---|---|---|
| Gas.IncreasePrecompileConsumedGas | crates/vm/levm/src/precompiles.rs:235-244 | a cost no larger than the remaining gas is subtracted exactly; a larger one gives NotEnoughGas and leaves the gas unchanged |
| Framing.FillWithZeros | crates/vm/levm/src/precompiles.rs:246-254 | the result is max(len, target) long, keeps the input as its prefix and is zero after it; longer input is never cut off |
| Framing.FillWithZerosKeepsView | crates/vm/levm/src/precompiles.rs:246-254 | zero-padding never changes any zero-extended window of the calldata |
| Framing.GetSliceOrDefault | crates/vm/levm/src/precompiles.rs:403-422 | when the range holds bytes, the result is size_to_expand bytes: the calldata bytes of the range (cut at the end of the calldata), then zeros; otherwise empty; with upper = lower + size it has the value of the zero-extended window |
| Framing.IncreaseLeftPad | crates/vm/levm/src/precompiles.rs:437-453 | the result is max(len, m_size) long, ends with the input and is zero before it; input of m_size bytes or more is returned unchanged |
| Framing.IncreaseLeftPadCopy | crates/vm/levm/src/precompiles.rs:437-453 | copying the input into the tail of an m_size zero buffer produces exactly that padding |
| Framing.IncreaseLeftPadValue | crates/vm/levm/src/precompiles.rs:437-453 | left-padding keeps the big-endian value |
| Addresses.TablesByLastByte | crates/vm/levm/src/precompiles.rs:56-146 | PRECOMPILES holds exactly the addresses 0x01..0x0a and PRECOMPILES_POST_CANCUN exactly 0x0b..0x11 |
| Addresses.IsPrecompile | crates/vm/levm/src/precompiles.rs:184-196 | an address is a precompile exactly when it is 0x01..0x11, except that 0x0a needs Cancun and 0x0b..0x11 need Prague |
| Addresses.AlwaysActive | crates/vm/levm/src/precompiles.rs:125-136 | the nine addresses 0x01..0x09 are precompiles in every fork |
| Addresses.PostCancunActive | crates/vm/levm/src/precompiles.rs:184-196 | the BLS12-381 addresses are all precompiles from Prague on, and none before |
| Addresses.ActiveCount | crates/vm/levm/src/precompiles.rs:150-152 | the number of recognised precompiles is SIZE_PRECOMPILES_PRE_CANCUN (9) before Cancun, SIZE_PRECOMPILES_CANCUN (10) in Cancun, SIZE_PRECOMPILES_PRAGUE (17) from Prague |
| Addresses.ExecutePrecompileTarget | crates/vm/levm/src/precompiles.rs:198-233 | a dispatched address is the address of the precompile it leads to; every other address gives InvalidPrecompileAddress |
| Addresses.DispatchCoversTables | crates/vm/levm/src/precompiles.rs:198-233 | dispatch succeeds exactly for the addresses of the two tables |
| Addresses.DispatchRoundTrip | crates/vm/levm/src/precompiles.rs:198-233 | each of the seventeen precompiles is reached from its own address |
| Addresses.DispatchLow | crates/vm/levm/src/precompiles.rs:198-233 | an address 0x00..0xff dispatches to precompile k for 1 <= k <= 17 and fails otherwise |
| Addresses.RecognisedIsDispatched | crates/vm/levm/src/precompiles.rs:184-233 | every address that is_precompile accepts in a fork can be dispatched |
| Addresses.DispatchIgnoresFork | crates/vm/levm/src/precompiles.rs:184-233 | dispatch does not look at the fork: 0x0a is not a precompile in Shanghai, yet it dispatches to point evaluation |
| ModExp.ModExp | crates/vm/levm/src/precompiles.rs:424-435 | 0 for a zero modulus; otherwise base^exponent mod modulus (the 1 % modulus shortcut for a zero exponent agrees), below the modulus |
| ModExp.HeaderOfPaddedCalldata | crates/vm/levm/src/precompiles.rs:346-351 | the three size fields read from the zero-padded calldata are the zero-extended 32-byte words at 0, 32 and 64 |
| ModExp.ReadOperands | crates/vm/levm/src/precompiles.rs:377-389 | base, exponent and modulus are the zero-extended windows at their declared sizes after the header; the gas formula sees the first min(32, exponent_size) bytes of the exponent |
| ModExp.OutputFraming | crates/vm/levm/src/precompiles.rs:395-400 | the minimal big-endian bytes of a result below 256^m_size, left-padded and cut to m_size, are m_size bytes worth the result |
| ModExp.Modexp | crates/vm/levm/src/precompiles.rs:345-401 | both base and modulus size zero: only the static cost is charged (NotEnoughGas if it exceeds the gas) and the output is empty; otherwise a size above usize is ParsingInputError, a limit sum above usize is Overflow, a formula error is passed on, a price above the remaining gas is NotEnoughGas, and else the call succeeds: the price is charged exactly, and the output is modulus_size bytes whose value is base^exponent mod modulus; every failure leaves the gas unchanged |
| Bn254.AltBn128PrimeValue | crates/vm/levm/src/precompiles.rs:564-569 | the four little-endian limbs of ALT_BN128_PRIME make up the BN254 base-field prime |
| Bn254.ParseFirstPointCoordinates | crates/vm/levm/src/precompiles.rs:577-594 | fewer than 64 bytes is Slicing; x and y are the big-endian words at 0 and 32; it succeeds exactly when both or neither are zero, else InvalidPoint |
| Bn254.ParseSecondPointCoordinates | crates/vm/levm/src/precompiles.rs:597-644 | fewer than 128 bytes is Slicing; each Fp2 coordinate must be zero in both or neither half (else InvalidPoint), and all four halves must be below the prime (else PointNotInTheCurve); x = (bytes 96..128, 64..96), y = (160..192, 128..160) |
| Bn254.InfinityPairAccepted | crates/vm/levm/src/precompiles.rs:577-644 | 192 zero bytes (both points at infinity) pass both coordinate checks |
| Bn254.PairOutcome | crates/vm/levm/src/precompiles.rs:646-703 | a pair with both points at infinity is skipped; only a pair of two finite points contributes a pairing; every error is InvalidPoint, PointNotInSubgroup or BN254AtePairingError |
| Bn254.HandlePairingFromCoordinates | crates/vm/levm/src/precompiles.rs:646-703 | a skipped pair returns true and leaves the running product alone; a finite pair returns false and multiplies its pairing into the product; errors are those of the pair |
| Bn254.ProductOk | crates/vm/levm/src/precompiles.rs:718-745 | the product over the pairs exists exactly when every pair passes its coordinate and curve checks |
| Bn254.ProductFirstError | crates/vm/levm/src/precompiles.rs:719-745 | a failing product reports the error of the first pair that fails |
| Bn254.SkippedPairsGiveOne | crates/vm/levm/src/precompiles.rs:718-748 | when every pair is skipped (a point at infinity), the product stays at one |
| Bn254.ZeroPairsGiveOne | crates/vm/levm/src/precompiles.rs:705-752 | calldata of k all-zero pairs, including empty calldata, gives the product one whatever the curve arithmetic |
| Bn254.PairingResult | crates/vm/levm/src/precompiles.rs:747-751 | the output is 32 bytes: 31 zeros, then 1 exactly when the product is one and 0 otherwise |
| Bn254.Ecpairing | crates/vm/levm/src/precompiles.rs:705-752 | a length not divisible by 192 is ParsingInputError before any gas; a formula error is passed on and a price above the gas is NotEnoughGas, both leaving the gas unchanged; otherwise the price is charged exactly, and the result is the first failing pair's error or the output of the product (one, times the pairing of each pair without a point at infinity) |
| Blake2f.ReadU64LeWords | crates/vm/levm/src/precompiles.rs:783-795 | reading n words with get_u64_le gives the little-endian words at the cursor and moves it 8n bytes on |
| Blake2f.Blake2fParse | crates/vm/levm/src/precompiles.rs:770-803 | any length but 213 is ParsingInputError before gas; rounds is the big-endian u32 of bytes 0..4 and rounds * BLAKE2F_ROUND_COST is charged; h, m, t are 8, 16, 2 little-endian words from 4, 68, 196; a final flag other than 0 or 1 is ParsingInputError after the charge |
| Blake2f.Blake2fOutput | crates/vm/levm/src/precompiles.rs:804-806 | the output is 8 bytes for each word of the compressed state |
| Blake2f.Blake2fOutputRoundTrip | crates/vm/levm/src/precompiles.rs:805-806 | the output, each state word as 8 little-endian bytes, reads back as the state words |
| PointEvaluation.VersionedHash | crates/vm/levm/src/precompiles.rs:812-818 | the versioned hash is the SHA-256 digest of the commitment with its first byte replaced by VERSIONED_HASH_VERSION_KZG |
| PointEvaluation.PointEvaluationOutput | crates/vm/levm/src/precompiles.rs:820-828 | the success output is 64 bytes: FIELD_ELEMENTS_PER_BLOB (4096) and BLS_MODULUS as big-endian 32-byte words |
| PointEvaluation.PointEvaluation | crates/vm/levm/src/precompiles.rs:829-887 | any length but 192 is ParsingInputError before gas; then POINT_EVALUATION_COST is charged; the call succeeds exactly when the commitment hashes to the versioned hash and the KZG proof verifies (an undecodable proof counts as false), and then returns the fixed output; every other failure is ParsingInputError |
| Bls12Codec.ParseCoordinate | crates/vm/levm/src/precompiles.rs:1174-1190 | parse_coordinate succeeds exactly on a present chunk of at least 64 bytes whose first 16 bytes are zero, and returns bytes 16..64; every failure is ParsingInputError |
| Bls12Codec.ParsePaddedCoordinate | crates/vm/levm/src/precompiles.rs:1174-1190 | parsing the padding of a 48-byte field element gives it back |
| Bls12Codec.PadParsedCoordinate | crates/vm/levm/src/precompiles.rs:1174-1190 | a 64-byte chunk that parses is the padding of what it parses to |
| Bls12Codec.AddPaddedCoordinate | crates/vm/levm/src/precompiles.rs:1295-1305 | appends 16 zero bytes and then the coordinate; a missing coordinate is Slicing, after the zeros were appended |
| Bls12Codec.EncodeG1 | crates/vm/levm/src/precompiles.rs:904-914 | the G1 output is 128 bytes, x and y each after 16 zero bytes |
| Bls12Codec.EncodeG2 | crates/vm/levm/src/precompiles.rs:977-991 | the G2 output is 256 bytes, each of the four coordinates after 16 zero bytes |
| Bls12Codec.DecodeG1 | crates/vm/levm/src/precompiles.rs:1191-1237 | the byte decoding of a G1 point succeeds exactly on at least 128 bytes whose two 16-byte paddings are zero; every failure is ParsingInputError |
| Bls12Codec.DecodeG2 | crates/vm/levm/src/precompiles.rs:1239-1293 | the byte decoding of a G2 point succeeds exactly on at least 256 bytes whose four 16-byte paddings are zero; every failure is ParsingInputError |
| Bls12Codec.DecodeEncodeG1 | crates/vm/levm/src/precompiles.rs:1191-1237 | decoding the EIP-2537 encoding of a G1 point (infinity, or affine with a non-zero encoding) gives the point back |
| Bls12Codec.EncodeDecodeG1 | crates/vm/levm/src/precompiles.rs:1191-1237 | a 128-byte input that decodes is the encoding of what it decodes to (all zeros for the point at infinity) |
| Bls12Codec.DecodeEncodeG2 | crates/vm/levm/src/precompiles.rs:1239-1293 | decoding the encoding of a G2 point gives it back, through the reordering of x_0, x_1, y_0, y_1 into the crate's x_1 x_0 y_1 y_0 |
| Bls12Codec.EncodeDecodeG2 | crates/vm/levm/src/precompiles.rs:1239-1293 | a 256-byte input that decodes is the encoding of what it decodes to |
| Bls12Codec.ScalarOf | crates/vm/levm/src/precompiles.rs:1307-1326 | a scalar that parses is 32 bytes long and its four limbs, read little-endian, have the big-endian value of those bytes |
| Bls12Codec.ScalarValue | crates/vm/levm/src/precompiles.rs:1307-1326 | the four big-endian u64 chunks in reverse order, as little-endian limbs, are worth the big-endian value of the scalar |
| Bls12Codec.ParseScalar | crates/vm/levm/src/precompiles.rs:1307-1326 | filling the limb array chunk by chunk and reversing it in place gives exactly the parsed scalar: Slicing for a missing slice, ParsingInputError for a wrong length |
| Bls12Codec.ReverseLimbs | crates/vm/levm/src/precompiles.rs:1324 | the in-place reversal of the four limbs |
| Bls12.CheckPoint | crates/vm/levm/src/precompiles.rs:1210-1234 | unchecked: an unreadable encoding is ParsingInputError and a point off the curve the not-in-curve error; checked: any failure of decoding, curve or subgroup is ParsingInputError |
| Bls12.ParseG1Point | crates/vm/levm/src/precompiles.rs:1191-1237 | succeeds exactly when the bytes decode and the point is at infinity or passes the curve check, and then yields the decoded point; errors are ParsingInputError, or BLS12381G1PointNotInCurve only when unchecked |
| Bls12.ParseG2Point | crates/vm/levm/src/precompiles.rs:1239-1293 | as for G1, with the G2 decoding and BLS12381G2PointNotInCurve |
| Bls12.InfinityParses | crates/vm/levm/src/precompiles.rs:1191-1293 | the all-zero encodings parse to the points at infinity with no curve check |
| Bls12.CollectOk | crates/vm/levm/src/precompiles.rs:917-961 | the pair loops succeed exactly when every pair parses, and then hold each pair's value |
| Bls12.CollectFirstError | crates/vm/levm/src/precompiles.rs:917-961 | a failing pair loop reports the error of the first failing pair, all earlier pairs having parsed |
| Bls12.MsmErrors | crates/vm/levm/src/precompiles.rs:917-1037 | with subgroup-checked points, an MSM fails only with ParsingInputError or Slicing |
| Bls12.PadG1Result | crates/vm/levm/src/precompiles.rs:904-914 | the two add_padded_coordinate calls produce the EIP-2537 encoding of a G1 result, all zeros at infinity |
| Bls12.PadG2Result | crates/vm/levm/src/precompiles.rs:977-991 | the four add_padded_coordinate calls produce the EIP-2537 encoding of a G2 result, all zeros at infinity |
| Bls12.G1MsmOutput | crates/vm/levm/src/precompiles.rs:948-960 | copying x into bytes 16..64 and y into 80..128 of a zeroed 128-byte buffer gives the same encoding as the padded form |
| Bls12.Bls12G1Add | crates/vm/levm/src/precompiles.rs:889-915 | any length but 256 is ParsingInputError before gas; the fixed cost is charged; succeeds exactly when both points parse (curve check only) and returns the encoded sum; otherwise the first point's error |
| Bls12.Bls12G2Add | crates/vm/levm/src/precompiles.rs:963-992 | the same for 512 bytes and two G2 points |
| Bls12.G1MsmLoop | crates/vm/levm/src/precompiles.rs:926-947 | the loop's result is the sum, from the point at infinity, of the scaled pairs, or the error of the first failing pair |
| Bls12.Bls12G1Msm | crates/vm/levm/src/precompiles.rs:917-961 | an empty input or one not a multiple of 160 is ParsingInputError before gas; the formula's price for k pairs is charged; the output is the encoded MSM, or the first pair's error |
| Bls12.G2MsmLoop | crates/vm/levm/src/precompiles.rs:1003-1021 | the G2 loop's result is the sum of the scaled pairs, or the first error |
| Bls12.Bls12G2Msm | crates/vm/levm/src/precompiles.rs:994-1037 | the same as g1msm for 288-byte pairs, with the padded G2 encoding |
| Bls12.PairingLoop | crates/vm/levm/src/precompiles.rs:1049-1072 | the loop collects every pair in order, or stops at the first failing one |
| Bls12.PairingOutput | crates/vm/levm/src/precompiles.rs:1080-1088 | 32 bytes, 31 zeros, then 1 when the pairing product is the identity and 0 otherwise |
| Bls12.Bls12PairingCheck | crates/vm/levm/src/precompiles.rs:1039-1089 | an empty input or one not a multiple of 384 is ParsingInputError before gas; the formula's price for k pairs is charged; the output is the boolean word over all parsed pairs, or the first pair's error |
| Bls12.Bls12MapFpToG1 | crates/vm/levm/src/precompiles.rs:1091-1122 | any length but 64 is ParsingInputError before gas; the fixed cost is charged; succeeds exactly when the element parses and Fp::from_bytes accepts it, and returns the encoded image; every failure is ParsingInputError |
| Bls12.Bls12MapFp2ToG2 | crates/vm/levm/src/precompiles.rs:1124-1172 | any length but 128 is ParsingInputError before gas; the fixed cost is charged; succeeds exactly when both elements parse and are accepted; the zero element gives FP2_ZERO_MAPPED_TO_G2, any other the encoded image |

## Left out

- The cryptography is foreign and enters only as parameters. This covers secp256k1 recovery, SHA-256, RIPEMD-160, Keccak, the BN254 curve, twist and ate pairing, the bls12_381 group operations, map_to_curve and clear_h, multi_miller_loop, verify_kzg_proof and blake2f_compress_f.
- `ecrecover`, `identity`, `sha2_256`, `ripemd_160`, `ecadd` and `ecmul` are not modelled: each is a gas charge around a foreign primitive. They appear only as dispatch targets.
- The bodies of the gas_cost formulas are not in this file. Fixed costs and formulas are fields of `GasSchedule`, and a formula may fail with its own error. BLAKE2F_ROUND_COST is the exception (see Blake2f.Blake2fParse below).
- The `Fork` enum is defined outside this file. The model orders the forks Frontier..Osaka as the enum does.
- `FP2_ZERO_MAPPED_TO_G2` is a constant table; it is the parameter `fp2ZeroMappedToG2`.
- The checked_mul/checked_add Overflow errors in the pair loops of ecpairing and the BLS12 MSM and pairing precompiles are not modelled. They cannot fire for calldata shorter than 2^64 bytes.
- The TypeConversion errors cannot fire, because every converted slice has the right length. They are left out.
- Bn254.PairOutcome: the curve and subgroup checks and the ate pairing are parameters of `PairingOps`, over a target field `F` with its one and product. The infinity test compares the parsed integers with zero, not field elements. So a first-point coordinate at or above the prime, which the field conversion would reduce, is not modelled.
- Framing.IncreaseLeftPad: the source's Underflow and Slicing errors cannot occur, so the model returns the bytes directly.
- Blake2f.Blake2fParse: BLAKE2F_ROUND_COST is fixed at 1, the value EIP-152 gives it, instead of being a schedule field; so rounds * cost cannot overflow u64. It also stops at the compression parameters. It returns the parsed `Blake2fInput` instead of the hash, because blake2f_compress_f is foreign. The output framing is Blake2fOutput.
- Bls12.Bls12MapFp2ToG2: it tests the zero element by its bytes. That is the same test as Fp equality with zero, because Fp::from_bytes accepts only canonical encodings.
- Bls12.G1MsmLoop, Bls12.G2MsmLoop: the source multiplies and adds inside the loop. The specification collects the scaled points first and sums them after. The result is the same because the operations have no side effects.
- Bls12.CheckPoint: from_uncompressed is taken as decoding, then the on-curve check, then the subgroup check, as the bls12_381 crate does. The checks themselves are parameters.
- crates/networking/p2p/sync/trie_rebuild.rs is not part of this model: it is tokio tasks, channels and store I/O.
- crates/l2/sequencer/metrics.rs is not part of this model: it is an actor polling RPC clients.
- benchmarks/data.js is not part of this model: it is a static data snapshot.

/**
 * The seven BLS12-381 precompiles of EIP-2537 around their group arithmetic:
 * input gates, gas, point and scalar decoding, and output encoding.
 */
module Bls12 {
  import opened Bytes
  import opened Errors
  import opened Gas
  import opened Bls12Codec

  const BLS12_381_G1ADD_VALID_INPUT_LENGTH: nat := 256
  const BLS12_381_G2ADD_VALID_INPUT_LENGTH: nat := 512
  const BLS12_381_G1_MSM_PAIR_LENGTH: nat := 160
  const BLS12_381_G2_MSM_PAIR_LENGTH: nat := 288
  const BLS12_381_PAIRING_CHECK_PAIR_LENGTH: nat := 384
  const BLS12_381_FP_VALID_INPUT_LENGTH: nat := 64
  const BLS12_381_FP2_VALID_INPUT_LENGTH: nat := 128

  /**
   * What the bls12_381 crate decides about an uncompressed encoding:
   * whether from_uncompressed_unchecked accepts it, whether the point is on
   * the curve, and whether it lies in the prime-order subgroup.
   */
  datatype CurveChecks = CurveChecks(
    decodes: seq<byte> -> bool,
    onCurve: seq<byte> -> bool,
    inSubgroup: seq<byte> -> bool)

  /** The group operations and the constant table of the bls12_381 crate, left uninterpreted. */
  datatype Bls12Ops = Bls12Ops(
    g1Checks: CurveChecks,
    g2Checks: CurveChecks,
    g1Add: (G1Point, G1Point) -> G1Point,
    g1Mul: (G1Point, seq<u64>) -> G1Point,
    g2Add: (G2Point, G2Point) -> G2Point,
    g2Mul: (G2Point, seq<u64>) -> G2Point,
    // multi_miller_loop followed by final_exponentiation equals the identity of Gt
    pairingIsIdentity: seq<(G1Point, G2Point)> -> bool,
    // Fp::from_bytes accepts the 48 bytes (they encode a number below the field modulus)
    fpFromBytes: seq<byte> -> bool,
    // map_to_curve followed by clear_h
    mapFpToG1: seq<byte> -> G1Point,
    mapFp2ToG2: (seq<byte>, seq<byte>) -> G2Point,
    // FP2_ZERO_MAPPED_TO_G2: the encoded image of the zero element of Fp2
    fp2ZeroMappedToG2: seq<byte>)

  /**
   * The curve check of parse_g1_point / parse_g2_point on a point that is not
   * the point at infinity. Unchecked: an encoding the crate cannot read is a
   * ParsingInputError and a point off the curve is `notInCurve`. Checked
   * (from_uncompressed, which also demands the subgroup): any failure is a
   * ParsingInputError.
   */
  function CheckPoint(checks: CurveChecks, bytes: seq<byte>, unchecked: bool, notInCurve: VMError): (r: Result<()>)
    ensures r.Ok? <==> checks.decodes(bytes) && checks.onCurve(bytes) && (unchecked || checks.inSubgroup(bytes))
    ensures r.Err? && !unchecked ==> r.error == ParsingInputError
    ensures r.Err? && unchecked ==> r.error == (if checks.decodes(bytes) then notInCurve else ParsingInputError)
  {
    if unchecked then
      if !checks.decodes(bytes) then Err(ParsingInputError)
      else if !checks.onCurve(bytes) then Err(notInCurve)
      else Ok(())
    else if checks.decodes(bytes) && checks.onCurve(bytes) && checks.inSubgroup(bytes) then Ok(())
    else Err(ParsingInputError)
  }

  /** `parse_g1_point`: the byte decoding, then the curve check unless the point is at infinity. */
  function ParseG1Point(raw: Option<seq<byte>>, unchecked: bool, checks: CurveChecks): (r: Result<G1Point>)
    ensures r.Ok? <==>
      (DecodeG1(raw).Ok? &&
       (DecodeG1(raw).value.G1Affine? ==>
         CheckPoint(checks, DecodeG1(raw).value.uncompressed, unchecked, BLS12381G1PointNotInCurve).Ok?))
    ensures r.Ok? ==> r.value == DecodeG1(raw).value
    ensures r.Err? ==> r.error == ParsingInputError || (unchecked && r.error == BLS12381G1PointNotInCurve)
  {
    var decoded := DecodeG1(raw);
    if decoded.Err? then Err(decoded.error)
    else if decoded.value.G1Infinity? then decoded
    else
      var check := CheckPoint(checks, decoded.value.uncompressed, unchecked, BLS12381G1PointNotInCurve);
      if check.Err? then Err(check.error) else decoded
  }

  /** `parse_g2_point`: the byte decoding, then the curve check unless the point is at infinity. */
  function ParseG2Point(raw: Option<seq<byte>>, unchecked: bool, checks: CurveChecks): (r: Result<G2Point>)
    ensures r.Ok? <==>
      (DecodeG2(raw).Ok? &&
       (DecodeG2(raw).value.G2Affine? ==>
         CheckPoint(checks, DecodeG2(raw).value.uncompressed, unchecked, BLS12381G2PointNotInCurve).Ok?))
    ensures r.Ok? ==> r.value == DecodeG2(raw).value
    ensures r.Err? ==> r.error == ParsingInputError || (unchecked && r.error == BLS12381G2PointNotInCurve)
  {
    var decoded := DecodeG2(raw);
    if decoded.Err? then Err(decoded.error)
    else if decoded.value.G2Infinity? then decoded
    else
      var check := CheckPoint(checks, decoded.value.uncompressed, unchecked, BLS12381G2PointNotInCurve);
      if check.Err? then Err(check.error) else decoded
  }

  /** The all-zero encoding is the point at infinity, which passes without any curve check. */
  lemma InfinityParses(unchecked: bool, ops: Bls12Ops)
    ensures ParseG1Point(Some(Zeros(G1_POINT_LENGTH)), unchecked, ops.g1Checks) == Ok(G1Infinity)
    ensures ParseG2Point(Some(Zeros(G2_POINT_LENGTH)), unchecked, ops.g2Checks) == Ok(G2Infinity)
  {
    DecodeEncodeG1(G1Infinity);
    DecodeEncodeG2(G2Infinity);
  }

  // ---------------------------------------------------------------- folds over pairs

  /** The values of terms 0 .. n-1, or the error of the first one that fails. */
  function Collect<P>(term: nat -> Result<P>, n: nat): (r: Result<seq<P>>)
    ensures r.Ok? ==> |r.value| == n
  {
    if n == 0 then Ok([])
    else
      var prev := Collect(term, n - 1);
      if prev.Err? then prev
      else
        var last := term(n - 1);
        if last.Err? then Err(last.error) else Ok(prev.value + [last.value])
  }

  /** Collecting succeeds exactly when every term does, and then holds each term's value. */
  lemma {:induction false} CollectOk<P>(term: nat -> Result<P>, n: nat)
    ensures Collect(term, n).Ok? <==> forall i :: 0 <= i < n ==> term(i).Ok?
    ensures Collect(term, n).Ok? ==> forall i :: 0 <= i < n ==> Collect(term, n).value[i] == term(i).value
  {
    if n > 0 {
      CollectOk(term, n - 1);
    }
  }

  /** A failed collection reports the error of the first failing term. */
  lemma {:induction false} CollectFirstError<P>(term: nat -> Result<P>, n: nat)
    requires Collect(term, n).Err?
    ensures exists j ::
      && 0 <= j < n && term(j).Err? && Collect(term, n).error == term(j).error
      && forall i :: 0 <= i < j ==> term(i).Ok?
  {
    var prev := Collect(term, n - 1);
    if prev.Err? {
      CollectFirstError(term, n - 1);
    } else {
      CollectOk(term, n - 1);
      assert term(n - 1).Err?;
    }
  }

  /** Once a term fails, every longer collection fails with its error. */
  lemma {:induction false} CollectStopsAt<P>(term: nat -> Result<P>, i: nat, n: nat)
    requires i < n && Collect(term, i).Ok? && term(i).Err?
    ensures Collect(term, n) == Err(term(i).error)
  {
    if n > i + 1 {
      CollectStopsAt(term, i, n - 1);
    }
  }

  /** The running sum of the MSM loops: the identity, then each term added on the right. */
  function Sum<P>(identity: P, add: (P, P) -> P, terms: seq<P>): P {
    if terms == [] then identity else add(Sum(identity, add, terms[..|terms| - 1]), terms[|terms| - 1])
  }

  // ---------------------------------------------------------------- G1 and G2 pairs

  /** The i-th (point, scalar) pair of a G1 MSM input, scaled. */
  function G1MsmTerm(ops: Bls12Ops, calldata: seq<byte>, i: nat): Result<G1Point> {
    var offset := i * BLS12_381_G1_MSM_PAIR_LENGTH;
    var point := ParseG1Point(Get(calldata, offset, offset + 128), false, ops.g1Checks);
    if point.Err? then Err(point.error)
    else
      var scalar := ScalarOf(Get(calldata, offset + 128, offset + 160));
      if scalar.Err? then Err(scalar.error) else Ok(ops.g1Mul(point.value, scalar.value))
  }

  function G1MsmTerms(ops: Bls12Ops, calldata: seq<byte>): nat -> Result<G1Point> {
    (i: nat) => G1MsmTerm(ops, calldata, i)
  }

  /** The i-th (point, scalar) pair of a G2 MSM input, scaled. */
  function G2MsmTerm(ops: Bls12Ops, calldata: seq<byte>, i: nat): Result<G2Point> {
    var offset := i * BLS12_381_G2_MSM_PAIR_LENGTH;
    var point := ParseG2Point(Get(calldata, offset, offset + 256), false, ops.g2Checks);
    if point.Err? then Err(point.error)
    else
      var scalar := ScalarOf(Get(calldata, offset + 256, offset + 288));
      if scalar.Err? then Err(scalar.error) else Ok(ops.g2Mul(point.value, scalar.value))
  }

  function G2MsmTerms(ops: Bls12Ops, calldata: seq<byte>): nat -> Result<G2Point> {
    (i: nat) => G2MsmTerm(ops, calldata, i)
  }

  /** The i-th (G1, G2) pair of a pairing-check input, both points subgroup-checked. */
  function PairingTerm(ops: Bls12Ops, calldata: seq<byte>, i: nat): Result<(G1Point, G2Point)> {
    var offset := i * BLS12_381_PAIRING_CHECK_PAIR_LENGTH;
    var g1 := ParseG1Point(Get(calldata, offset, offset + 128), false, ops.g1Checks);
    if g1.Err? then Err(g1.error)
    else
      var g2 := ParseG2Point(Get(calldata, offset + 128, offset + 384), false, ops.g2Checks);
      if g2.Err? then Err(g2.error) else Ok((g1.value, g2.value))
  }

  function PairingTerms(ops: Bls12Ops, calldata: seq<byte>): nat -> Result<(G1Point, G2Point)> {
    (i: nat) => PairingTerm(ops, calldata, i)
  }

  /** The G1 multi-scalar multiplication of the first n pairs, or the first pair's error. */
  function G1Msm(ops: Bls12Ops, calldata: seq<byte>, n: nat): Result<G1Point> {
    var terms := Collect(G1MsmTerms(ops, calldata), n);
    if terms.Err? then Err(terms.error) else Ok(Sum(G1Infinity, ops.g1Add, terms.value))
  }

  function G2Msm(ops: Bls12Ops, calldata: seq<byte>, n: nat): Result<G2Point> {
    var terms := Collect(G2MsmTerms(ops, calldata), n);
    if terms.Err? then Err(terms.error) else Ok(Sum(G2Infinity, ops.g2Add, terms.value))
  }

  /** The subgroup checks of MSM and pairing inputs make every failure a ParsingInputError or a bad scalar slice. */
  lemma MsmErrors(ops: Bls12Ops, calldata: seq<byte>, n: nat)
    ensures G1Msm(ops, calldata, n).Err? ==> G1Msm(ops, calldata, n).error in {ParsingInputError, Slicing}
    ensures G2Msm(ops, calldata, n).Err? ==> G2Msm(ops, calldata, n).error in {ParsingInputError, Slicing}
  {
    if G1Msm(ops, calldata, n).Err? {
      CollectFirstError(G1MsmTerms(ops, calldata), n);
    }
    if G2Msm(ops, calldata, n).Err? {
      CollectFirstError(G2MsmTerms(ops, calldata), n);
    }
  }

  // ---------------------------------------------------------------- output framing

  /**
   * The padded encoding of a G1 result, built with add_padded_coordinate as
   * g1add and map_fp_to_g1 do. The coordinate ranges lie inside the crate's 96
   * bytes, so add_padded_coordinate's Slicing error cannot occur.
   */
  method PadG1Result(p: G1Point) returns (r: Result<seq<byte>>)
    ensures r == Ok(EncodeG1(p))
  {
    if p.G1Infinity? {
      return Ok(Zeros(G1_POINT_LENGTH));
    }
    var b := p.uncompressed;
    var padded: seq<byte> := [];
    var added;
    added, padded := AddPaddedCoordinate(padded, Get(b, 0, 48));
    assert added.Ok?;
    added, padded := AddPaddedCoordinate(padded, Get(b, 48, 96));
    assert added.Ok?;
    assert padded == PaddedCoordinate(b[0..48]) + PaddedCoordinate(b[48..96]);
    r := Ok(padded);
  }

  /**
   * The padded encoding of a G2 result: the crate's x_1 || x_0 || y_1 || y_0
   * put back in EIP-2537 order, with no Slicing error possible either.
   */
  method PadG2Result(p: G2Point) returns (r: Result<seq<byte>>)
    ensures r == Ok(EncodeG2(p))
  {
    if p.G2Infinity? {
      return Ok(Zeros(G2_POINT_LENGTH));
    }
    var b := p.uncompressed;
    var padded: seq<byte> := [];
    var added;
    added, padded := AddPaddedCoordinate(padded, Get(b, 48, 96));
    assert added.Ok?;
    added, padded := AddPaddedCoordinate(padded, Get(b, 0, 48));
    assert added.Ok?;
    added, padded := AddPaddedCoordinate(padded, Get(b, 144, 192));
    assert added.Ok?;
    added, padded := AddPaddedCoordinate(padded, Get(b, 96, 144));
    assert added.Ok?;
    assert padded == PaddedCoordinate(b[48..96]) + PaddedCoordinate(b[0..48])
                   + PaddedCoordinate(b[144..192]) + PaddedCoordinate(b[96..144]);
    r := Ok(padded);
  }

  /** g1msm's output: a 128-byte zero buffer with x copied to 16..64 and y to 80..128. */
  method G1MsmOutput(p: G1Point) returns (out: seq<byte>)
    ensures out == EncodeG1(p)
  {
    var output := new byte[128](_ => 0);
    if p.G1Infinity? {
      return output[..];
    }
    var b := p.uncompressed;
    var i := 0;
    while i < 48
      invariant 0 <= i <= 48
      invariant forall k :: 0 <= k < 16 ==> output[k] == 0
      invariant forall k :: 16 <= k < 16 + i ==> output[k] == b[k - 16]
      invariant forall k :: 16 + i <= k < 64 ==> output[k] == 0
      invariant forall k :: 64 <= k < 80 ==> output[k] == 0
      invariant forall k :: 80 <= k < 80 + i ==> output[k] == b[k - 32]
      invariant forall k :: 80 + i <= k < 128 ==> output[k] == 0
    {
      output[16 + i] := b[i];
      output[80 + i] := b[48 + i];
      i := i + 1;
    }
    out := output[..];
    assert out == PaddedCoordinate(b[0..48]) + PaddedCoordinate(b[48..96]);
  }

  // ---------------------------------------------------------------- the precompiles

  /**
   * `bls12_g1add`: exactly 256 bytes, the fixed cost, two points checked only
   * for being on the curve, and the encoded sum.
   */
  method Bls12G1Add(calldata: seq<byte>, gasRemaining: u64, schedule: GasSchedule, ops: Bls12Ops)
    returns (r: Result<seq<byte>>, gasAfter: u64)
    ensures |calldata| != BLS12_381_G1ADD_VALID_INPUT_LENGTH ==> r == Err(ParsingInputError) && gasAfter == gasRemaining
    ensures |calldata| == BLS12_381_G1ADD_VALID_INPUT_LENGTH && gasRemaining < schedule.bls12G1Add ==>
      r == Err(NotEnoughGas) && gasAfter == gasRemaining
    ensures |calldata| == BLS12_381_G1ADD_VALID_INPUT_LENGTH && schedule.bls12G1Add <= gasRemaining ==>
      var p := ParseG1Point(Some(calldata[0..128]), true, ops.g1Checks);
      var q := ParseG1Point(Some(calldata[128..256]), true, ops.g1Checks);
      && gasAfter == gasRemaining - schedule.bls12G1Add
      && (r.Ok? <==> p.Ok? && q.Ok?)
      && (r.Ok? ==> r.value == EncodeG1(ops.g1Add(p.value, q.value)))
      && (r.Err? ==> r.error == if p.Err? then p.error else q.error)
  {
    gasAfter := gasRemaining;
    if |calldata| != BLS12_381_G1ADD_VALID_INPUT_LENGTH {
      return Err(ParsingInputError), gasAfter;
    }
    var charged;
    charged, gasAfter := IncreasePrecompileConsumedGas(schedule.bls12G1Add, gasRemaining);
    if charged.Err? {
      return Err(NotEnoughGas), gasAfter;
    }
    var first := ParseG1Point(Get(calldata, 0, 128), true, ops.g1Checks);
    if first.Err? {
      return Err(first.error), gasAfter;
    }
    var second := ParseG1Point(Get(calldata, 128, 256), true, ops.g1Checks);
    if second.Err? {
      return Err(second.error), gasAfter;
    }
    r := PadG1Result(ops.g1Add(first.value, second.value));
  }

  /**
   * `bls12_g2add`: exactly 512 bytes, the fixed cost, two points checked only
   * for being on the curve, and the encoded sum.
   */
  method Bls12G2Add(calldata: seq<byte>, gasRemaining: u64, schedule: GasSchedule, ops: Bls12Ops)
    returns (r: Result<seq<byte>>, gasAfter: u64)
    ensures |calldata| != BLS12_381_G2ADD_VALID_INPUT_LENGTH ==> r == Err(ParsingInputError) && gasAfter == gasRemaining
    ensures |calldata| == BLS12_381_G2ADD_VALID_INPUT_LENGTH && gasRemaining < schedule.bls12G2Add ==>
      r == Err(NotEnoughGas) && gasAfter == gasRemaining
    ensures |calldata| == BLS12_381_G2ADD_VALID_INPUT_LENGTH && schedule.bls12G2Add <= gasRemaining ==>
      var p := ParseG2Point(Some(calldata[0..256]), true, ops.g2Checks);
      var q := ParseG2Point(Some(calldata[256..512]), true, ops.g2Checks);
      && gasAfter == gasRemaining - schedule.bls12G2Add
      && (r.Ok? <==> p.Ok? && q.Ok?)
      && (r.Ok? ==> r.value == EncodeG2(ops.g2Add(p.value, q.value)))
      && (r.Err? ==> r.error == if p.Err? then p.error else q.error)
  {
    gasAfter := gasRemaining;
    if |calldata| != BLS12_381_G2ADD_VALID_INPUT_LENGTH {
      return Err(ParsingInputError), gasAfter;
    }
    var charged;
    charged, gasAfter := IncreasePrecompileConsumedGas(schedule.bls12G2Add, gasRemaining);
    if charged.Err? {
      return Err(NotEnoughGas), gasAfter;
    }
    var first := ParseG2Point(Get(calldata, 0, 256), true, ops.g2Checks);
    if first.Err? {
      return Err(first.error), gasAfter;
    }
    var second := ParseG2Point(Get(calldata, 256, 512), true, ops.g2Checks);
    if second.Err? {
      return Err(second.error), gasAfter;
    }
    r := PadG2Result(ops.g2Add(first.value, second.value));
  }

  /** One pass of bls12_g1msm's loop: the i-th point (subgroup-checked) times the i-th scalar. */
  method G1MsmStep(calldata: seq<byte>, i: nat, ops: Bls12Ops) returns (r: Result<G1Point>)
    ensures r == G1MsmTerm(ops, calldata, i)
  {
    var pointOffset := i * BLS12_381_G1_MSM_PAIR_LENGTH;
    var scalarOffset := pointOffset + 128;
    var pairEnd := scalarOffset + 32;
    var point := ParseG1Point(Get(calldata, pointOffset, scalarOffset), false, ops.g1Checks);
    if point.Err? {
      return Err(point.error);
    }
    var scalar := ParseScalar(Get(calldata, scalarOffset, pairEnd));
    if scalar.Err? {
      return Err(scalar.error);
    }
    r := Ok(ops.g1Mul(point.value, scalar.value));
  }

  /** The loop of bls12_g1msm over k pairs: each scaled point is added to the running result. */
  method G1MsmLoop(calldata: seq<byte>, k: nat, ops: Bls12Ops) returns (r: Result<G1Point>)
    ensures r == G1Msm(ops, calldata, k)
  {
    ghost var terms := G1MsmTerms(ops, calldata);
    var result := G1Infinity;
    var i := 0;
    while i < k
      invariant 0 <= i <= k
      invariant Collect(terms, i).Ok? && result == Sum(G1Infinity, ops.g1Add, Collect(terms, i).value)
    {
      var scaledPoint := G1MsmStep(calldata, i, ops);
      assert terms(i) == scaledPoint;
      if scaledPoint.Err? {
        CollectStopsAt(terms, i, k);
        return Err(scaledPoint.error);
      }
      result := ops.g1Add(result, scaledPoint.value);
      i := i + 1;
    }
    r := Ok(result);
  }


  /** One pass of bls12_g2msm's loop: the i-th point (subgroup-checked) times the i-th scalar. */
  method G2MsmStep(calldata: seq<byte>, i: nat, ops: Bls12Ops) returns (r: Result<G2Point>)
    ensures r == G2MsmTerm(ops, calldata, i)
  {
    var pointOffset := i * BLS12_381_G2_MSM_PAIR_LENGTH;
    var scalarOffset := pointOffset + 256;
    var pairEnd := scalarOffset + 32;
    var point := ParseG2Point(Get(calldata, pointOffset, scalarOffset), false, ops.g2Checks);
    if point.Err? {
      return Err(point.error);
    }
    var scalar := ParseScalar(Get(calldata, scalarOffset, pairEnd));
    if scalar.Err? {
      return Err(scalar.error);
    }
    r := Ok(ops.g2Mul(point.value, scalar.value));
  }

  /** The loop of bls12_g2msm over k pairs: each scaled point is added to the running result. */
  method G2MsmLoop(calldata: seq<byte>, k: nat, ops: Bls12Ops) returns (r: Result<G2Point>)
    ensures r == G2Msm(ops, calldata, k)
  {
    ghost var terms := G2MsmTerms(ops, calldata);
    var result := G2Infinity;
    var i := 0;
    while i < k
      invariant 0 <= i <= k
      invariant Collect(terms, i).Ok? && result == Sum(G2Infinity, ops.g2Add, Collect(terms, i).value)
    {
      var scaledPoint := G2MsmStep(calldata, i, ops);
      assert terms(i) == scaledPoint;
      if scaledPoint.Err? {
        CollectStopsAt(terms, i, k);
        return Err(scaledPoint.error);
      }
      result := ops.g2Add(result, scaledPoint.value);
      i := i + 1;
    }
    r := Ok(result);
  }


  /**
   * `bls12_g1msm`: a non-empty multiple of 160 bytes, the cost of k pairs, the
   * multi-scalar multiplication, and its sum written into a zeroed 128-byte
   * buffer.
   */
  method Bls12G1Msm(calldata: seq<byte>, gasRemaining: u64, schedule: GasSchedule, ops: Bls12Ops)
    returns (r: Result<seq<byte>>, gasAfter: u64)
    ensures |calldata| == 0 || |calldata| % BLS12_381_G1_MSM_PAIR_LENGTH != 0 ==>
      r == Err(ParsingInputError) && gasAfter == gasRemaining
    ensures |calldata| > 0 && |calldata| % BLS12_381_G1_MSM_PAIR_LENGTH == 0 ==>
      var cost := schedule.bls12G1Msm(|calldata| / BLS12_381_G1_MSM_PAIR_LENGTH);
      var sum := G1Msm(ops, calldata, |calldata| / BLS12_381_G1_MSM_PAIR_LENGTH);
      && (cost.Err? ==> r == Err(cost.error) && gasAfter == gasRemaining)
      && (cost.Ok? && gasRemaining < cost.value ==> r == Err(NotEnoughGas) && gasAfter == gasRemaining)
      && (cost.Ok? && cost.value <= gasRemaining ==>
            && gasAfter == gasRemaining - cost.value
            && r == if sum.Ok? then Ok(EncodeG1(sum.value)) else Err(sum.error))
  {
    gasAfter := gasRemaining;
    if |calldata| == 0 || |calldata| % BLS12_381_G1_MSM_PAIR_LENGTH != 0 {
      return Err(ParsingInputError), gasAfter;
    }
    var k := |calldata| / BLS12_381_G1_MSM_PAIR_LENGTH;
    var requiredGas := schedule.bls12G1Msm(k);
    if requiredGas.Err? {
      return Err(requiredGas.error), gasAfter;
    }
    var charged;
    charged, gasAfter := IncreasePrecompileConsumedGas(requiredGas.value, gasRemaining);
    if charged.Err? {
      return Err(charged.error), gasAfter;
    }
    var result := G1MsmLoop(calldata, k, ops);
    if result.Err? {
      return Err(result.error), gasAfter;
    }
    var output := G1MsmOutput(result.value);
    r := Ok(output);
  }

  /**
   * `bls12_g2msm`: a non-empty multiple of 288 bytes, the cost of k pairs, the
   * multi-scalar multiplication, and the padded encoding of its sum.
   */
  method Bls12G2Msm(calldata: seq<byte>, gasRemaining: u64, schedule: GasSchedule, ops: Bls12Ops)
    returns (r: Result<seq<byte>>, gasAfter: u64)
    ensures |calldata| == 0 || |calldata| % BLS12_381_G2_MSM_PAIR_LENGTH != 0 ==>
      r == Err(ParsingInputError) && gasAfter == gasRemaining
    ensures |calldata| > 0 && |calldata| % BLS12_381_G2_MSM_PAIR_LENGTH == 0 ==>
      var cost := schedule.bls12G2Msm(|calldata| / BLS12_381_G2_MSM_PAIR_LENGTH);
      var sum := G2Msm(ops, calldata, |calldata| / BLS12_381_G2_MSM_PAIR_LENGTH);
      && (cost.Err? ==> r == Err(cost.error) && gasAfter == gasRemaining)
      && (cost.Ok? && gasRemaining < cost.value ==> r == Err(NotEnoughGas) && gasAfter == gasRemaining)
      && (cost.Ok? && cost.value <= gasRemaining ==>
            && gasAfter == gasRemaining - cost.value
            && r == if sum.Ok? then Ok(EncodeG2(sum.value)) else Err(sum.error))
  {
    gasAfter := gasRemaining;
    if |calldata| == 0 || |calldata| % BLS12_381_G2_MSM_PAIR_LENGTH != 0 {
      return Err(ParsingInputError), gasAfter;
    }
    var k := |calldata| / BLS12_381_G2_MSM_PAIR_LENGTH;
    var requiredGas := schedule.bls12G2Msm(k);
    if requiredGas.Err? {
      return Err(requiredGas.error), gasAfter;
    }
    var charged;
    charged, gasAfter := IncreasePrecompileConsumedGas(requiredGas.value, gasRemaining);
    if charged.Err? {
      return Err(charged.error), gasAfter;
    }
    var result := G2MsmLoop(calldata, k, ops);
    if result.Err? {
      return Err(result.error), gasAfter;
    }
    r := PadG2Result(result.value);
  }

  /** One pass of bls12_pairing_check's loop: the i-th G1 and G2 points, both subgroup-checked. */
  method PairingStep(calldata: seq<byte>, i: nat, ops: Bls12Ops) returns (r: Result<(G1Point, G2Point)>)
    ensures r == PairingTerm(ops, calldata, i)
  {
    var g1PointOffset := i * BLS12_381_PAIRING_CHECK_PAIR_LENGTH;
    var g2PointOffset := g1PointOffset + 128;
    var pairEnd := g2PointOffset + 256;
    var g1 := ParseG1Point(Get(calldata, g1PointOffset, g2PointOffset), false, ops.g1Checks);
    if g1.Err? {
      return Err(g1.error);
    }
    var g2 := ParseG2Point(Get(calldata, g2PointOffset, pairEnd), false, ops.g2Checks);
    if g2.Err? {
      return Err(g2.error);
    }
    r := Ok((g1.value, g2.value));
  }

  /** The loop of bls12_pairing_check over k pairs: each parsed pair is pushed onto `points`. */
  method PairingLoop(calldata: seq<byte>, k: nat, ops: Bls12Ops) returns (r: Result<seq<(G1Point, G2Point)>>)
    ensures r == Collect(PairingTerms(ops, calldata), k)
  {
    ghost var terms := PairingTerms(ops, calldata);
    var points: seq<(G1Point, G2Point)> := [];
    var i := 0;
    while i < k
      invariant 0 <= i <= k
      invariant Collect(terms, i) == Ok(points)
    {
      var pair := PairingStep(calldata, i, ops);
      assert terms(i) == pair;
      if pair.Err? {
        CollectStopsAt(terms, i, k);
        return Err(pair.error);
      }
      points := points + [pair.value];
      i := i + 1;
    }
    r := Ok(points);
  }

  /** The 32-byte boolean word of the pairing check. */
  function PairingOutput(isIdentity: bool): (r: seq<byte>)
    ensures |r| == 32 && AllZero(r[..31])
    ensures r[31] == if isIdentity then 1 else 0
  {
    if isIdentity then Zeros(31) + [1] else Zeros(32)
  }

  /**
   * `bls12_pairing_check`: a non-empty multiple of 384 bytes, the cost of k
   * pairs, every pair parsed with subgroup checks, and 1 or 0 in the last of 32
   * bytes as the product of the pairings is or is not the identity.
   */
  method Bls12PairingCheck(calldata: seq<byte>, gasRemaining: u64, schedule: GasSchedule, ops: Bls12Ops)
    returns (r: Result<seq<byte>>, gasAfter: u64)
    ensures |calldata| == 0 || |calldata| % BLS12_381_PAIRING_CHECK_PAIR_LENGTH != 0 ==>
      r == Err(ParsingInputError) && gasAfter == gasRemaining
    ensures |calldata| > 0 && |calldata| % BLS12_381_PAIRING_CHECK_PAIR_LENGTH == 0 ==>
      var cost := schedule.bls12PairingCheck(|calldata| / BLS12_381_PAIRING_CHECK_PAIR_LENGTH);
      var pairs := Collect(PairingTerms(ops, calldata), |calldata| / BLS12_381_PAIRING_CHECK_PAIR_LENGTH);
      && (cost.Err? ==> r == Err(cost.error) && gasAfter == gasRemaining)
      && (cost.Ok? && gasRemaining < cost.value ==> r == Err(NotEnoughGas) && gasAfter == gasRemaining)
      && (cost.Ok? && cost.value <= gasRemaining ==>
            && gasAfter == gasRemaining - cost.value
            && r == if pairs.Ok? then Ok(PairingOutput(ops.pairingIsIdentity(pairs.value))) else Err(pairs.error))
  {
    gasAfter := gasRemaining;
    if |calldata| == 0 || |calldata| % BLS12_381_PAIRING_CHECK_PAIR_LENGTH != 0 {
      return Err(ParsingInputError), gasAfter;
    }
    var k := |calldata| / BLS12_381_PAIRING_CHECK_PAIR_LENGTH;
    var gasCost := schedule.bls12PairingCheck(k);
    if gasCost.Err? {
      return Err(gasCost.error), gasAfter;
    }
    var charged;
    charged, gasAfter := IncreasePrecompileConsumedGas(gasCost.value, gasRemaining);
    if charged.Err? {
      return Err(charged.error), gasAfter;
    }
    var points := PairingLoop(calldata, k, ops);
    if points.Err? {
      return Err(points.error), gasAfter;
    }
    var result := ops.pairingIsIdentity(points.value);
    r := Ok(PairingOutput(result));
  }

  /**
   * `bls12_map_fp_to_g1`: exactly 64 bytes, the fixed cost, one padded field
   * element that Fp::from_bytes must accept, and the encoded image on G1.
   */
  method Bls12MapFpToG1(calldata: seq<byte>, gasRemaining: u64, schedule: GasSchedule, ops: Bls12Ops)
    returns (r: Result<seq<byte>>, gasAfter: u64)
    ensures |calldata| != BLS12_381_FP_VALID_INPUT_LENGTH ==> r == Err(ParsingInputError) && gasAfter == gasRemaining
    ensures |calldata| == BLS12_381_FP_VALID_INPUT_LENGTH && gasRemaining < schedule.bls12MapFpToG1 ==>
      r == Err(NotEnoughGas) && gasAfter == gasRemaining
    ensures |calldata| == BLS12_381_FP_VALID_INPUT_LENGTH && schedule.bls12MapFpToG1 <= gasRemaining ==>
      var c := ParseCoordinate(Some(calldata));
      && gasAfter == gasRemaining - schedule.bls12MapFpToG1
      && (r.Ok? <==> c.Ok? && ops.fpFromBytes(c.value))
      && (r.Ok? ==> r.value == EncodeG1(ops.mapFpToG1(c.value)))
      && (r.Err? ==> r.error == ParsingInputError)
  {
    gasAfter := gasRemaining;
    if |calldata| != BLS12_381_FP_VALID_INPUT_LENGTH {
      return Err(ParsingInputError), gasAfter;
    }
    var charged;
    charged, gasAfter := IncreasePrecompileConsumedGas(schedule.bls12MapFpToG1, gasRemaining);
    if charged.Err? {
      return Err(charged.error), gasAfter;
    }
    assert calldata[0..PADDED_FIELD_ELEMENT_SIZE_IN_BYTES] == calldata;
    var coordinateBytes := ParseCoordinate(Get(calldata, 0, PADDED_FIELD_ELEMENT_SIZE_IN_BYTES));
    if coordinateBytes.Err? {
      return Err(coordinateBytes.error), gasAfter;
    }
    if !ops.fpFromBytes(coordinateBytes.value) {
      return Err(ParsingInputError), gasAfter;
    }
    var point := ops.mapFpToG1(coordinateBytes.value);
    r := PadG1Result(point);
  }

  /**
   * `bls12_map_fp2_tp_g2`: exactly 128 bytes, the fixed cost, two padded field
   * elements that Fp::from_bytes must accept; the zero element of Fp2 answers
   * with the FP2_ZERO_MAPPED_TO_G2 table, any other with its encoded image on G2.
   * Fp::from_bytes only accepts canonical encodings, so an element is zero
   * exactly when its 48 bytes are.
   */
  method Bls12MapFp2ToG2(calldata: seq<byte>, gasRemaining: u64, schedule: GasSchedule, ops: Bls12Ops)
    returns (r: Result<seq<byte>>, gasAfter: u64)
    ensures |calldata| != BLS12_381_FP2_VALID_INPUT_LENGTH ==> r == Err(ParsingInputError) && gasAfter == gasRemaining
    ensures |calldata| == BLS12_381_FP2_VALID_INPUT_LENGTH && gasRemaining < schedule.bls12MapFp2ToG2 ==>
      r == Err(NotEnoughGas) && gasAfter == gasRemaining
    ensures |calldata| == BLS12_381_FP2_VALID_INPUT_LENGTH && schedule.bls12MapFp2ToG2 <= gasRemaining ==>
      var c0 := ParseCoordinate(Some(calldata[0..64]));
      var c1 := ParseCoordinate(Some(calldata[64..128]));
      && gasAfter == gasRemaining - schedule.bls12MapFp2ToG2
      && (r.Ok? <==> c0.Ok? && c1.Ok? && ops.fpFromBytes(c0.value) && ops.fpFromBytes(c1.value))
      && (r.Ok? && AllZero(c0.value) && AllZero(c1.value) ==> r.value == ops.fp2ZeroMappedToG2)
      && (r.Ok? && !(AllZero(c0.value) && AllZero(c1.value)) ==>
            r.value == EncodeG2(ops.mapFp2ToG2(c0.value, c1.value)))
      && (r.Err? ==> r.error == ParsingInputError)
  {
    gasAfter := gasRemaining;
    if |calldata| != BLS12_381_FP2_VALID_INPUT_LENGTH {
      return Err(ParsingInputError), gasAfter;
    }
    var charged;
    charged, gasAfter := IncreasePrecompileConsumedGas(schedule.bls12MapFp2ToG2, gasRemaining);
    if charged.Err? {
      return Err(charged.error), gasAfter;
    }
    var c0 := ParseCoordinate(Get(calldata, 0, PADDED_FIELD_ELEMENT_SIZE_IN_BYTES));
    if c0.Err? {
      return Err(c0.error), gasAfter;
    }
    var c1 := ParseCoordinate(Get(calldata, PADDED_FIELD_ELEMENT_SIZE_IN_BYTES, BLS12_381_FP2_VALID_INPUT_LENGTH));
    if c1.Err? {
      return Err(c1.error), gasAfter;
    }
    if !ops.fpFromBytes(c0.value) {
      return Err(ParsingInputError), gasAfter;
    }
    if !ops.fpFromBytes(c1.value) {
      return Err(ParsingInputError), gasAfter;
    }
    if AllZero(c0.value) && AllZero(c1.value) {
      return Ok(ops.fp2ZeroMappedToG2), gasAfter;
    }
    var point := ops.mapFp2ToG2(c0.value, c1.value);
    r := PadG2Result(point);
  }
}

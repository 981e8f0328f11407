/** ECPAIRING (EIP-197) input framing and the BN254 coordinate checks. */
module Bn254 {
  import opened Bytes
  import opened Errors
  import opened Gas

  /** A U256 from its four 64-bit limbs, least significant first. */
  function U256FromLimbs(l0: u64, l1: u64, l2: u64, l3: u64): nat {
    l0 + l1 * 0x1_0000_0000_0000_0000 + l2 * 0x1_0000_0000_0000_0000_0000_0000_0000_0000
      + l3 * 0x1_0000_0000_0000_0000_0000_0000_0000_0000_0000_0000_0000_0000
  }

  const ALT_BN128_PRIME: nat :=
    U256FromLimbs(0x3c208c16d87cfd47, 0x97816a916871ca8d, 0xb85045b68181585d, 0x30644e72e131a029)

  /** The limbs spell the BN254 base-field modulus. */
  lemma AltBn128PrimeValue()
    ensures ALT_BN128_PRIME == 21888242871839275222246405745257275088696311157297823662689037894645226208583
  {
  }

  /** The G1 point of a pair: x and y as big-endian integers (the field conversion is not modelled). */
  datatype FirstPoint = FirstPoint(x: nat, y: nat)

  /**
   * The G2 point of a pair, in the order the bytes are read: each coordinate
   * (an Fp2 element) as its 32-byte halves at 96..128 then 64..96 for x, and
   * 160..192 then 128..160 for y.
   */
  datatype SecondPoint = SecondPoint(xFirst: nat, xSecond: nat, yFirst: nat, ySecond: nat)

  /**
   * `parse_first_point_coordinates`: x = bytes 0..32, y = bytes 32..64. A
   * point with exactly one zero coordinate is InvalidPoint; (0, 0) is the
   * point at infinity and is accepted.
   */
  function ParseFirstPointCoordinates(input: seq<byte>): (r: Result<FirstPoint>)
    ensures |input| < 64 ==> r == Err(Slicing)
    ensures |input| >= 64 ==>
      (r.Ok? <==> (AllZero(input[..32]) <==> AllZero(input[32..64]))) &&
      (r.Err? ==> r.error == InvalidPoint)
    ensures r.Ok? ==> r.value == FirstPoint(BeValue(input[..32]), BeValue(input[32..64]))
  {
    if |input| < 32 then Err(Slicing)
    else if |input| < 64 then Err(Slicing)
    else
      var x := BeValue(input[..32]);
      var y := BeValue(input[32..64]);
      BeValueZeroIff(input[..32]);
      BeValueZeroIff(input[32..64]);
      if (x == 0) != (y == 0) then Err(InvalidPoint)
      else Ok(FirstPoint(x, y))
  }

  /**
   * `parse_second_point_coordinates`: both Fp2 coordinates must be zero or
   * non-zero in both halves (else InvalidPoint, x checked before y), and every
   * half must be below the field prime (else PointNotInTheCurve).
   */
  function ParseSecondPointCoordinates(input: seq<byte>): (r: Result<SecondPoint>)
    ensures |input| < 128 ==> r == Err(Slicing)
    ensures |input| >= 192 ==>
      (r.Ok? <==>
        (AllZero(input[96..128]) <==> AllZero(input[64..96])) &&
        (AllZero(input[160..192]) <==> AllZero(input[128..160])) &&
        BeValue(input[64..96]) < ALT_BN128_PRIME && BeValue(input[96..128]) < ALT_BN128_PRIME &&
        BeValue(input[128..160]) < ALT_BN128_PRIME && BeValue(input[160..192]) < ALT_BN128_PRIME)
    ensures |input| >= 192 && r.Err? ==>
      r.error == if (AllZero(input[96..128]) <==> AllZero(input[64..96])) &&
                    (AllZero(input[160..192]) <==> AllZero(input[128..160]))
                 then PointNotInTheCurve else InvalidPoint
    ensures r.Ok? ==> |input| >= 192
    ensures r.Ok? ==>
      r.value == SecondPoint(BeValue(input[96..128]), BeValue(input[64..96]),
                             BeValue(input[160..192]), BeValue(input[128..160]))
  {
    if |input| < 128 then Err(Slicing)
    else
      var xFirst := BeValue(input[96..128]);
      var xSecond := BeValue(input[64..96]);
      BeValueZeroIff(input[96..128]);
      BeValueZeroIff(input[64..96]);
      if (xFirst == 0) != (xSecond == 0) then Err(InvalidPoint)
      else if |input| < 192 then Err(Slicing)
      else
        var yFirst := BeValue(input[160..192]);
        var ySecond := BeValue(input[128..160]);
        BeValueZeroIff(input[160..192]);
        BeValueZeroIff(input[128..160]);
        if (yFirst == 0) != (ySecond == 0) then Err(InvalidPoint)
        else if xFirst >= ALT_BN128_PRIME || xSecond >= ALT_BN128_PRIME
             || yFirst >= ALT_BN128_PRIME || ySecond >= ALT_BN128_PRIME
        then Err(PointNotInTheCurve)
        else Ok(SecondPoint(xFirst, xSecond, yFirst, ySecond))
  }

  /** A pair of 192 zero bytes (both points at infinity) passes both coordinate checks. */
  lemma InfinityPairAccepted()
    ensures ParseFirstPointCoordinates(Zeros(192)) == Ok(FirstPoint(0, 0))
    ensures ParseSecondPointCoordinates(Zeros(192)) == Ok(SecondPoint(0, 0, 0, 0))
  {
    var z := Zeros(192);
    assert z[..32] == Zeros(32) && z[32..64] == Zeros(32) && z[64..96] == Zeros(32);
    assert z[96..128] == Zeros(32) && z[128..160] == Zeros(32) && z[160..192] == Zeros(32);
    BeValueZeroIff(Zeros(32));
    AltBn128PrimeValue();
  }

  /**
   * The BN254 arithmetic after the coordinate checks, over a target group `F`
   * (the degree-12 extension field): whether each point lies on its curve, the
   * twist subgroup check, one ate pairing (None when the pairing library fails),
   * and the field's one and product.
   */
  datatype PairingOps<!F> = PairingOps(
    onCurve: FirstPoint -> bool,
    onTwist: SecondPoint -> bool,
    inSubgroup: SecondPoint -> bool,
    pairing: (FirstPoint, SecondPoint) -> Option<F>,
    one: F,
    mul: (F, F) -> F)

  predicate FirstIsInfinity(p: FirstPoint) {
    p.x == 0 && p.y == 0
  }

  predicate SecondIsInfinity(q: SecondPoint) {
    q.xFirst == 0 && q.xSecond == 0 && q.yFirst == 0 && q.ySecond == 0
  }

  /**
   * What handle_pairing_from_coordinates does with one pair: an error; None
   * when the pair is skipped (a point at infinity, the other point checked);
   * or the pairing that is multiplied into the running product.
   */
  function PairOutcome<F>(p: FirstPoint, q: SecondPoint, ops: PairingOps<F>): (r: Result<Option<F>>)
    ensures r.Ok? && r.value.Some? ==> !FirstIsInfinity(p) && !SecondIsInfinity(q)
    ensures FirstIsInfinity(p) && SecondIsInfinity(q) ==> r == Ok(None)
    ensures r.Err? ==> r.error in {InvalidPoint, PointNotInSubgroup, BN254AtePairingError}
  {
    match (FirstIsInfinity(p), SecondIsInfinity(q))
    case (true, true) => Ok(None)
    case (true, false) =>
      if !ops.onTwist(q) then Err(InvalidPoint)
      else if !ops.inSubgroup(q) then Err(PointNotInSubgroup)
      else Ok(None)
    case (false, true) =>
      if !ops.onCurve(p) then Err(InvalidPoint) else Ok(None)
    case (false, false) =>
      if !ops.onCurve(p) then Err(InvalidPoint)
      else if !ops.onTwist(q) then Err(InvalidPoint)
      else if !ops.inSubgroup(q) then Err(PointNotInSubgroup)
      else
        var e := ops.pairing(p, q);
        if e.None? then Err(BN254AtePairingError) else Ok(Some(e.value))
  }

  /**
   * `handle_pairing_from_coordinates` with `mul: &mut` as `mul` in and
   * `mulAfter` out: true for a skipped pair (the product untouched), false
   * when the pairing has been multiplied in.
   */
  method HandlePairingFromCoordinates<F>(p: FirstPoint, q: SecondPoint, mul: F, ops: PairingOps<F>)
    returns (r: Result<bool>, mulAfter: F)
    ensures var o := PairOutcome(p, q, ops);
      && (o.Err? ==> r == Err(o.error))
      && (o.Ok? && o.value.None? ==> r == Ok(true) && mulAfter == mul)
      && (o.Ok? && o.value.Some? ==> r == Ok(false) && mulAfter == ops.mul(mul, o.value.value))
  {
    mulAfter := mul;
    var firstIsInfinity := p.x == 0 && p.y == 0;
    var secondIsInfinity := q.xFirst == 0 && q.xSecond == 0 && q.yFirst == 0 && q.ySecond == 0;
    if firstIsInfinity && secondIsInfinity {
      return Ok(true), mulAfter;
    } else if firstIsInfinity {
      if !ops.onTwist(q) {
        return Err(InvalidPoint), mulAfter;
      }
      if !ops.inSubgroup(q) {
        return Err(PointNotInSubgroup), mulAfter;
      }
      return Ok(true), mulAfter;
    } else if secondIsInfinity {
      if !ops.onCurve(p) {
        return Err(InvalidPoint), mulAfter;
      }
      return Ok(true), mulAfter;
    }
    if !ops.onCurve(p) {
      return Err(InvalidPoint), mulAfter;
    }
    if !ops.onTwist(q) {
      return Err(InvalidPoint), mulAfter;
    }
    if !ops.inSubgroup(q) {
      return Err(PointNotInSubgroup), mulAfter;
    }
    // update_pairing_result
    var pairingResult := ops.pairing(p, q);
    if pairingResult.None? {
      return Err(BN254AtePairingError), mulAfter;
    }
    mulAfter := ops.mul(mulAfter, pairingResult.value);
    r := Ok(false);
  }

  const PAIR_LENGTH: nat := 192

  function Pair(calldata: seq<byte>, i: nat): seq<byte>
    requires (i + 1) * PAIR_LENGTH <= |calldata|
  {
    calldata[i * PAIR_LENGTH..(i + 1) * PAIR_LENGTH]
  }

  /** Everything the loop does with pair `i`: both coordinate checks, then handle_pairing_from_coordinates. */
  function PairTerm<F>(calldata: seq<byte>, i: nat, ops: PairingOps<F>): Result<Option<F>>
    requires (i + 1) * PAIR_LENGTH <= |calldata|
  {
    var first := ParseFirstPointCoordinates(Pair(calldata, i));
    if first.Err? then Err(first.error)
    else
      var second := ParseSecondPointCoordinates(Pair(calldata, i));
      if second.Err? then Err(second.error)
      else PairOutcome(first.value, second.value, ops)
  }

  /**
   * The value of `mul` after the first `n` pairs: one, times the pairing of
   * every pair that is not skipped; or the error of the first failing pair.
   */
  function Product<F>(calldata: seq<byte>, n: nat, ops: PairingOps<F>): Result<F>
    requires n * PAIR_LENGTH <= |calldata|
  {
    if n == 0 then Ok(ops.one)
    else
      var before := Product(calldata, n - 1, ops);
      if before.Err? then before
      else
        var t := PairTerm(calldata, n - 1, ops);
        if t.Err? then Err(t.error)
        else if t.value.None? then before
        else Ok(ops.mul(before.value, t.value.value))
  }

  /** The product exists exactly when every pair passes its checks. */
  lemma {:induction false} ProductOk<F>(calldata: seq<byte>, n: nat, ops: PairingOps<F>)
    requires n * PAIR_LENGTH <= |calldata|
    ensures Product(calldata, n, ops).Ok? <==> forall i :: 0 <= i < n ==> PairTerm(calldata, i, ops).Ok?
  {
    if n > 0 {
      ProductOk(calldata, n - 1, ops);
      if Product(calldata, n, ops).Ok? {
        forall i | 0 <= i < n ensures PairTerm(calldata, i, ops).Ok? {
          if i < n - 1 {
            assert Product(calldata, n - 1, ops).Ok?;
          }
        }
      }
    }
  }

  /** A failing product reports the error of the first pair that fails. */
  lemma {:induction false} ProductFirstError<F>(calldata: seq<byte>, n: nat, ops: PairingOps<F>, k: nat)
    requires n * PAIR_LENGTH <= |calldata| && k < n
    requires forall i :: 0 <= i < k ==> PairTerm(calldata, i, ops).Ok?
    requires PairTerm(calldata, k, ops).Err?
    ensures Product(calldata, n, ops) == Err(PairTerm(calldata, k, ops).error)
  {
    if n - 1 == k {
      ProductOk(calldata, k, ops);
    } else {
      ProductFirstError(calldata, n - 1, ops, k);
    }
  }

  /** Pairs that are all skipped (each has a point at infinity and passes) leave the product at one. */
  lemma {:induction false} SkippedPairsGiveOne<F>(calldata: seq<byte>, n: nat, ops: PairingOps<F>)
    requires n * PAIR_LENGTH <= |calldata|
    requires forall i :: 0 <= i < n ==> PairTerm(calldata, i, ops) == Ok(None)
    ensures Product(calldata, n, ops) == Ok(ops.one)
  {
    if n > 0 {
      SkippedPairsGiveOne(calldata, n - 1, ops);
    }
  }

  /** k pairs of 192 zero bytes (all points at infinity) leave the product at one, for every choice of the arithmetic. */
  lemma ZeroPairsGiveOne<F>(k: nat, ops: PairingOps<F>)
    ensures Product(Zeros(k * PAIR_LENGTH), k, ops) == Ok(ops.one)
  {
    var z := Zeros(k * PAIR_LENGTH);
    forall i | 0 <= i < k ensures PairTerm(z, i, ops) == Ok(None) {
      assert (i + 1) * PAIR_LENGTH <= k * PAIR_LENGTH;
      assert Pair(z, i) == Zeros(192);
      InfinityPairAccepted();
    }
    SkippedPairsGiveOne(z, k, ops);
  }

  /** The 32-byte output: 31 zeros, then 1 when the product is one and 0 otherwise. */
  function PairingResult<F(==)>(product: F, ops: PairingOps<F>): (r: seq<byte>)
    ensures |r| == 32 && AllZero(r[..31]) && (r[31] == 1 <==> product == ops.one) && r[31] <= 1
  {
    Zeros(31) + [if product == ops.one then 1 else 0]
  }

  /**
   * `ecpairing`. A length that is not a multiple of 192 is rejected before any
   * gas is charged; then the formula's price for the number of pairs is
   * charged (a formula error or too little gas leaves the gas alone); then each
   * pair is checked in order and its pairing multiplied into a product that
   * starts at one. The output is 32 bytes: 31 zeros and a last byte 1 when the
   * product is one, 0 otherwise.
   */
  method Ecpairing<F(==)>(calldata: seq<byte>, gasRemaining: u64, schedule: GasSchedule, ops: PairingOps<F>)
    returns (r: Result<seq<byte>>, gasAfter: u64)
    ensures |calldata| % PAIR_LENGTH != 0 ==> r == Err(ParsingInputError) && gasAfter == gasRemaining
    ensures |calldata| % PAIR_LENGTH == 0 ==>
      var n := |calldata| / PAIR_LENGTH;
      var cost := schedule.ecpairing(n);
      && (cost.Err? ==> r == Err(cost.error) && gasAfter == gasRemaining)
      && (cost.Ok? && gasRemaining < cost.value ==> r == Err(NotEnoughGas) && gasAfter == gasRemaining)
      && (cost.Ok? && cost.value <= gasRemaining ==>
            && gasAfter == gasRemaining - cost.value
            && n * PAIR_LENGTH <= |calldata|
            && (Product(calldata, n, ops).Err? ==> r == Err(Product(calldata, n, ops).error))
            && (Product(calldata, n, ops).Ok? ==> r == Ok(PairingResult(Product(calldata, n, ops).value, ops))))
  {
    gasAfter := gasRemaining;
    if |calldata| % PAIR_LENGTH != 0 {
      return Err(ParsingInputError), gasAfter;
    }
    var inputsAmount := |calldata| / PAIR_LENGTH;
    assert inputsAmount * PAIR_LENGTH == |calldata|;

    var gasCost := schedule.ecpairing(inputsAmount);
    if gasCost.Err? {
      return Err(gasCost.error), gasAfter;
    }
    var charged;
    charged, gasAfter := IncreasePrecompileConsumedGas(gasCost.value, gasRemaining);
    if charged.Err? {
      return Err(charged.error), gasAfter;
    }

    var mul := ops.one;
    var inputIndex := 0;
    while inputIndex < inputsAmount
      invariant 0 <= inputIndex <= inputsAmount
      invariant Product(calldata, inputIndex, ops) == Ok(mul)
    {
      assert (inputIndex + 1) * PAIR_LENGTH <= inputsAmount * PAIR_LENGTH;
      var inputData := Pair(calldata, inputIndex);
      var first := ParseFirstPointCoordinates(inputData);
      if first.Err? {
        ProductOk(calldata, inputIndex, ops);
        ProductFirstError(calldata, inputsAmount, ops, inputIndex);
        return Err(first.error), gasAfter;
      }
      var second := ParseSecondPointCoordinates(inputData);
      if second.Err? {
        ProductOk(calldata, inputIndex, ops);
        ProductFirstError(calldata, inputsAmount, ops, inputIndex);
        return Err(second.error), gasAfter;
      }
      var handled;
      handled, mul := HandlePairingFromCoordinates(first.value, second.value, mul, ops);
      if handled.Err? {
        ProductOk(calldata, inputIndex, ops);
        ProductFirstError(calldata, inputsAmount, ops, inputIndex);
        return Err(handled.error), gasAfter;
      }
      inputIndex := inputIndex + 1;
    }

    r := Ok(PairingResult(mul, ops));
  }
}

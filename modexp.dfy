/** The MODEXP precompile (EIP-198): size header, operands, gas and output framing. */
module ModExp {
  import opened Bytes
  import opened Errors
  import opened Gas
  import opened Framing

  function Pow(b: nat, e: nat): nat {
    if e == 0 then 1 else b * Pow(b, e - 1)
  }

  /**
   * `mod_exp`: zero for a zero modulus; `1 % modulus` for a zero exponent;
   * `base.modpow(exponent, modulus)` otherwise. The exponent-zero shortcut
   * agrees with the general formula, and the result is below a positive modulus.
   */
  function ModExp(base: nat, exponent: nat, modulus: nat): (r: nat)
    ensures modulus == 0 ==> r == 0
    ensures modulus > 0 ==> r == Pow(base, exponent) % modulus && r < modulus
  {
    if modulus == 0 then 0
    else if exponent == 0 then 1 % modulus
    else Pow(base, exponent) % modulus
  }

  /** The three 32-byte length fields at the head of the calldata, zero-extended. */
  function BaseSize(calldata: seq<byte>): nat { BeValue(ZeroExtendedSlice(calldata, 0, 32)) }
  function ExponentSize(calldata: seq<byte>): nat { BeValue(ZeroExtendedSlice(calldata, 32, 32)) }
  function ModulusSize(calldata: seq<byte>): nat { BeValue(ZeroExtendedSlice(calldata, 64, 32)) }

  /** The operands, each read at its declared size right after the header and the operands before it. */
  function BaseOperand(calldata: seq<byte>): nat {
    BeValue(ZeroExtendedSlice(calldata, 96, BaseSize(calldata)))
  }
  function ExponentOperand(calldata: seq<byte>): nat {
    BeValue(ZeroExtendedSlice(calldata, 96 + BaseSize(calldata), ExponentSize(calldata)))
  }
  function ModulusOperand(calldata: seq<byte>): nat {
    BeValue(ZeroExtendedSlice(calldata, 96 + BaseSize(calldata) + ExponentSize(calldata), ModulusSize(calldata)))
  }
  /** What the gas formula sees of the exponent: its first (at most) 32 bytes. */
  function ExponentHead(calldata: seq<byte>): nat {
    BeValue(ZeroExtendedSlice(calldata, 96 + BaseSize(calldata), Min(32, ExponentSize(calldata))))
  }

  /**
   * The output framing: the minimal encoding of `result`, left-padded and cut to
   * `mSize` bytes, is exactly `mSize` bytes long and still worth `result`,
   * provided `result` fits in `mSize` bytes or is zero.
   */
  lemma {:induction false} OutputFraming(result: nat, mSize: nat)
    requires result == 0 || result < Pow256(mSize)
    ensures |IncreaseLeftPad(NatToBytesBe(result), mSize)| >= mSize
    ensures |IncreaseLeftPad(NatToBytesBe(result), mSize)[..mSize]| == mSize
    ensures BeValue(IncreaseLeftPad(NatToBytesBe(result), mSize)[..mSize]) == result
  {
    var bytes := NatToBytesBe(result);
    var padded := IncreaseLeftPad(bytes, mSize);
    IncreaseLeftPadValue(bytes, mSize);
    if mSize == 0 {
      assert result == 0;
      assert padded[..mSize] == [];
    } else {
      if result == 0 {
        assert Pow256(0) == 1 <= Pow256(mSize);
      }
      NatToBytesBeLength(result, mSize);
      assert padded[..mSize] == padded;
    }
  }

  /** The header is read from calldata padded to 96 bytes; the padding changes nothing. */
  lemma HeaderOfPaddedCalldata(calldata: seq<byte>)
    ensures |FillWithZeros(calldata, 96)| >= 96
    ensures BeValue(FillWithZeros(calldata, 96)[0..32]) == BaseSize(calldata)
    ensures BeValue(FillWithZeros(calldata, 96)[32..64]) == ExponentSize(calldata)
    ensures BeValue(FillWithZeros(calldata, 96)[64..96]) == ModulusSize(calldata)
  {
    var cd := FillWithZeros(calldata, 96);
    FillWithZerosKeepsView(calldata, 96, 0, 32);
    FillWithZerosKeepsView(calldata, 96, 32, 32);
    FillWithZerosKeepsView(calldata, 96, 64, 32);
    assert cd[0..32] == ZeroExtendedSlice(cd, 0, 32);
    assert cd[32..64] == ZeroExtendedSlice(cd, 32, 32);
    assert cd[64..96] == ZeroExtendedSlice(cd, 64, 32);
  }

  /** What the gas formula reads of an exponent slice `e` taken by get_slice_or_default. */
  lemma ExponentHeadOfSlice(cd: seq<byte>, lower: nat, size: nat, e: seq<byte>)
    requires e == [] || e == ZeroExtendedSlice(cd, lower, size)
    requires e == [] ==> size == 0 || |cd| <= lower
    ensures var k := Min(32, size);
      (if k <= |e| then BeValue(e[0..k]) else 0) == BeValue(ZeroExtendedSlice(cd, lower, k))
  {
    var k := Min(32, size);
    if e == [] {
      if k == 0 {
        assert e[0..k] == [];
      }
      ZeroExtendedSlicePastEnd(cd, lower, k);
    } else {
      ZeroExtendedSlicePrefix(cd, lower, size, k);
    }
  }

  /** The operand-reading part of `modexp`, once the three sizes are known to fit. */
  method ReadOperands(calldata: seq<byte>, cd: seq<byte>, baseSize: nat, exponentSize: nat, modulusSize: nat)
    returns (base: nat, exponent: nat, modulus: nat, expFirst32: nat)
    requires cd == FillWithZeros(calldata, 96)
    requires baseSize == BaseSize(calldata) && exponentSize == ExponentSize(calldata)
    requires modulusSize == ModulusSize(calldata)
    ensures base == BaseOperand(calldata) && exponent == ExponentOperand(calldata)
    ensures modulus == ModulusOperand(calldata) && expFirst32 == ExponentHead(calldata)
    ensures modulus == 0 || modulus < Pow256(modulusSize)
  {
    var baseLimit := baseSize + 96;
    var exponentLimit := exponentSize + baseLimit;
    var modulusLimit := modulusSize + exponentLimit;
    FillWithZerosKeepsView(calldata, 96, 96, baseSize);
    FillWithZerosKeepsView(calldata, 96, baseLimit, exponentSize);
    FillWithZerosKeepsView(calldata, 96, exponentLimit, modulusSize);
    FillWithZerosKeepsView(calldata, 96, baseLimit, Min(32, exponentSize));

    var b := GetSliceOrDefault(cd, 96, baseLimit, baseSize);
    base := BeValue(b);
    var e := GetSliceOrDefault(cd, baseLimit, exponentLimit, exponentSize);
    exponent := BeValue(e);
    var m := GetSliceOrDefault(cd, exponentLimit, modulusLimit, modulusSize);
    modulus := BeValue(m);

    // `e.get(0..bytes_to_take)` fails on an empty e, and unwrap_or_default then reads nothing
    var bytesToTake := Min(32, exponentSize);
    expFirst32 := if bytesToTake <= |e| then BeValue(e[0..bytesToTake]) else 0;
    ExponentHeadOfSlice(cd, baseLimit, exponentSize, e);

    BeValueBound(m);
  }

  /** All three sizes convert to usize. */
  predicate SizesFit(calldata: seq<byte>) {
    BaseSize(calldata) <= U64_MAX && ExponentSize(calldata) <= U64_MAX && ModulusSize(calldata) <= U64_MAX
  }

  /** base_limit, exponent_limit and modulus_limit are computed without overflowing usize. */
  predicate LimitsFit(calldata: seq<byte>) {
    BaseSize(calldata) + 96 <= U64_MAX &&
    ExponentSize(calldata) + BaseSize(calldata) + 96 <= U64_MAX &&
    ModulusSize(calldata) + ExponentSize(calldata) + BaseSize(calldata) + 96 <= U64_MAX
  }

  /** The price the gas formula asks for this calldata. */
  function ModexpCost(calldata: seq<byte>, schedule: GasSchedule): Result<u64> {
    schedule.modexp(ExponentHead(calldata), BaseSize(calldata), ExponentSize(calldata), ModulusSize(calldata))
  }

  /**
   * `modexp`. When both the base and the modulus size are zero, only the static
   * cost is charged and the output is empty. Otherwise a size that does not fit
   * in usize is a ParsingInputError, a limit sum that overflows usize is
   * Overflow, a formula error is passed on, a price above the remaining gas is
   * NotEnoughGas, and else the price is charged and the output is
   * `modulus_size` bytes holding base^exponent mod modulus. Gas is only ever
   * taken on success.
   */
  method Modexp(calldata: seq<byte>, gasRemaining: u64, schedule: GasSchedule)
    returns (r: Result<seq<byte>>, gasAfter: u64)
    ensures r.Err? ==> gasAfter == gasRemaining
    ensures BaseSize(calldata) == 0 && ModulusSize(calldata) == 0 ==>
      if schedule.modexpStatic <= gasRemaining
      then r == Ok([]) && gasAfter == gasRemaining - schedule.modexpStatic
      else r == Err(NotEnoughGas)
    ensures (BaseSize(calldata) != 0 || ModulusSize(calldata) != 0) && !SizesFit(calldata)
      ==> r == Err(ParsingInputError)
    ensures (BaseSize(calldata) != 0 || ModulusSize(calldata) != 0) && SizesFit(calldata) && !LimitsFit(calldata)
      ==> r == Err(Overflow)
    ensures (BaseSize(calldata) != 0 || ModulusSize(calldata) != 0) && SizesFit(calldata) && LimitsFit(calldata) ==>
      var cost := ModexpCost(calldata, schedule);
      && (cost.Err? ==> r == Err(cost.error))
      && (cost.Ok? && gasRemaining < cost.value ==> r == Err(NotEnoughGas))
      && (cost.Ok? && cost.value <= gasRemaining ==>
            && r.Ok?
            && gasAfter == gasRemaining - cost.value
            && |r.value| == ModulusSize(calldata)
            && BeValue(r.value) == ModExp(BaseOperand(calldata), ExponentOperand(calldata), ModulusOperand(calldata)))
  {
    var cd := FillWithZeros(calldata, 96);
    HeaderOfPaddedCalldata(calldata);
    var baseSize := BeValue(cd[0..32]);
    var exponentSize := BeValue(cd[32..64]);
    var modulusSize := BeValue(cd[64..96]);

    if baseSize == 0 && modulusSize == 0 {
      var charged;
      charged, gasAfter := IncreasePrecompileConsumedGas(schedule.modexpStatic, gasRemaining);
      if charged.Err? {
        return Err(charged.error), gasAfter;
      }
      return Ok([]), gasAfter;
    }

    gasAfter := gasRemaining;
    if baseSize > U64_MAX || exponentSize > U64_MAX || modulusSize > U64_MAX {
      return Err(ParsingInputError), gasAfter;
    }
    // base_limit, exponent_limit and modulus_limit are checked usize additions
    if baseSize + 96 > U64_MAX || exponentSize + baseSize + 96 > U64_MAX ||
       modulusSize + exponentSize + baseSize + 96 > U64_MAX {
      return Err(Overflow), gasAfter;
    }

    var base, exponent, modulus, expFirst32 := ReadOperands(calldata, cd, baseSize, exponentSize, modulusSize);

    var gasCost := schedule.modexp(expFirst32, baseSize, exponentSize, modulusSize);
    if gasCost.Err? {
      return Err(gasCost.error), gasAfter;
    }
    var charged;
    charged, gasAfter := IncreasePrecompileConsumedGas(gasCost.value, gasRemaining);
    if charged.Err? {
      return Err(charged.error), gasAfter;
    }

    var result := ModExp(base, exponent, modulus);
    OutputFraming(result, modulusSize);
    var resBytes := IncreaseLeftPadCopy(NatToBytesBe(result), modulusSize);
    r := Ok(resBytes[..modulusSize]);
  }
}

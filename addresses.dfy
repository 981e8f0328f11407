/** Precompile addresses, which forks recognise them, and dispatch by address. */
module Addresses {
  import opened Bytes
  import opened Errors

  /** Mainnet forks in activation order; only the order against Cancun and Prague matters here. */
  datatype Fork =
    | Frontier | FrontierThawing | Homestead | DaoFork | Tangerine | SpuriousDragon
    | Byzantium | Constantinople | Petersburg | Istanbul | MuirGlacier | Berlin
    | London | ArrowGlacier | GrayGlacier | Paris | Shanghai | Cancun | Prague | Osaka

  function Rank(f: Fork): nat {
    match f
    case Frontier => 0 case FrontierThawing => 1 case Homestead => 2 case DaoFork => 3
    case Tangerine => 4 case SpuriousDragon => 5 case Byzantium => 6 case Constantinople => 7
    case Petersburg => 8 case Istanbul => 9 case MuirGlacier => 10 case Berlin => 11
    case London => 12 case ArrowGlacier => 13 case GrayGlacier => 14 case Paris => 15
    case Shanghai => 16 case Cancun => 17 case Prague => 18 case Osaka => 19
  }

  /** `fork < other` on the fork enum. */
  predicate Before(fork: Fork, other: Fork) {
    Rank(fork) < Rank(other)
  }

  /** A 20-byte account address (H160). */
  type Address = seq<byte>

  /** The address whose 19 leading bytes are zero and whose last byte is `k`. */
  function AddressOf(k: byte): (a: Address)
    ensures |a| == 20 && AllZero(a[..19]) && a[19] == k
  {
    Zeros(19) + [k]
  }

  const ECRECOVER_ADDRESS: Address := AddressOf(0x01)
  const SHA2_256_ADDRESS: Address := AddressOf(0x02)
  const RIPEMD_160_ADDRESS: Address := AddressOf(0x03)
  const IDENTITY_ADDRESS: Address := AddressOf(0x04)
  const MODEXP_ADDRESS: Address := AddressOf(0x05)
  const ECADD_ADDRESS: Address := AddressOf(0x06)
  const ECMUL_ADDRESS: Address := AddressOf(0x07)
  const ECPAIRING_ADDRESS: Address := AddressOf(0x08)
  const BLAKE2F_ADDRESS: Address := AddressOf(0x09)
  const POINT_EVALUATION_ADDRESS: Address := AddressOf(0x0a)
  const BLS12_G1ADD_ADDRESS: Address := AddressOf(0x0b)
  const BLS12_G1MSM_ADDRESS: Address := AddressOf(0x0c)
  const BLS12_G2ADD_ADDRESS: Address := AddressOf(0x0d)
  const BLS12_G2MSM_ADDRESS: Address := AddressOf(0x0e)
  const BLS12_PAIRING_CHECK_ADDRESS: Address := AddressOf(0x0f)
  const BLS12_MAP_FP_TO_G1_ADDRESS: Address := AddressOf(0x10)
  const BLS12_MAP_FP2_TO_G2_ADDRESS: Address := AddressOf(0x11)

  const PRECOMPILES: seq<Address> := [
    ECRECOVER_ADDRESS, SHA2_256_ADDRESS, RIPEMD_160_ADDRESS, IDENTITY_ADDRESS, MODEXP_ADDRESS,
    ECADD_ADDRESS, ECMUL_ADDRESS, ECPAIRING_ADDRESS, BLAKE2F_ADDRESS, POINT_EVALUATION_ADDRESS]

  const PRECOMPILES_POST_CANCUN: seq<Address> := [
    BLS12_G1ADD_ADDRESS, BLS12_G1MSM_ADDRESS, BLS12_G2ADD_ADDRESS, BLS12_G2MSM_ADDRESS,
    BLS12_PAIRING_CHECK_ADDRESS, BLS12_MAP_FP_TO_G1_ADDRESS, BLS12_MAP_FP2_TO_G2_ADDRESS]

  const SIZE_PRECOMPILES_PRE_CANCUN: nat := 9
  const SIZE_PRECOMPILES_CANCUN: nat := 10
  const SIZE_PRECOMPILES_PRAGUE: nat := 17

  /**
   * `is_precompile`: an address is a precompile in `fork` exactly when it is
   * 0x01..0x11, except that 0x0a (point evaluation) needs Cancun and 0x0b..0x11
   * (BLS12-381) need Prague.
   */
  function IsPrecompile(address: Address, fork: Fork): (r: bool)
    ensures r <==>
      |address| == 20 && AllZero(address[..19]) && 1 <= address[19] <= 17 &&
      (address[19] == 10 ==> !Before(fork, Cancun)) &&
      (11 <= address[19] ==> !Before(fork, Prague))
  {
    TablesByLastByte(address);
    assert POINT_EVALUATION_ADDRESS[19] == 10;
    assert |address| == 20 && AllZero(address[..19]) && address[19] == 10 ==> address == POINT_EVALUATION_ADDRESS by {
      if |address| == 20 && AllZero(address[..19]) && address[19] == 10 {
        assert address == AddressOf(10);
      }
    }
    if address == POINT_EVALUATION_ADDRESS && Before(fork, Cancun) then false
    else if address in PRECOMPILES_POST_CANCUN && Before(fork, Prague) then false
    else address in PRECOMPILES || address in PRECOMPILES_POST_CANCUN
  }

  /** Membership in the two tables, by the address's bytes. */
  lemma TablesByLastByte(a: Address)
    ensures a in PRECOMPILES <==> |a| == 20 && AllZero(a[..19]) && 1 <= a[19] <= 10
    ensures a in PRECOMPILES_POST_CANCUN <==> |a| == 20 && AllZero(a[..19]) && 11 <= a[19] <= 17
  {
    if |a| == 20 && AllZero(a[..19]) {
      assert a == AddressOf(a[19]);
    }
  }

  /** The addresses of the two tables that `fork` recognises, in table order. */
  function Active(table: seq<Address>, fork: Fork): seq<Address> {
    if table == [] then []
    else (if IsPrecompile(table[0], fork) then [table[0]] else []) + Active(table[1..], fork)
  }

  lemma {:induction false} ActiveAppend(t: seq<Address>, u: seq<Address>, fork: Fork)
    ensures Active(t + u, fork) == Active(t, fork) + Active(u, fork)
  {
    if t != [] {
      assert (t + u)[1..] == t[1..] + u;
      ActiveAppend(t[1..], u, fork);
    } else {
      assert t + u == u;
    }
  }

  lemma {:induction false} ActiveAllOrNone(t: seq<Address>, fork: Fork, all: bool)
    requires forall i :: 0 <= i < |t| ==> IsPrecompile(t[i], fork) == all
    ensures Active(t, fork) == if all then t else []
  {
    if t != [] {
      ActiveAllOrNone(t[1..], fork, all);
    }
  }

  /** 0x01..0x09 are recognised in every fork. */
  lemma AlwaysActive(fork: Fork)
    ensures Active(PRECOMPILES[..9], fork) == PRECOMPILES[..9]
  {
    forall i | 0 <= i < 9 ensures IsPrecompile(PRECOMPILES[..9][i], fork) {
    }
    ActiveAllOrNone(PRECOMPILES[..9], fork, true);
  }

  /** The BLS12-381 table is recognised whole from Prague on, and not at all before. */
  lemma PostCancunActive(fork: Fork)
    ensures Active(PRECOMPILES_POST_CANCUN, fork) == if Before(fork, Prague) then [] else PRECOMPILES_POST_CANCUN
  {
    forall i | 0 <= i < 7 ensures IsPrecompile(PRECOMPILES_POST_CANCUN[i], fork) == !Before(fork, Prague) {
    }
    ActiveAllOrNone(PRECOMPILES_POST_CANCUN, fork, !Before(fork, Prague));
  }

  /** The SIZE_PRECOMPILES_* constants count the precompiles each era recognises. */
  lemma ActiveCount(fork: Fork)
    ensures |Active(PRECOMPILES + PRECOMPILES_POST_CANCUN, fork)| ==
      if Before(fork, Cancun) then SIZE_PRECOMPILES_PRE_CANCUN
      else if Before(fork, Prague) then SIZE_PRECOMPILES_CANCUN
      else SIZE_PRECOMPILES_PRAGUE
  {
    assert Before(fork, Cancun) ==> Before(fork, Prague);
    assert PRECOMPILES == PRECOMPILES[..9] + [POINT_EVALUATION_ADDRESS];
    AlwaysActive(fork);
    PostCancunActive(fork);
    assert IsPrecompile(POINT_EVALUATION_ADDRESS, fork) <==> !Before(fork, Cancun);
    ActiveAppend(PRECOMPILES[..9], [POINT_EVALUATION_ADDRESS], fork);
    ActiveAppend(PRECOMPILES, PRECOMPILES_POST_CANCUN, fork);
    assert [POINT_EVALUATION_ADDRESS][1..] == [];
  }

  /** The precompile that execute_precompile runs for an address. */
  datatype PrecompileId =
    | Ecrecover | Sha2_256 | Ripemd160 | Identity | Modexp | EcAdd | EcMul | EcPairing | Blake2f
    | PointEvaluation | Bls12G1Add | Bls12G1Msm | Bls12G2Add | Bls12G2Msm | Bls12PairingCheck
    | Bls12MapFpToG1 | Bls12MapFp2ToG2

  /** The last byte of each precompile's address. */
  function Number(p: PrecompileId): byte {
    match p
    case Ecrecover => 0x01 case Sha2_256 => 0x02 case Ripemd160 => 0x03 case Identity => 0x04
    case Modexp => 0x05 case EcAdd => 0x06 case EcMul => 0x07 case EcPairing => 0x08
    case Blake2f => 0x09 case PointEvaluation => 0x0a case Bls12G1Add => 0x0b
    case Bls12G1Msm => 0x0c case Bls12G2Add => 0x0d case Bls12G2Msm => 0x0e
    case Bls12PairingCheck => 0x0f case Bls12MapFpToG1 => 0x10 case Bls12MapFp2ToG2 => 0x11
  }

  function AddressOfId(p: PrecompileId): Address {
    AddressOf(Number(p))
  }

  /**
   * The dispatch of execute_precompile: the precompile at `address`, or
   * InvalidPrecompileAddress. It does not look at the fork.
   */
  function ExecutePrecompileTarget(address: Address): (r: Result<PrecompileId>)
    ensures r.Ok? ==> AddressOfId(r.value) == address
    ensures r.Err? ==> r.error == InvalidPrecompileAddress
  {
    if address == ECRECOVER_ADDRESS then Ok(Ecrecover)
    else if address == IDENTITY_ADDRESS then Ok(Identity)
    else if address == SHA2_256_ADDRESS then Ok(Sha2_256)
    else if address == RIPEMD_160_ADDRESS then Ok(Ripemd160)
    else if address == MODEXP_ADDRESS then Ok(Modexp)
    else if address == ECADD_ADDRESS then Ok(EcAdd)
    else if address == ECMUL_ADDRESS then Ok(EcMul)
    else if address == ECPAIRING_ADDRESS then Ok(EcPairing)
    else if address == BLAKE2F_ADDRESS then Ok(Blake2f)
    else if address == POINT_EVALUATION_ADDRESS then Ok(PointEvaluation)
    else if address == BLS12_G1ADD_ADDRESS then Ok(Bls12G1Add)
    else if address == BLS12_G1MSM_ADDRESS then Ok(Bls12G1Msm)
    else if address == BLS12_G2ADD_ADDRESS then Ok(Bls12G2Add)
    else if address == BLS12_G2MSM_ADDRESS then Ok(Bls12G2Msm)
    else if address == BLS12_PAIRING_CHECK_ADDRESS then Ok(Bls12PairingCheck)
    else if address == BLS12_MAP_FP_TO_G1_ADDRESS then Ok(Bls12MapFpToG1)
    else if address == BLS12_MAP_FP2_TO_G2_ADDRESS then Ok(Bls12MapFp2ToG2)
    else Err(InvalidPrecompileAddress)
  }

  lemma AddressOfInjective(j: byte, k: byte)
    ensures AddressOf(j) == AddressOf(k) <==> j == k
  {
    if AddressOf(j) == AddressOf(k) {
      assert AddressOf(j)[19] == AddressOf(k)[19];
    }
  }

  /** The precompile numbered `k` in the address space, if any. */
  function IdOf(k: byte): (p: PrecompileId)
    requires 1 <= k <= 17
    ensures Number(p) == k
  {
    if k == 0x01 then Ecrecover else if k == 0x02 then Sha2_256 else if k == 0x03 then Ripemd160
    else if k == 0x04 then Identity else if k == 0x05 then Modexp else if k == 0x06 then EcAdd
    else if k == 0x07 then EcMul else if k == 0x08 then EcPairing else if k == 0x09 then Blake2f
    else if k == 0x0a then PointEvaluation else if k == 0x0b then Bls12G1Add
    else if k == 0x0c then Bls12G1Msm else if k == 0x0d then Bls12G2Add
    else if k == 0x0e then Bls12G2Msm else if k == 0x0f then Bls12PairingCheck
    else if k == 0x10 then Bls12MapFpToG1 else Bls12MapFp2ToG2
  }

  /** Dispatch of an address 0x00..0xff, by its last byte. */
  lemma DispatchLow(k: byte)
    ensures ExecutePrecompileTarget(AddressOf(k)) ==
      if 1 <= k <= 17 then Ok(IdOf(k)) else Err(InvalidPrecompileAddress)
  {
    if 1 <= k <= 17 {
      DispatchRoundTrip(IdOf(k));
    } else {
      AddressOfInjective(k, 0x01); AddressOfInjective(k, 0x02); AddressOfInjective(k, 0x03);
      AddressOfInjective(k, 0x04); AddressOfInjective(k, 0x05); AddressOfInjective(k, 0x06);
      AddressOfInjective(k, 0x07); AddressOfInjective(k, 0x08); AddressOfInjective(k, 0x09);
      AddressOfInjective(k, 0x0a); AddressOfInjective(k, 0x0b); AddressOfInjective(k, 0x0c);
      AddressOfInjective(k, 0x0d); AddressOfInjective(k, 0x0e); AddressOfInjective(k, 0x0f);
      AddressOfInjective(k, 0x10); AddressOfInjective(k, 0x11);
    }
  }

  /** Dispatch succeeds exactly on the addresses of the two tables. */
  lemma DispatchCoversTables(address: Address)
    ensures ExecutePrecompileTarget(address).Ok? <==> address in PRECOMPILES || address in PRECOMPILES_POST_CANCUN
  {
    TablesByLastByte(address);
    if |address| == 20 && AllZero(address[..19]) {
      assert address == AddressOf(address[19]);
      DispatchLow(address[19]);
      if 1 <= address[19] <= 17 {
        assert AddressOfId(IdOf(address[19])) == address;
      }
    } else {
      forall j: byte ensures address != AddressOf(j) {
      }
    }
  }

  /** Every precompile is reached from its own address. */
  lemma DispatchRoundTrip(p: PrecompileId)
    ensures ExecutePrecompileTarget(AddressOfId(p)) == Ok(p)
  {
  }

  /** Whatever a fork recognises can be dispatched. */
  lemma RecognisedIsDispatched(address: Address, fork: Fork)
    requires IsPrecompile(address, fork)
    ensures ExecutePrecompileTarget(address).Ok?
  {
    DispatchCoversTables(address);
  }

  /**
   * The fork gate lives only in is_precompile: before Cancun, 0x0a is not a
   * precompile, yet execute_precompile would still run point evaluation for it.
   */
  lemma DispatchIgnoresFork()
    ensures !IsPrecompile(POINT_EVALUATION_ADDRESS, Shanghai)
    ensures ExecutePrecompileTarget(POINT_EVALUATION_ADDRESS) == Ok(PointEvaluation)
  {
    assert POINT_EVALUATION_ADDRESS[19] == 10;
  }
}

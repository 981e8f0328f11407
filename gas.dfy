/** Charging a precompile's gas against the caller's remaining gas. */
module Gas {
  import opened Bytes
  import opened Errors

  /**
   * The prices of the gas_cost module. The fixed ones are constants there, the
   * variable ones are formulas of the input size; both are inputs of this model.
   */
  datatype GasSchedule = GasSchedule(
    modexpStatic: u64,
    pointEvaluation: u64,
    bls12G1Add: u64,
    bls12G2Add: u64,
    bls12MapFpToG1: u64,
    bls12MapFp2ToG2: u64,
    // (first 32 bytes of the exponent, base size, exponent size, modulus size)
    modexp: (nat, nat, nat, nat) -> Result<u64>,
    // number of 192-byte pairs
    ecpairing: nat -> Result<u64>,
    // number of (point, scalar) pairs
    bls12G1Msm: nat -> Result<u64>,
    bls12G2Msm: nat -> Result<u64>,
    bls12PairingCheck: nat -> Result<u64>)

  /**
   * Subtracts `gasCost` from the remaining gas, or fails with NotEnoughGas and
   * leaves it untouched. `gasAfter` is the value left in `*gas_remaining`.
   */
  method IncreasePrecompileConsumedGas(gasCost: u64, gasRemaining: u64) returns (r: Result<()>, gasAfter: u64)
    ensures gasCost <= gasRemaining ==> r == Ok(()) && gasAfter == gasRemaining - gasCost
    ensures gasRemaining < gasCost ==> r == Err(NotEnoughGas) && gasAfter == gasRemaining
  {
    gasAfter := gasRemaining;
    if gasCost > gasRemaining {
      return Err(NotEnoughGas), gasAfter;
    }
    gasAfter := gasRemaining - gasCost;
    r := Ok(());
  }
}

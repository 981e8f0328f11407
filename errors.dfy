/** The errors a precompile can return, and the result type that carries them. */
module Errors {

  datatype VMError =
    // PrecompileError
    | NotEnoughGas
    | ParsingInputError
    | InvalidPoint
    | PointNotInTheCurve
    | BLS12381G1PointNotInCurve
    | BLS12381G2PointNotInCurve
    | PointNotInSubgroup
    | BN254AtePairingError
    // InternalError
    | InvalidPrecompileAddress
    | Overflow
    | Slicing
    // whatever a gas-cost formula reports when it cannot price an input
    | GasCostError

  datatype Result<T> = Ok(value: T) | Err(error: VMError)

  /** Rust's Option, for `slice.get(range)` and the like. */
  datatype Option<T> = None | Some(value: T)
}

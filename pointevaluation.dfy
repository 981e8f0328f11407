/** The point evaluation precompile of EIP-4844, up to the KZG proof check. */
module PointEvaluation {
  import opened Bytes
  import opened Errors
  import opened Gas
  import opened Framing

  const POINT_EVALUATION_INPUT_LENGTH: nat := 192
  /** The version byte that replaces the first byte of a commitment's SHA-256 digest. */
  const VERSIONED_HASH_VERSION_KZG: byte := 0x01
  const FIELD_ELEMENTS_PER_BLOB: nat := 4096
  const BLS_MODULUS: nat := 0x73eda753299d7d483339d80809a1d80553bda402fffe5bfeffffffff00000001

  type Digest = s: seq<byte> | |s| == 32 witness Zeros(32)

  /**
   * The foreign calls: SHA-256, and verify_kzg_proof(commitment, z, y, proof),
   * which yields None when it cannot decode its arguments.
   */
  datatype KzgOps = KzgOps(
    sha256: seq<byte> -> Digest,
    verifyKzgProof: (seq<byte>, seq<byte>, seq<byte>, seq<byte>) -> Option<bool>)

  /** kzg_commitment_to_versioned_hash: the digest with its first byte replaced by the version. */
  function VersionedHash(ops: KzgOps, commitment: seq<byte>): (r: seq<byte>)
    ensures |r| == 32 && r[0] == VERSIONED_HASH_VERSION_KZG
    ensures r[1..] == ops.sha256(commitment)[1..]
  {
    [VERSIONED_HASH_VERSION_KZG] + ops.sha256(commitment)[1..]
  }

  /** The 32 big-endian bytes of `n` (n < 256^32). */
  function Be32(n: nat): (r: seq<byte>)
    requires n < Pow256(32)
    ensures |r| == 32 && BeValue(r) == n
  {
    NatToBytesBeLength(n, 32);
    IncreaseLeftPadValue(NatToBytesBe(n), 32);
    IncreaseLeftPad(NatToBytesBe(n), 32)
  }

  /** The fixed success output: FIELD_ELEMENTS_PER_BLOB and BLS_MODULUS as 32-byte big-endian words. */
  function PointEvaluationOutput(): (r: seq<byte>)
    ensures |r| == 64
    ensures BeValue(r[..32]) == FIELD_ELEMENTS_PER_BLOB && BeValue(r[32..]) == BLS_MODULUS
  {
    Pow256Word();
    Be32(FIELD_ELEMENTS_PER_BLOB) + Be32(BLS_MODULUS)
  }

  /** The claim the calldata makes: versioned hash, z, y, commitment and proof. */
  predicate ProofAccepted(ops: KzgOps, calldata: seq<byte>)
    requires |calldata| == POINT_EVALUATION_INPUT_LENGTH
  {
    && VersionedHash(ops, calldata[96..144]) == calldata[..32]
    && ops.verifyKzgProof(calldata[96..144], calldata[32..64], calldata[64..96], calldata[144..192]) == Some(true)
  }

  /**
   * `point_evaluation`: any length but 192 is rejected before gas is charged;
   * then the fixed cost is charged; a commitment that does not hash to the
   * versioned hash, or a proof that fails or cannot be decoded, is a
   * ParsingInputError; otherwise the output is the fixed 64 bytes.
   */
  method PointEvaluation(calldata: seq<byte>, gasRemaining: u64, schedule: GasSchedule, ops: KzgOps)
    returns (r: Result<seq<byte>>, gasAfter: u64)
    ensures |calldata| != POINT_EVALUATION_INPUT_LENGTH ==> r == Err(ParsingInputError) && gasAfter == gasRemaining
    ensures |calldata| == POINT_EVALUATION_INPUT_LENGTH && gasRemaining < schedule.pointEvaluation ==>
      r == Err(NotEnoughGas) && gasAfter == gasRemaining
    ensures |calldata| == POINT_EVALUATION_INPUT_LENGTH && schedule.pointEvaluation <= gasRemaining ==>
      gasAfter == gasRemaining - schedule.pointEvaluation &&
      (r.Ok? <==> ProofAccepted(ops, calldata)) &&
      (r.Ok? ==> r.value == PointEvaluationOutput()) &&
      (r.Err? ==> r.error == ParsingInputError)
  {
    gasAfter := gasRemaining;
    if |calldata| != POINT_EVALUATION_INPUT_LENGTH {
      return Err(ParsingInputError), gasAfter;
    }
    var charged;
    charged, gasAfter := IncreasePrecompileConsumedGas(schedule.pointEvaluation, gasRemaining);
    if charged.Err? {
      return Err(charged.error), gasAfter;
    }
    var versionedHash := calldata[..32];
    var x := calldata[32..64];
    var y := calldata[64..96];
    var commitment := calldata[96..144];
    var proof := calldata[144..192];
    if VersionedHash(ops, commitment) != versionedHash {
      return Err(ParsingInputError), gasAfter;
    }
    var verified := ops.verifyKzgProof(commitment, x, y, proof);
    if !(verified.Some? && verified.value) {
      return Err(ParsingInputError), gasAfter;
    }
    r := Ok(PointEvaluationOutput());
  }
}

/** BLAKE2F (EIP-152): input gate, gas per round, and reading the compression parameters. */
module Blake2f {
  import opened Bytes
  import opened Errors
  import opened Gas

  const BLAKE2F_INPUT_LENGTH: nat := 213
  /** Gas per round, as EIP-152 prices it. */
  const BLAKE2F_ROUND_COST: nat := 1

  /** The parameters of the compression function F, as read from the 213 input bytes. */
  datatype Blake2fInput = Blake2fInput(rounds: u32, h: seq<u64>, m: seq<u64>, t: seq<u64>, f: bool)

  /** `count` little-endian u64 words of `s` from `offset` on. */
  function LeWords(s: seq<byte>, offset: nat, count: nat): (r: seq<nat>)
    requires offset + 8 * count <= |s|
    ensures |r| == count
  {
    seq(count, i requires 0 <= i < count => LeValue(s[offset + 8 * i..offset + 8 * i + 8]))
  }

  lemma LeU64Bound(s: seq<byte>)
    requires |s| == 8
    ensures LeValue(s) < 0x1_0000_0000_0000_0000
  {
    LeValueRoundTrip(s);
  }

  /**
   * Reads `count` words with get_u64_le from the cursor at `pos`; the cursor
   * ends just past the last byte read.
   */
  method ReadU64LeWords(buf: seq<byte>, pos: nat, count: nat) returns (words: seq<u64>, newPos: nat)
    requires pos + 8 * count <= |buf|
    ensures newPos == pos + 8 * count
    ensures words == LeWords(buf, pos, count)
  {
    words := [];
    newPos := pos;
    while |words| < count
      invariant |words| <= count
      invariant newPos == pos + 8 * |words|
      invariant words == LeWords(buf, pos, |words|)
    {
      var chunk := buf[newPos..newPos + 8];
      LeU64Bound(chunk);
      words := words + [LeValue(chunk)];
      newPos := newPos + 8;
    }
  }

  /**
   * `blake2f` up to the compression call. Any length but 213 is rejected before
   * gas is charged; the big-endian u32 in bytes 0..4 gives the rounds, and
   * rounds * BLAKE2F_ROUND_COST is charged; then h, m and t are read as 8, 16
   * and 2 little-endian words, and a final-block flag other than 0 or 1 is
   * rejected with ParsingInputError, after the gas has been taken.
   */
  method Blake2fParse(calldata: seq<byte>, gasRemaining: u64) returns (r: Result<Blake2fInput>, gasAfter: u64)
    ensures |calldata| != BLAKE2F_INPUT_LENGTH ==> r == Err(ParsingInputError) && gasAfter == gasRemaining
    ensures |calldata| == BLAKE2F_INPUT_LENGTH && gasRemaining < BeValue(calldata[..4]) * BLAKE2F_ROUND_COST ==>
      r == Err(NotEnoughGas) && gasAfter == gasRemaining
    ensures |calldata| == BLAKE2F_INPUT_LENGTH && BeValue(calldata[..4]) * BLAKE2F_ROUND_COST <= gasRemaining ==>
      gasAfter == gasRemaining - BeValue(calldata[..4]) * BLAKE2F_ROUND_COST &&
      (r.Ok? <==> calldata[212] <= 1) &&
      (r.Err? ==> r.error == ParsingInputError)
    ensures r.Ok? ==>
      && |calldata| == BLAKE2F_INPUT_LENGTH
      && r.value.rounds == BeValue(calldata[..4])
      && r.value.h == LeWords(calldata, 4, 8)
      && r.value.m == LeWords(calldata, 68, 16)
      && r.value.t == LeWords(calldata, 196, 2)
      && r.value.f == (calldata[212] == 1)
  {
    gasAfter := gasRemaining;
    if |calldata| != BLAKE2F_INPUT_LENGTH {
      return Err(ParsingInputError), gasAfter;
    }
    var pos := 0;
    // get_u32 is big-endian
    var rounds := BeValue(calldata[pos..pos + 4]);
    BeValueBound(calldata[pos..pos + 4]);
    assert calldata[pos..pos + 4] == calldata[..4];
    pos := pos + 4;

    var charged;
    charged, gasAfter := IncreasePrecompileConsumedGas(rounds * BLAKE2F_ROUND_COST, gasRemaining);
    if charged.Err? {
      return Err(charged.error), gasAfter;
    }

    var h, m, t;
    h, pos := ReadU64LeWords(calldata, pos, 8);
    m, pos := ReadU64LeWords(calldata, pos, 16);
    t, pos := ReadU64LeWords(calldata, pos, 2);

    var f := calldata[pos];
    if f != 0 && f != 1 {
      return Err(ParsingInputError), gasAfter;
    }
    r := Ok(Blake2fInput(rounds, h, m, t, f == 1));
  }

  /** The output: each word of the compressed state as 8 little-endian bytes. */
  function Blake2fOutput(words: seq<u64>): (r: seq<byte>)
    ensures |r| == 8 * |words|
  {
    if words == [] then [] else LeBytes(words[0], 8) + Blake2fOutput(words[1..])
  }

  /** Reading the output back with get_u64_le gives the state words. */
  lemma {:induction false} Blake2fOutputRoundTrip(words: seq<u64>)
    ensures LeWords(Blake2fOutput(words), 0, |words|) == words
  {
    if words != [] {
      var out := Blake2fOutput(words);
      Blake2fOutputRoundTrip(words[1..]);
      var rest := Blake2fOutput(words[1..]);
      forall i | 0 <= i < |words|
        ensures out[8 * i..8 * i + 8] == if i == 0 then LeBytes(words[0], 8) else rest[8 * (i - 1)..8 * (i - 1) + 8]
      {
      }
      LeBytesRoundTrip(words[0], 8);
      assert Pow256(8) == 0x1_0000_0000_0000_0000;
    }
  }
}

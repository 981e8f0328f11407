/** Padding, slicing and zero-extension of calldata and output bytes. */
module Framing {
  import opened Bytes

  /**
   * Pads `calldata` with zeros up to `targetLen`. Longer input is returned whole:
   * nothing is ever cut off.
   */
  function FillWithZeros(calldata: seq<byte>, targetLen: nat): (r: seq<byte>)
    ensures |r| == Max(|calldata|, targetLen)
    ensures r[..|calldata|] == calldata
    ensures AllZero(r[|calldata|..])
  {
    if |calldata| < targetLen then calldata + Zeros(targetLen - |calldata|) else calldata
  }

  /**
   * The `n` bytes of `s` from `start` on, reading every position past the end
   * of `s` as zero: how EIP-198 reads an operand that the calldata cuts short.
   */
  function ZeroExtendedSlice(s: seq<byte>, start: nat, n: nat): (r: seq<byte>)
    ensures |r| == n
  {
    seq(n, i requires 0 <= i < n => if start + i < |s| then s[start + i] else 0)
  }

  /** Padding with zeros never changes the zero-extended view of calldata. */
  lemma FillWithZerosKeepsView(calldata: seq<byte>, targetLen: nat, start: nat, n: nat)
    ensures ZeroExtendedSlice(FillWithZeros(calldata, targetLen), start, n) == ZeroExtendedSlice(calldata, start, n)
  {
    var padded := FillWithZeros(calldata, targetLen);
    forall i | 0 <= i < n
      ensures ZeroExtendedSlice(padded, start, n)[i] == ZeroExtendedSlice(calldata, start, n)[i]
    {
      if |calldata| <= start + i < |padded| {
        assert padded[start + i] == padded[|calldata|..][start + i - |calldata|];
      }
    }
  }

  /** A slice past the end of the data reads as zero. */
  lemma ZeroExtendedSlicePastEnd(s: seq<byte>, start: nat, n: nat)
    requires |s| <= start || n == 0
    ensures BeValue(ZeroExtendedSlice(s, start, n)) == 0
  {
    BeValueZeroIff(ZeroExtendedSlice(s, start, n));
  }

  lemma ZeroExtendedSlicePrefix(s: seq<byte>, start: nat, n: nat, k: nat)
    requires k <= n
    ensures ZeroExtendedSlice(s, start, n)[..k] == ZeroExtendedSlice(s, start, k)
  {
  }

  /**
   * The bytes of `calldata` between `lowerLimit` and `upperLimit` (cut at the end
   * of the calldata), copied into `sizeToExpand` zero bytes; the empty string when
   * that range holds no byte.
   */
  method GetSliceOrDefault(calldata: seq<byte>, lowerLimit: nat, upperLimit: nat, sizeToExpand: nat)
    returns (r: seq<byte>)
    ensures lowerLimit < Min(|calldata|, upperLimit) ==>
      |r| == sizeToExpand &&
      forall i :: 0 <= i < sizeToExpand ==>
        r[i] == if lowerLimit + i < Min(|calldata|, upperLimit) then calldata[lowerLimit + i] else 0
    ensures Min(|calldata|, upperLimit) <= lowerLimit ==> r == []
    // the operand reading of EIP-198: the declared-size window of zero-extended calldata
    ensures upperLimit == lowerLimit + sizeToExpand ==>
      (r == [] || r == ZeroExtendedSlice(calldata, lowerLimit, sizeToExpand)) &&
      BeValue(r) == BeValue(ZeroExtendedSlice(calldata, lowerLimit, sizeToExpand))
  {
    var upper := Min(|calldata|, upperLimit);
    if lowerLimit <= upper {
      var data := calldata[lowerLimit..upper];
      if |data| > 0 {
        var extended := new byte[sizeToExpand](_ => 0);
        var i := 0;
        while i < sizeToExpand && i < |data|
          invariant 0 <= i <= sizeToExpand && i <= |data|
          invariant forall k :: 0 <= k < i ==> extended[k] == data[k]
          invariant forall k :: i <= k < sizeToExpand ==> extended[k] == 0
        {
          extended[i] := data[i];
          i := i + 1;
        }
        r := extended[..];
        if upperLimit == lowerLimit + sizeToExpand {
          assert r == ZeroExtendedSlice(calldata, lowerLimit, sizeToExpand);
        }
        return;
      }
    }
    r := [];
    if upperLimit == lowerLimit + sizeToExpand {
      ZeroExtendedSlicePastEnd(calldata, lowerLimit, sizeToExpand);
    }
  }

  /**
   * Left-pads `result` with zeros to `mSize` bytes; a result already that long is
   * returned as it is. (The source's Underflow and Slicing errors cannot occur
   * on this path, so the model returns the bytes directly.)
   */
  function IncreaseLeftPad(result: seq<byte>, mSize: nat): (r: seq<byte>)
    ensures |r| == Max(|result|, mSize)
    ensures |result| >= mSize ==> r == result
    ensures r[|r| - |result|..] == result
    ensures AllZero(r[..|r| - |result|])
  {
    if |result| < mSize then
      var sizeDiff := mSize - |result|;
      seq(mSize, i requires 0 <= i < mSize => if i < sizeDiff then 0 else result[i - sizeDiff])
    else
      result
  }

  /**
   * `increase_left_pad` as the source runs it: a buffer of `mSize` zeros whose
   * last `|result|` bytes are overwritten with `result` when `result` is shorter.
   */
  method IncreaseLeftPadCopy(result: seq<byte>, mSize: nat) returns (r: seq<byte>)
    ensures r == IncreaseLeftPad(result, mSize)
  {
    if |result| < mSize {
      var padded := new byte[mSize](_ => 0);
      var sizeDiff := mSize - |result|;
      var i := 0;
      while i < |result|
        invariant 0 <= i <= |result|
        invariant forall k :: 0 <= k < sizeDiff ==> padded[k] == 0
        invariant forall k :: 0 <= k < i ==> padded[sizeDiff + k] == result[k]
        invariant forall k :: sizeDiff + i <= k < mSize ==> padded[k] == 0
      {
        padded[sizeDiff + i] := result[i];
        i := i + 1;
      }
      r := padded[..];
    } else {
      r := result;
    }
  }

  /** Left padding keeps the big-endian value. */
  lemma IncreaseLeftPadValue(result: seq<byte>, mSize: nat)
    ensures BeValue(IncreaseLeftPad(result, mSize)) == BeValue(result)
  {
    var r := IncreaseLeftPad(result, mSize);
    var d := |r| - |result|;
    assert r == Zeros(d) + result;
    LeadingZerosValue(d, result);
  }
}

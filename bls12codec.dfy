/**
 * The EIP-2537 encodings: 48-byte field elements padded to 64 bytes, G1 and G2
 * points as padded coordinates, and 32-byte scalars read into 64-bit limbs.
 */
module Bls12Codec {
  import opened Bytes
  import opened Errors

  const FIELD_ELEMENT_WITHOUT_PADDING_LENGTH: nat := 48
  const PADDED_FIELD_ELEMENT_SIZE_IN_BYTES: nat := 64
  const G1_POINT_LENGTH: nat := 128
  const G2_POINT_LENGTH: nat := 256
  const SCALAR_LENGTH: nat := 32

  /** `slice.get(lo..hi)`: None unless the range lies inside `s`. */
  function Get(s: seq<byte>, lo: nat, hi: nat): (r: Option<seq<byte>>)
    ensures r.Some? <==> lo <= hi <= |s|
    ensures r.Some? ==> r.value == s[lo..hi]
  {
    if lo <= hi <= |s| then Some(s[lo..hi]) else None
  }

  // ---------------------------------------------------------------- coordinates

  /** A field element in its 64-byte form: 16 zero bytes, then its 48 big-endian bytes. */
  function PaddedCoordinate(c: seq<byte>): (r: seq<byte>)
    ensures |r| == |c| + 16 && AllZero(r[..16]) && r[16..] == c
  {
    Zeros(16) + c
  }

  /**
   * `parse_coordinate`: a missing chunk, a chunk whose first 16 bytes are not all
   * zero, or one shorter than 64 bytes is a ParsingInputError; otherwise the 48
   * bytes after the padding.
   */
  function ParseCoordinate(raw: Option<seq<byte>>): (r: Result<seq<byte>>)
    ensures r.Ok? <==> raw.Some? && |raw.value| >= PADDED_FIELD_ELEMENT_SIZE_IN_BYTES && AllZero(raw.value[..16])
    ensures r.Ok? ==> r.value == raw.value[16..64] && |r.value| == FIELD_ELEMENT_WITHOUT_PADDING_LENGTH
    ensures r.Err? ==> r.error == ParsingInputError
  {
    assert raw.Some? && |raw.value| >= 16 && AllZero(raw.value[..16]) ==> raw.value[..16] == Zeros(16);
    if raw.None? then Err(ParsingInputError)
    else if |raw.value| < 16 || raw.value[..16] != Zeros(16) then Err(ParsingInputError)
    else if |raw.value| < PADDED_FIELD_ELEMENT_SIZE_IN_BYTES then Err(ParsingInputError)
    else Ok(raw.value[16..64])
  }

  /** Parsing a padded field element gives it back. */
  lemma ParsePaddedCoordinate(c: seq<byte>)
    requires |c| == FIELD_ELEMENT_WITHOUT_PADDING_LENGTH
    ensures ParseCoordinate(Some(PaddedCoordinate(c))) == Ok(c)
  {
    assert PaddedCoordinate(c)[..16] == Zeros(16);
    assert PaddedCoordinate(c)[16..64] == c;
  }

  /** A 64-byte chunk that parses is the padding of what it parses to. */
  lemma PadParsedCoordinate(s: seq<byte>)
    requires |s| == PADDED_FIELD_ELEMENT_SIZE_IN_BYTES && ParseCoordinate(Some(s)).Ok?
    ensures PaddedCoordinate(ParseCoordinate(Some(s)).value) == s
  {
    assert s == s[..16] + s[16..];
  }

  /**
   * `add_padded_coordinate`: appends 16 zero bytes to `result`, then the
   * coordinate; a missing coordinate is a Slicing error, raised after the zeros
   * have been appended.
   */
  method AddPaddedCoordinate(result: seq<byte>, coordinate: Option<seq<byte>>) returns (r: Result<()>, out: seq<byte>)
    ensures coordinate.Some? ==> r == Ok(()) && out == result + PaddedCoordinate(coordinate.value)
    ensures coordinate.None? ==> r == Err(Slicing) && out == result + Zeros(16)
  {
    out := result + Zeros(16);
    if coordinate.None? {
      return Err(Slicing), out;
    }
    out := out + coordinate.value;
    r := Ok(());
  }

  // ---------------------------------------------------------------- points

  /** Uncompressed affine encodings as the bls12_381 crate lays them out. */
  type G1Bytes = s: seq<byte> | |s| == 96 witness Zeros(96)
  /** x_1 || x_0 || y_1 || y_0: the crate puts the c1 half of each Fp2 first. */
  type G2Bytes = s: seq<byte> | |s| == 192 witness Zeros(192)

  datatype G1Point = G1Infinity | G1Affine(uncompressed: G1Bytes)
  datatype G2Point = G2Infinity | G2Affine(uncompressed: G2Bytes)

  /**
   * The point's 128-byte EIP-2537 encoding: all zeros for the point at
   * infinity, otherwise x then y, each padded.
   */
  function EncodeG1(p: G1Point): (r: seq<byte>)
    ensures |r| == G1_POINT_LENGTH
    ensures AllZero(r[0..16]) && AllZero(r[64..80])
    ensures p.G1Affine? ==> r[16..64] == p.uncompressed[0..48] && r[80..128] == p.uncompressed[48..96]
  {
    match p
    case G1Infinity => Zeros(128)
    case G1Affine(b) =>
      var x := PaddedCoordinate(b[0..48]);
      var y := PaddedCoordinate(b[48..96]);
      assert (x + y)[0..16] == x[..16] && (x + y)[64..80] == y[..16];
      assert (x + y)[16..64] == x[16..] && (x + y)[80..128] == y[16..];
      x + y
  }

  /**
   * The point's 256-byte EIP-2537 encoding: all zeros for the point at
   * infinity, otherwise x_0, x_1, y_0, y_1, each padded.
   */
  function EncodeG2(p: G2Point): (r: seq<byte>)
    ensures |r| == G2_POINT_LENGTH
    ensures AllZero(r[0..16]) && AllZero(r[64..80]) && AllZero(r[128..144]) && AllZero(r[192..208])
  {
    match p
    case G2Infinity => Zeros(256)
    case G2Affine(b) =>
      PaddedCoordinate(b[48..96]) + PaddedCoordinate(b[0..48]) + PaddedCoordinate(b[144..192]) + PaddedCoordinate(b[96..144])
  }

  /**
   * The byte decoding of `parse_g1_point`: x from bytes 0..64, y from 64..128;
   * both all zero is the point at infinity.
   */
  function DecodeG1(raw: Option<seq<byte>>): (r: Result<G1Point>)
    ensures r.Ok? <==>
      raw.Some? && |raw.value| >= G1_POINT_LENGTH && AllZero(raw.value[0..16]) && AllZero(raw.value[64..80])
    ensures r.Err? ==> r.error == ParsingInputError
  {
    assert raw.Some? && |raw.value| >= 128 ==>
      raw.value[0..64][..16] == raw.value[0..16] && raw.value[64..128][..16] == raw.value[64..80];
    if raw.None? then Err(ParsingInputError)
    else
      var x := ParseCoordinate(Get(raw.value, 0, 64));
      if x.Err? then Err(x.error)
      else
        var y := ParseCoordinate(Get(raw.value, 64, 128));
        if y.Err? then Err(y.error)
        else if AllZero(x.value) && AllZero(y.value) then Ok(G1Infinity)
        else Ok(G1Affine(x.value + y.value))
  }

  /**
   * The byte decoding of `parse_g2_point`: x_0, x_1, y_0, y_1 from the four
   * 64-byte chunks, reordered into the crate's layout; all four zero is the
   * point at infinity.
   */
  function DecodeG2(raw: Option<seq<byte>>): (r: Result<G2Point>)
    ensures r.Ok? <==>
      && raw.Some? && |raw.value| >= G2_POINT_LENGTH
      && AllZero(raw.value[0..16]) && AllZero(raw.value[64..80])
      && AllZero(raw.value[128..144]) && AllZero(raw.value[192..208])
    ensures r.Err? ==> r.error == ParsingInputError
  {
    assert raw.Some? && |raw.value| >= 256 ==>
      && raw.value[0..64][..16] == raw.value[0..16] && raw.value[64..128][..16] == raw.value[64..80]
      && raw.value[128..192][..16] == raw.value[128..144] && raw.value[192..256][..16] == raw.value[192..208];
    if raw.None? then Err(ParsingInputError)
    else
      var x0 := ParseCoordinate(Get(raw.value, 0, 64));
      if x0.Err? then Err(x0.error)
      else
        var x1 := ParseCoordinate(Get(raw.value, 64, 128));
        if x1.Err? then Err(x1.error)
        else
          var y0 := ParseCoordinate(Get(raw.value, 128, 192));
          if y0.Err? then Err(y0.error)
          else
            var y1 := ParseCoordinate(Get(raw.value, 192, 256));
            if y1.Err? then Err(y1.error)
            else if AllZero(x0.value) && AllZero(x1.value) && AllZero(y0.value) && AllZero(y1.value) then Ok(G2Infinity)
            else Ok(G2Affine(x1.value + x0.value + y1.value + y0.value))
  }

  /** Points that the encoding can tell apart from the point at infinity. */
  predicate G1Encodable(p: G1Point) {
    p.G1Affine? ==> !AllZero(p.uncompressed)
  }

  predicate G2Encodable(p: G2Point) {
    p.G2Affine? ==> !AllZero(p.uncompressed)
  }

  lemma AllZeroConcat(a: seq<byte>, b: seq<byte>)
    ensures AllZero(a + b) <==> AllZero(a) && AllZero(b)
  {
    if AllZero(a) && AllZero(b) {
      forall i | 0 <= i < |a + b|
        ensures (a + b)[i] == 0
      {
        if i >= |a| {
          assert (a + b)[i] == b[i - |a|];
        }
      }
    }
    if AllZero(a + b) {
      forall i | 0 <= i < |a|
        ensures a[i] == 0
      {
        assert (a + b)[i] == a[i];
      }
      forall i | 0 <= i < |b|
        ensures b[i] == 0
      {
        assert (a + b)[|a| + i] == b[i];
      }
    }
  }

  /** The four 64-byte chunks of a 256-byte concatenation. */
  lemma Chunks(a: seq<byte>, b: seq<byte>, c: seq<byte>, d: seq<byte>)
    requires |a| == |b| == |c| == |d| == 64
    ensures (a + b + c + d)[0..64] == a && (a + b + c + d)[64..128] == b
    ensures (a + b + c + d)[128..192] == c && (a + b + c + d)[192..256] == d
    ensures (a + b)[0..64] == a && (a + b)[64..128] == b
  {
    var e := a + b + c + d;
    assert e == (a + b) + (c + d);
    assert e[0..128] == a + b;
    assert e[128..256] == c + d;
  }

  /** A chunk holding a padded field element parses to that element. */
  lemma ParseChunk(e: seq<byte>, lo: nat, c: seq<byte>)
    requires lo + 64 <= |e| && |c| == FIELD_ELEMENT_WITHOUT_PADDING_LENGTH
    requires e[lo..lo + 64] == PaddedCoordinate(c)
    ensures ParseCoordinate(Get(e, lo, lo + 64)) == Ok(c)
  {
    ParsePaddedCoordinate(c);
  }

  /** An all-zero chunk parses to 48 zero bytes. */
  lemma ParseZeroChunk(e: seq<byte>, lo: nat)
    requires lo + 64 <= |e| && AllZero(e[lo..lo + 64])
    ensures ParseCoordinate(Get(e, lo, lo + 64)).Ok?
    ensures AllZero(ParseCoordinate(Get(e, lo, lo + 64)).value)
  {
    var chunk := e[lo..lo + 64];
    assert chunk[..16] == Zeros(16);
    assert ParseCoordinate(Get(e, lo, lo + 64)).value == chunk[16..64];
  }

  /** Decoding an encoded G1 point gives the point back. */
  lemma DecodeEncodeG1(p: G1Point)
    requires G1Encodable(p)
    ensures DecodeG1(Some(EncodeG1(p))) == Ok(p)
  {
    var e := EncodeG1(p);
    if p.G1Affine? {
      var b := p.uncompressed;
      assert b == b[0..48] + b[48..96];
      Chunks(PaddedCoordinate(b[0..48]), PaddedCoordinate(b[48..96]), Zeros(64), Zeros(64));
      ParseChunk(e, 0, b[0..48]);
      ParseChunk(e, 64, b[48..96]);
      AllZeroConcat(b[0..48], b[48..96]);
    } else {
      ParseZeroChunk(e, 0);
      ParseZeroChunk(e, 64);
    }
  }

  /** A 128-byte string that decodes is the encoding of what it decodes to. */
  lemma EncodeDecodeG1(s: seq<byte>)
    requires |s| == G1_POINT_LENGTH && DecodeG1(Some(s)).Ok?
    ensures EncodeG1(DecodeG1(Some(s)).value) == s
  {
    var x := ParseCoordinate(Get(s, 0, 64)).value;
    var y := ParseCoordinate(Get(s, 64, 128)).value;
    PadParsedCoordinate(s[0..64]);
    PadParsedCoordinate(s[64..128]);
    assert s == s[0..64] + s[64..128];
    if AllZero(x) && AllZero(y) {
      assert AllZero(PaddedCoordinate(x));
      assert AllZero(PaddedCoordinate(y));
      AllZeroConcat(PaddedCoordinate(x), PaddedCoordinate(y));
      assert s == Zeros(128);
    } else {
      var b := x + y;
      assert b[0..48] == x && b[48..96] == y;
    }
  }

  /** Decoding an encoded G2 point gives the point back. */
  lemma DecodeEncodeG2(p: G2Point)
    requires G2Encodable(p)
    ensures DecodeG2(Some(EncodeG2(p))) == Ok(p)
  {
    var e := EncodeG2(p);
    if p.G2Affine? {
      var b := p.uncompressed;
      var x1, x0, y1, y0 := b[0..48], b[48..96], b[96..144], b[144..192];
      assert b == x1 + x0 + y1 + y0;
      Chunks(PaddedCoordinate(x0), PaddedCoordinate(x1), PaddedCoordinate(y0), PaddedCoordinate(y1));
      ParseChunk(e, 0, x0);
      ParseChunk(e, 64, x1);
      ParseChunk(e, 128, y0);
      ParseChunk(e, 192, y1);
      AllZeroConcat(x1, x0);
      AllZeroConcat(x1 + x0, y1);
      AllZeroConcat(x1 + x0 + y1, y0);
    } else {
      ParseZeroChunk(e, 0);
      ParseZeroChunk(e, 64);
      ParseZeroChunk(e, 128);
      ParseZeroChunk(e, 192);
    }
  }

  /** A 256-byte string that decodes is the encoding of what it decodes to. */
  lemma EncodeDecodeG2(s: seq<byte>)
    requires |s| == G2_POINT_LENGTH && DecodeG2(Some(s)).Ok?
    ensures EncodeG2(DecodeG2(Some(s)).value) == s
  {
    var x0 := ParseCoordinate(Get(s, 0, 64)).value;
    var x1 := ParseCoordinate(Get(s, 64, 128)).value;
    var y0 := ParseCoordinate(Get(s, 128, 192)).value;
    var y1 := ParseCoordinate(Get(s, 192, 256)).value;
    PadParsedCoordinate(s[0..64]);
    PadParsedCoordinate(s[64..128]);
    PadParsedCoordinate(s[128..192]);
    PadParsedCoordinate(s[192..256]);
    assert s == s[0..64] + s[64..128] + s[128..192] + s[192..256];
    if AllZero(x0) && AllZero(x1) && AllZero(y0) && AllZero(y1) {
      forall i | 0 <= i < 256
        ensures s[i] == 0
      {
        var k := i / 64;
        var j := i % 64;
        assert s[i] == s[64 * k..64 * k + 64][j];
        if j >= 16 {
          assert s[64 * k..64 * k + 64][j] == s[64 * k..64 * k + 64][16..][j - 16];
        }
      }
      assert s == Zeros(256);
    } else {
      var b := x1 + x0 + y1 + y0;
      assert b[0..48] == x1 && b[48..96] == x0 && b[96..144] == y1 && b[144..192] == y0;
    }
  }

  // ---------------------------------------------------------------- scalars

  /** The value of little-endian 64-bit limbs, as Scalar::from_raw reads them (before reduction). */
  function LimbsValue(limbs: seq<u64>): nat {
    if limbs == [] then 0 else limbs[0] + 0x1_0000_0000_0000_0000 * LimbsValue(limbs[1..])
  }

  /** The big-endian u64 in bytes 8*j .. 8*j + 8 of a 32-byte scalar. */
  function ScalarChunk(bytes: seq<byte>, j: nat): (r: u64)
    requires |bytes| == SCALAR_LENGTH && j < 4
  {
    BeValueBound(bytes[8 * j..8 * j + 8]);
    Pow256Add(4, 4);
    assert Pow256(4) == 0x1_0000_0000;
    BeValue(bytes[8 * j..8 * j + 8])
  }

  /**
   * What `parse_scalar` yields: Slicing for a missing slice, ParsingInputError
   * for one of any length but 32, otherwise the four big-endian u64 chunks in
   * reverse order, as little-endian limbs of the same number.
   */
  function ScalarOf(raw: Option<seq<byte>>): (r: Result<seq<u64>>)
    ensures r.Ok? ==> raw.Some? && |raw.value| == SCALAR_LENGTH && |r.value| == 4
    ensures r.Ok? ==> LimbsValue(r.value) == BeValue(raw.value)
  {
    if raw.None? then Err(Slicing)
    else if |raw.value| != SCALAR_LENGTH then Err(ParsingInputError)
    else
      ScalarValue(raw.value);
      Ok([ScalarChunk(raw.value, 3), ScalarChunk(raw.value, 2), ScalarChunk(raw.value, 1), ScalarChunk(raw.value, 0)])
  }

  /** Reversing four limbs in place: the most significant big-endian chunk becomes the last limb. */
  method ReverseLimbs(a: array<u64>)
    requires a.Length == 4
    modifies a
    ensures a[..] == [old(a[3]), old(a[2]), old(a[1]), old(a[0])]
  {
    var i := 0;
    var j := a.Length - 1;
    while i < j
      invariant i + j == 3 && 0 <= i <= 2
      invariant forall k :: 0 <= k < i ==> a[k] == old(a[3 - k]) && a[3 - k] == old(a[k])
      invariant forall k :: i <= k <= j ==> a[k] == old(a[k])
    {
      a[i], a[j] := a[j], a[i];
      i := i + 1;
      j := j - 1;
    }
  }

  /**
   * `parse_scalar`: the 32 bytes are read as four big-endian u64 chunks into a
   * limb array, which is then reversed in place.
   */
  method ParseScalar(raw: Option<seq<byte>>) returns (r: Result<seq<u64>>)
    ensures r == ScalarOf(raw)
  {
    if raw.None? {
      return Err(Slicing);
    }
    var bytes := raw.value;
    if |bytes| != SCALAR_LENGTH {
      return Err(ParsingInputError);
    }
    var scalarLe := new u64[4](_ => 0);
    var j := 0;
    while j < 4
      invariant 0 <= j <= 4
      invariant forall k :: 0 <= k < j ==> scalarLe[k] == ScalarChunk(bytes, k)
    {
      scalarLe[j] := ScalarChunk(bytes, j);
      j := j + 1;
    }
    ReverseLimbs(scalarLe);
    r := Ok(scalarLe[..]);
  }

  /** The reversed chunks, read as little-endian limbs, are the big-endian value of the scalar. */
  lemma ScalarValue(bytes: seq<byte>)
    requires |bytes| == SCALAR_LENGTH
    ensures LimbsValue([ScalarChunk(bytes, 3), ScalarChunk(bytes, 2), ScalarChunk(bytes, 1), ScalarChunk(bytes, 0)])
         == BeValue(bytes)
  {
    var c0, c1, c2, c3 := bytes[0..8], bytes[8..16], bytes[16..24], bytes[24..32];
    assert bytes == c0 + c1 + c2 + c3;
    Pow256Add(4, 4);
    assert Pow256(4) == 0x1_0000_0000;
    var m := Pow256(8);
    assert m == 0x1_0000_0000_0000_0000;
    var v0, v1, v2, v3 := BeValue(c0), BeValue(c1), BeValue(c2), BeValue(c3);
    BeValueAppend(c0, c1);
    BeValueAppend(c0 + c1, c2);
    BeValueAppend(c0 + c1 + c2, c3);
    assert BeValue(bytes) == ((v0 * m + v1) * m + v2) * m + v3;
    var limbs := [ScalarChunk(bytes, 3), ScalarChunk(bytes, 2), ScalarChunk(bytes, 1), ScalarChunk(bytes, 0)];
    assert LimbsValue(limbs[3..]) == v0 by {
      assert limbs[3..][1..] == [];
    }
    assert limbs[2..][1..] == limbs[3..];
    assert LimbsValue(limbs[2..]) == v1 + m * v0;
    assert limbs[1..][1..] == limbs[2..];
    assert LimbsValue(limbs[1..]) == v2 + m * (v1 + m * v0);
    assert LimbsValue(limbs) == v3 + m * (v2 + m * (v1 + m * v0));
  }
}

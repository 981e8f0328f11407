/** Byte strings and the fixed-width integers the precompiles read from them. */
module Bytes {

  type byte = b: int | 0 <= b < 0x100
  type u32 = x: int | 0 <= x < 0x1_0000_0000
  type u64 = x: int | 0 <= x < 0x1_0000_0000_0000_0000

  /** usize is taken to be 64 bits wide. */
  const U64_MAX: int := 0xFFFF_FFFF_FFFF_FFFF

  function Min(a: int, b: int): int { if a <= b then a else b }
  function Max(a: int, b: int): int { if a <= b then b else a }

  function Pow256(n: nat): (p: nat)
    ensures p >= 1
  {
    if n == 0 then 1 else 256 * Pow256(n - 1)
  }

  lemma {:induction false} Pow256Add(a: nat, b: nat)
    ensures Pow256(a + b) == Pow256(a) * Pow256(b)
  {
    if b > 0 {
      Pow256Add(a, b - 1);
    }
  }

  /** 256^32 = 2^256, the bound of a 32-byte word. */
  lemma Pow256Word()
    ensures Pow256(32) == 0x1_0000_0000_0000_0000_0000_0000_0000_0000_0000_0000_0000_0000_0000_0000_0000_0000
  {
    assert Pow256(4) == 0x1_0000_0000;
    Pow256Add(4, 4);
    Pow256Add(8, 8);
    Pow256Add(16, 16);
  }

  /** `vec![0u8; n]` */
  function Zeros(n: nat): (z: seq<byte>)
    ensures |z| == n
    ensures forall i :: 0 <= i < n ==> z[i] == 0
  {
    seq(n, _ => 0)
  }

  predicate AllZero(s: seq<byte>) {
    forall i :: 0 <= i < |s| ==> s[i] == 0
  }

  /** Unsigned big-endian value of a byte string (U256::from_big_endian, BigUint::from_bytes_be). */
  function BeValue(s: seq<byte>): nat {
    if s == [] then 0 else BeValue(s[..|s| - 1]) * 256 + s[|s| - 1]
  }

  /** Unsigned little-endian value of a byte string (Buf::get_u64_le, u64::from_le_bytes). */
  function LeValue(s: seq<byte>): nat {
    if s == [] then 0 else s[0] + 256 * LeValue(s[1..])
  }

  /** The `n` low bytes of `w`, least significant first (u64::to_le_bytes for n = 8). */
  function LeBytes(w: nat, n: nat): (r: seq<byte>)
    ensures |r| == n
  {
    if n == 0 then [] else [w % 256] + LeBytes(w / 256, n - 1)
  }

  /** Minimal big-endian encoding as BigUint::to_bytes_be produces it: zero is the single byte 0. */
  function NatToBytesBe(n: nat): (r: seq<byte>)
    ensures |r| >= 1
    ensures n > 0 ==> r[0] != 0
    ensures BeValue(r) == n
  {
    if n < 256 then [n]
    else
      var r := NatToBytesBe(n / 256) + [n % 256];
      assert r[..|r| - 1] == NatToBytesBe(n / 256);
      r
  }

  lemma {:induction false} BeValueBound(s: seq<byte>)
    ensures BeValue(s) < Pow256(|s|)
  {
    if s != [] {
      BeValueBound(s[..|s| - 1]);
    }
  }

  lemma {:induction false} BeValueAppend(a: seq<byte>, b: seq<byte>)
    ensures BeValue(a + b) == BeValue(a) * Pow256(|b|) + BeValue(b)
    decreases |b|
  {
    if b == [] {
      assert a + b == a;
    } else {
      var b' := b[..|b| - 1];
      assert (a + b)[..|a + b| - 1] == a + b';
      BeValueAppend(a, b');
      calc {
        BeValue(a + b);
        BeValue(a + b') * 256 + b[|b| - 1];
        (BeValue(a) * Pow256(|b'|) + BeValue(b')) * 256 + b[|b| - 1];
        BeValue(a) * (Pow256(|b'|) * 256) + (BeValue(b') * 256 + b[|b| - 1]);
        BeValue(a) * Pow256(|b|) + BeValue(b);
      }
    }
  }

  /** A string is worth zero exactly when all of its bytes are zero. */
  lemma {:induction false} BeValueZeroIff(s: seq<byte>)
    ensures BeValue(s) == 0 <==> AllZero(s)
  {
    if s != [] {
      var s' := s[..|s| - 1];
      BeValueZeroIff(s');
      if AllZero(s) {
        assert AllZero(s');
      } else if AllZero(s') {
        assert s[|s| - 1] != 0;
      }
    }
  }

  /** Leading zero bytes do not change a big-endian value. */
  lemma LeadingZerosValue(n: nat, s: seq<byte>)
    ensures BeValue(Zeros(n) + s) == BeValue(s)
  {
    BeValueAppend(Zeros(n), s);
    BeValueZeroIff(Zeros(n));
  }

  /** A value below 256^k (k >= 1) has a minimal encoding of at most k bytes. */
  lemma {:induction false} NatToBytesBeLength(n: nat, k: nat)
    requires k >= 1 && n < Pow256(k)
    ensures |NatToBytesBe(n)| <= k
  {
    if n >= 256 {
      assert k >= 2;
      NatToBytesBeLength(n / 256, k - 1);
    }
  }

  lemma {:induction false} LeBytesRoundTrip(w: nat, n: nat)
    requires w < Pow256(n)
    ensures LeValue(LeBytes(w, n)) == w
  {
    if n > 0 {
      LeBytesRoundTrip(w / 256, n - 1);
      assert LeBytes(w, n)[1..] == LeBytes(w / 256, n - 1);
    }
  }

  lemma {:induction false} LeValueRoundTrip(s: seq<byte>)
    ensures LeValue(s) < Pow256(|s|)
    ensures LeBytes(LeValue(s), |s|) == s
  {
    if s != [] {
      LeValueRoundTrip(s[1..]);
      assert LeValue(s) / 256 == LeValue(s[1..]);
      assert LeValue(s) % 256 == s[0];
    }
  }
}

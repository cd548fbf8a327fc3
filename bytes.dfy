/**
 * Bytes, the little-endian packing done by `struct("<HH")`, `struct("<II")` and
 * `struct("<I")`, the CRC-32 checksum and the byte-to-character conversion of
 * `String.fromCharCode`.
 */
module Bytes {

  newtype byte = x: int | 0 <= x < 256

  const U16_LIMIT: int := 0x1_0000
  const U32_LIMIT: int := 0x1_0000_0000

  function Zeros(n: nat): (z: seq<byte>)
    ensures |z| == n && forall i :: 0 <= i < n ==> z[i] == 0
  {
    if n == 0 then [] else [0] + Zeros(n - 1)
  }

  /** One more zero at the end. */
  lemma ZerosSnoc(n: nat)
    ensures Zeros(n) + [0] == Zeros(n + 1)
  {
    assert forall i :: 0 <= i < n + 1 ==> (Zeros(n) + [0])[i] == 0;
  }

  /** `struct("<H").pack(x)`: the low 16 bits of `x`, least significant byte first. */
  function LE16(x: nat): (r: seq<byte>)
    ensures |r| == 2
  {
    [(x % 256) as byte, (x / 256 % 256) as byte]
  }

  /** `struct("<I").pack(x)`: the low 32 bits of `x`, least significant byte first. */
  function LE32(x: nat): (r: seq<byte>)
    ensures |r| == 4
  {
    LE16(x % U16_LIMIT) + LE16(x / U16_LIMIT % U16_LIMIT)
  }

  /** Reads a little-endian 16-bit field (the receiving side of LE16). */
  function FromLE16(s: seq<byte>): (v: nat)
    requires |s| == 2
    ensures v < U16_LIMIT
  {
    s[0] as nat + 256 * s[1] as nat
  }

  /** Reads a little-endian 32-bit field (the receiving side of LE32). */
  function FromLE32(s: seq<byte>): (v: nat)
    requires |s| == 4
    ensures v < U32_LIMIT
  {
    FromLE16(s[..2]) + U16_LIMIT * FromLE16(s[2..])
  }

  lemma LE16RoundTrip(x: nat)
    ensures FromLE16(LE16(x)) == x % U16_LIMIT
  {
    Split(x, 256, 256);
  }

  /** Packing a 32-bit field and reading it back gives the value modulo 2^32. */
  lemma LE32RoundTrip(x: nat)
    ensures FromLE32(LE32(x)) == x % U32_LIMIT
  {
    var lo, hi := x % U16_LIMIT, x / U16_LIMIT % U16_LIMIT;
    LE16RoundTrip(lo);
    LE16RoundTrip(hi);
    assert LE32(x)[..2] == LE16(lo) && LE32(x)[2..] == LE16(hi);
    Split(x, U16_LIMIT, U16_LIMIT);
  }

  /** The remainder by `b * c` is made of the low digit and the next digit in base `b`. */
  lemma Split(x: nat, b: nat, c: nat)
    requires b > 0 && c > 0
    ensures x % (b * c) == x % b + b * (x / b % c)
  {
    var q, r := x / b, x % b;
    var q2, r2 := q / c, q % c;
    assert x == b * q + r;
    assert q == c * q2 + r2;
    assert x == (b * c) * q2 + (b * r2 + r) by {
      assert b * q == b * (c * q2) + b * r2;
    }
    MulLe(b, r2, c - 1);
    assert b * (c - 1) == b * c - b;
    ModOf(x, b * c, q2, b * r2 + r);
  }

  lemma MulLe(b: nat, m: nat, n: nat)
    requires m <= n
    ensures b * m <= b * n
  {
    assert b * n == b * m + b * (n - m);
  }

  /** The remainder is determined by any quotient-and-remainder split. */
  lemma ModOf(x: int, size: nat, q: int, r: int)
    requires size > 0 && 0 <= r < size && x == size * q + r
    ensures x % size == r
  {
    var q', r' := x / size, x % size;
    assert size * (q' - q) == r - r';
    MulGap(size, q' - q);
  }

  /** A nonzero multiple of `size` is at least `size` away from zero. */
  lemma MulGap(size: nat, d: int)
    ensures d >= 1 ==> size * d >= size
    ensures d <= -1 ==> size * d + size <= 0
  {
    if d >= 1 {
      assert size * d == size * (d - 1) + size;
    } else if d <= -1 {
      assert size * d == size * (d + 1) - size;
    }
  }

  /**
   * The reflected CRC-32 (polynomial 0xEDB88320) fed the low `bits` bits of
   * `b`, least significant first: each step shifts the register right and
   * folds in the polynomial when the bit leaving it differs from the data bit.
   */
  function CrcBits(c: bv32, b: nat, bits: nat): bv32
    decreases bits
  {
    if bits == 0 then c
    else
      var low: bv32 := if b % 2 == 1 then 1 else 0;
      CrcBits((c >> 1) ^ (0xEDB8_8320 & (0 - ((c ^ low) & 1))), b / 2, bits - 1)
  }

  /** The register after the first `n` bytes of `data`. */
  function CrcUpdate(c: bv32, data: seq<byte>, n: nat): bv32
    requires n <= |data|
  {
    if n == 0 then c else CrcBits(CrcUpdate(c, data, n - 1), data[n - 1] as nat, 8)
  }

  /**
   * The CRC-32 of IEEE 802.3 (`crc.crc32(...) & 0xffffffff`, read back as an
   * unsigned 32-bit value, which is what packing it with "<I" writes).
   */
  function Crc32(data: seq<byte>): (c: nat)
    ensures c < U32_LIMIT
  {
    Unsigned(CrcUpdate(0xFFFF_FFFF, data, |data|) ^ 0xFFFF_FFFF)
  }

  function Unsigned(x: bv32): (n: nat)
    ensures n < U32_LIMIT
  {
    x as nat
  }

  /** `String.fromCharCode` applied to each byte. */
  function Latin1(bs: seq<byte>): (s: string)
    ensures |s| == |bs| && forall i :: 0 <= i < |bs| ==> s[i] as int == bs[i] as int
  {
    seq(|bs|, i requires 0 <= i < |bs| => bs[i] as int as char)
  }
}

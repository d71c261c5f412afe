/**
 * Unsigned machine integers and the little-endian field reads that every
 * header decoder is built from (BinaryPrimitives.ReadUInt16/32/64LittleEndian).
 * C# `unchecked` arithmetic on `uint` and `ushort` wraps; `Wrap32`/`Wrap16`
 * write that wrap-around out explicitly.
 */
module Bytes {

  type uint8 = x: int | 0 <= x < 0x100
  type uint16 = x: int | 0 <= x < 0x1_0000
  type uint32 = x: int | 0 <= x < 0x1_0000_0000
  type uint64 = x: int | 0 <= x < 0x1_0000_0000_0000_0000

  const TWO_TO_16: int := 0x1_0000
  const TWO_TO_31: int := 0x8000_0000
  const TWO_TO_32: int := 0x1_0000_0000
  const TWO_TO_63: int := 0x8000_0000_0000_0000

  /** `uint` arithmetic modulo 2^32 (Dafny's `%` is never negative). */
  function Wrap32(x: int): uint32 { x % TWO_TO_32 }

  /** `ushort` arithmetic modulo 2^16. */
  function Wrap16(x: int): uint16 { x % TWO_TO_16 }

  /** `(int)x`: a 32-bit value read as two's complement. */
  function Signed32(x: uint32): (r: int)
    ensures -TWO_TO_31 <= r < TWO_TO_31
    ensures Wrap32(r) == x
    ensures r >= 0 <==> x < TWO_TO_31
  {
    if x < TWO_TO_31 then x else x - TWO_TO_32
  }

  /** A value read as non-negative is itself. */
  lemma Signed32OfNonNegative(x: uint32)
    requires Signed32(x) >= 0
    ensures Signed32(x) == x
  {
  }

  /** Bit 31 of a 32-bit value (`x & 0x80000000`). */
  predicate HighBit32(x: uint32) { x >= TWO_TO_31 }

  /** The low 31 bits (`x & 0x7FFFFFFF`). */
  function Low31(x: uint32): uint32 { x % TWO_TO_31 }

  /** Bit 63 of a 64-bit value. */
  predicate HighBit64(x: uint64) { x >= TWO_TO_63 }

  /** Whether bit `k` of `x` is set (`(x & (1 << k)) != 0`). */
  predicate BitSet(x: nat, k: nat) { (x / Pow2(k)) % 2 == 1 }

  function Pow2(k: nat): (r: nat)
    ensures r >= 1
  {
    if k == 0 then 1 else 2 * Pow2(k - 1)
  }

  /** Shifting by `a + b` is shifting by `a`, then by `b`. */
  lemma {:induction false} Pow2Add(a: nat, b: nat)
    ensures Pow2(a + b) == Pow2(a) * Pow2(b)
  {
    if b > 0 {
      Pow2Add(a, b - 1);
      assert Pow2(a + b) == 2 * Pow2(a + b - 1);
    }
  }

  /** The powers the model writes as constants. */
  lemma Pow2Widths()
    ensures Pow2(16) == TWO_TO_16 && Pow2(31) == TWO_TO_31 && Pow2(32) == TWO_TO_32 && Pow2(63) == TWO_TO_63
  {
    assert Pow2(8) == 0x100;
    Pow2Add(8, 8);
    Pow2Add(16, 16);
    assert Pow2(32) == 2 * Pow2(31);
    Pow2Add(31, 32);
  }

  function LE16(s: seq<uint8>, off: nat): uint16
    requires off + 2 <= |s|
  {
    s[off] as int + 0x100 * s[off + 1] as int
  }

  function LE32(s: seq<uint8>, off: nat): uint32
    requires off + 4 <= |s|
  {
    LE16(s, off) as int + TWO_TO_16 * LE16(s, off + 2) as int
  }

  function LE64(s: seq<uint8>, off: nat): uint64
    requires off + 8 <= |s|
  {
    LE32(s, off) as int + TWO_TO_32 * LE32(s, off + 4) as int
  }

  /** Little-endian encodings, the inverses of the reads above. */
  function Bytes16(x: uint16): (r: seq<uint8>)
    ensures |r| == 2
  {
    [x % 0x100, x / 0x100]
  }

  function Bytes32(x: uint32): (r: seq<uint8>)
    ensures |r| == 4
  {
    Bytes16(x % TWO_TO_16) + Bytes16(x / TWO_TO_16)
  }

  function Bytes64(x: uint64): (r: seq<uint8>)
    ensures |r| == 8
  {
    Bytes32(x % TWO_TO_32) + Bytes32(x / TWO_TO_32)
  }

  lemma LE16Bytes(x: uint16, pre: seq<uint8>, post: seq<uint8>)
    ensures LE16(pre + Bytes16(x) + post, |pre|) == x
  {
  }

  lemma LE32Bytes(x: uint32, pre: seq<uint8>, post: seq<uint8>)
    ensures LE32(pre + Bytes32(x) + post, |pre|) == x
  {
  }

  lemma LE64Bytes(x: uint64, pre: seq<uint8>, post: seq<uint8>)
    ensures LE64(pre + Bytes64(x) + post, |pre|) == x
  {
  }

  /** A read depends only on the bytes it covers. */
  lemma LE32Local(s: seq<uint8>, t: seq<uint8>, off: nat)
    requires off + 4 <= |s| && off + 4 <= |t|
    requires s[off..off + 4] == t[off..off + 4]
    ensures LE32(s, off) == LE32(t, off)
  {
    assert s[off] == s[off..off + 4][0] == t[off];
    assert s[off + 1] == s[off..off + 4][1] == t[off + 1];
    assert s[off + 2] == s[off..off + 4][2] == t[off + 2];
    assert s[off + 3] == s[off..off + 4][3] == t[off + 3];
  }

  /** A read inside a prefix is the read of the prefix. */
  lemma LE16Prefix(p: seq<uint8>, q: seq<uint8>, k: nat)
    requires k + 2 <= |p|
    ensures LE16(p + q, k) == LE16(p, k)
  {
    assert (p + q)[k] == p[k];
    assert (p + q)[k + 1] == p[k + 1];
  }

  lemma LE32Prefix(p: seq<uint8>, q: seq<uint8>, k: nat)
    requires k + 4 <= |p|
    ensures LE32(p + q, k) == LE32(p, k)
  {
    LE16Prefix(p, q, k);
    LE16Prefix(p, q, k + 2);
  }

  /** A read past a prefix is the read of what follows it. */
  lemma LE16Shift(p: seq<uint8>, q: seq<uint8>, k: nat)
    requires k + 2 <= |q|
    ensures LE16(p + q, |p| + k) == LE16(q, k)
  {
    assert (p + q)[|p| + k] == q[k];
    assert (p + q)[|p| + k + 1] == q[k + 1];
  }

  lemma LE32Shift(p: seq<uint8>, q: seq<uint8>, k: nat)
    requires k + 4 <= |q|
    ensures LE32(p + q, |p| + k) == LE32(q, k)
  {
    LE16Shift(p, q, k);
    LE16Shift(p, q, k + 2);
  }

  /** A read inside the middle piece of a buffer is the read of that piece. */
  lemma LE16In(p: seq<uint8>, x: seq<uint8>, q: seq<uint8>, k: nat)
    requires k + 2 <= |x|
    ensures LE16(p + x + q, |p| + k) == LE16(x, k)
  {
    LE16Prefix(p + x, q, |p| + k);
    LE16Shift(p, x, k);
  }

  lemma LE32In(p: seq<uint8>, x: seq<uint8>, q: seq<uint8>, k: nat)
    requires k + 4 <= |x|
    ensures LE32(p + x + q, |p| + k) == LE32(x, k)
  {
    LE16In(p, x, q, k);
    LE16In(p, x, q, k + 2);
  }

  lemma LE64In(p: seq<uint8>, x: seq<uint8>, q: seq<uint8>, k: nat)
    requires k + 8 <= |x|
    ensures LE64(p + x + q, |p| + k) == LE64(x, k)
  {
    LE32In(p, x, q, k);
    LE32In(p, x, q, k + 4);
  }

  /** A read of bytes that hold an encoding gives the encoded value. */
  lemma LE16At(s: seq<uint8>, off: nat, x: uint16)
    requires off + 2 <= |s| && s[off..off + 2] == Bytes16(x)
    ensures LE16(s, off) == x
  {
    LE16Bytes(x, s[..off], s[off + 2..]);
    assert s == s[..off] + s[off..off + 2] + s[off + 2..];
  }

  /** A two- or four-byte encoding read from its own start gives the value back. */
  lemma LE16Self(x: uint16)
    ensures LE16(Bytes16(x), 0) == x
  {
    LE16Bytes(x, [], []);
    assert [] + Bytes16(x) + [] == Bytes16(x);
  }

  lemma LE32Self(x: uint32)
    ensures LE32(Bytes32(x), 0) == x
  {
    LE32Bytes(x, [], []);
    assert [] + Bytes32(x) + [] == Bytes32(x);
  }

  lemma LE32At(s: seq<uint8>, off: nat, x: uint32)
    requires off + 4 <= |s| && s[off..off + 4] == Bytes32(x)
    ensures LE32(s, off) == x
  {
    LE32Bytes(x, s[..off], s[off + 4..]);
    assert s == s[..off] + s[off..off + 4] + s[off + 4..];
  }

  lemma LE64At(s: seq<uint8>, off: nat, x: uint64)
    requires off + 8 <= |s| && s[off..off + 8] == Bytes64(x)
    ensures LE64(s, off) == x
  {
    LE64Bytes(x, s[..off], s[off + 8..]);
    assert s == s[..off] + s[off..off + 8] + s[off + 8..];
  }
}

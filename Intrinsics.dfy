/** The x86-64 vector intrinsics the CRC-32 folding engine uses, as pure functions
    over a 128-bit register held as 16 bytes, byte 0 least significant (the memory
    layout of an `__m128i`). Nothing here models timing or the silicon itself. */
module Intrinsics {

  /** An `__m128i`. */
  type Reg = r: seq<bv8> | |r| == 16 witness seq(16, _ => 0 as bv8)

  const Zero: Reg := seq(16, _ => 0 as bv8)

  /** Four bytes read as a little-endian `u32`, `b0` least significant. */
  function Pack4(b0: bv8, b1: bv8, b2: bv8, b3: bv8): bv32
  {
    (b0 as bv32) | ((b1 as bv32) << 8) | ((b2 as bv32) << 16) | ((b3 as bv32) << 24)
  }

  /** The 32-bit little-endian element `i` of a register (what `_mm_extract_epi32`
      returns, reinterpreted as `u32`). */
  function Dword(r: Reg, i: nat): bv32
    requires i < 4
  {
    Pack4(r[4 * i], r[4 * i + 1], r[4 * i + 2], r[4 * i + 3])
  }

  /** The byte of `w` at little-endian position `k` (0..3). */
  function ByteOf32(w: bv32, k: nat): bv8
    requires k < 4
  {
    if k == 0 then (w & 0xFF) as bv8
    else if k == 1 then ((w >> 8) & 0xFF) as bv8
    else if k == 2 then ((w >> 16) & 0xFF) as bv8
    else (w >> 24) as bv8
  }

  /** `reg([u32; 4])`: a transmute, so element 0 fills bytes 0..3, least significant first. */
  function RegOf(w: seq<bv32>): Reg
    requires |w| == 4
  {
    [ByteOf32(w[0], 0), ByteOf32(w[0], 1), ByteOf32(w[0], 2), ByteOf32(w[0], 3),
     ByteOf32(w[1], 0), ByteOf32(w[1], 1), ByteOf32(w[1], 2), ByteOf32(w[1], 3),
     ByteOf32(w[2], 0), ByteOf32(w[2], 1), ByteOf32(w[2], 2), ByteOf32(w[2], 3),
     ByteOf32(w[3], 0), ByteOf32(w[3], 1), ByteOf32(w[3], 2), ByteOf32(w[3], 3)]
  }

  // ---------------------------------------------------------------------------
  // Carry-less multiplication, on polynomials over GF(2) given by their coefficient
  // sequences (index i holds the coefficient of x^i; bit i of a little-endian value)

  /** Bit `k` of a byte. */
  function BitOf(b: bv8, k: nat): bool
    requires k < 8
  {
    if k == 0 then b & 0x01 != 0 else if k == 1 then b & 0x02 != 0
    else if k == 2 then b & 0x04 != 0 else if k == 3 then b & 0x08 != 0
    else if k == 4 then b & 0x10 != 0 else if k == 5 then b & 0x20 != 0
    else if k == 6 then b & 0x40 != 0 else b & 0x80 != 0
  }

  /** The 64 coefficients of the little-endian half `q` of a register (0 = low, 1 = high). */
  function QwordBits(r: Reg, q: nat): (p: seq<bool>)
    requires q < 2
    ensures |p| == 64
  {
    seq(64, i requires 0 <= i < 64 => BitOf(r[8 * q + i / 8], i % 8))
  }

  /** The zero polynomial, `n` coefficients long. */
  function NoBits(n: nat): (p: seq<bool>)
    ensures |p| == n
  {
    seq(n, _ => false)
  }

  /** Polynomial addition: coefficient-wise XOR. */
  function XorBits(a: seq<bool>, b: seq<bool>): (c: seq<bool>)
    requires |a| == |b|
    ensures |c| == |a|
  {
    seq(|a|, i requires 0 <= i < |a| => a[i] != b[i])
  }

  /** `b` multiplied by the constant `c` (0 or 1). */
  function Scale(c: bool, b: seq<bool>): (r: seq<bool>)
    ensures |r| == |b|
  {
    seq(|b|, i requires 0 <= i < |b| => c && b[i])
  }

  /** Carry-less product of `a` and `b`: `a[0] * b` plus `x * (a[1..] * b)`.
      The product has `|a| + |b|` coefficients, the top one always zero. */
  function ClmulPoly(a: seq<bool>, b: seq<bool>): (c: seq<bool>)
    ensures |c| == |a| + |b|
    decreases |a|
  {
    if a == [] then NoBits(|b|)
    else XorBits(Scale(a[0], b) + NoBits(|a|), [false] + ClmulPoly(a[1..], b))
  }

  /** Eight coefficients packed into a byte, coefficient 0 least significant. */
  function ByteOfBits(p: seq<bool>): bv8
    requires |p| == 8
  {
    (if p[0] then 0x01 else 0) | (if p[1] then 0x02 else 0) | (if p[2] then 0x04 else 0) | (if p[3] then 0x08 else 0)
    | (if p[4] then 0x10 else 0) | (if p[5] then 0x20 else 0) | (if p[6] then 0x40 else 0) | (if p[7] then 0x80 else 0)
  }

  /** A 128-coefficient polynomial laid out as a register. */
  function RegOfBits(p: seq<bool>): Reg
    requires |p| == 128
  {
    seq(16, j requires 0 <= j < 16 => ByteOfBits(p[8 * j..8 * j + 8]))
  }

  /** `_mm_clmulepi64_si128(a, b, imm)`: bit 0 of `imm` picks the half of `a`,
      bit 4 the half of `b`. */
  function ClmulEpi64(a: Reg, b: Reg, imm: bv8): Reg
  {
    RegOfBits(ClmulPoly(QwordBits(a, if imm & 0x01 == 0 then 0 else 1), QwordBits(b, if imm & 0x10 == 0 then 0 else 1)))
  }

  /** `_mm_shuffle_epi8(a, ctl)` (pshufb): a control byte with its high bit set
      yields zero, otherwise it selects byte `ctl & 0xF` of `a`. */
  function Shuffle(a: Reg, ctl: Reg): Reg
  {
    seq(16, j requires 0 <= j < 16 => if ctl[j] & 0x80 != 0 then 0 else a[(ctl[j] & 0x0F) as int])
  }

  /** `_mm_slli_si128(a, k)`: shift left by `k` bytes, zeros shifted in. */
  function Slli(a: Reg, k: nat): Reg
  {
    seq(16, j requires 0 <= j < 16 => if j < k then 0 else a[j - k])
  }

  /** `_mm_srli_si128(a, k)`: shift right by `k` bytes, zeros shifted in. */
  function Srli(a: Reg, k: nat): Reg
  {
    seq(16, j requires 0 <= j < 16 => if j + k < 16 then a[j + k] else 0)
  }

  /** `_mm_and_si128`. */
  function And(a: Reg, b: Reg): Reg
  {
    seq(16, j requires 0 <= j < 16 => a[j] & b[j])
  }

  /** `_mm_or_si128`. */
  function Or(a: Reg, b: Reg): Reg
  {
    seq(16, j requires 0 <= j < 16 => a[j] | b[j])
  }

  /** `_mm_xor_si128`. */
  function Xor(a: Reg, b: Reg): Reg
  {
    seq(16, j requires 0 <= j < 16 => a[j] ^ b[j])
  }

  // ---------------------------------------------------------------------------
  // Properties of the register model

  /** The four immediates the engine uses: `0x00` multiplies the low halves, `0x11`
      the high halves, `0x01` the high half of `a` by the low half of `b`, and `0x10`
      the low half of `a` by the high half of `b`. */
  lemma ClmulImmediates(a: Reg, b: Reg)
    ensures ClmulEpi64(a, b, 0x00) == RegOfBits(ClmulPoly(QwordBits(a, 0), QwordBits(b, 0)))
    ensures ClmulEpi64(a, b, 0x11) == RegOfBits(ClmulPoly(QwordBits(a, 1), QwordBits(b, 1)))
    ensures ClmulEpi64(a, b, 0x01) == RegOfBits(ClmulPoly(QwordBits(a, 1), QwordBits(b, 0)))
    ensures ClmulEpi64(a, b, 0x10) == RegOfBits(ClmulPoly(QwordBits(a, 0), QwordBits(b, 1)))
  {
    assert 0x00 as bv8 & 0x01 == 0 && 0x00 as bv8 & 0x10 == 0;
    assert 0x11 as bv8 & 0x01 != 0 && 0x11 as bv8 & 0x10 != 0;
    assert 0x01 as bv8 & 0x01 != 0 && 0x01 as bv8 & 0x10 == 0;
    assert 0x10 as bv8 & 0x01 == 0 && 0x10 as bv8 & 0x10 != 0;
  }

  /** `reg` round-trips: element `i` of the array reads back as dword `i`. */
  lemma RegOfDwords(w: seq<bv32>)
    requires |w| == 4
    ensures Dword(RegOf(w), 0) == w[0] && Dword(RegOf(w), 1) == w[1]
    ensures Dword(RegOf(w), 2) == w[2] && Dword(RegOf(w), 3) == w[3]
  {
    hide *;
    RegOfDword(w, 0);
    RegOfDword(w, 1);
    RegOfDword(w, 2);
    RegOfDword(w, 3);
  }

  lemma RegOfDword(w: seq<bv32>, i: nat)
    requires |w| == 4 && i < 4
    ensures Dword(RegOf(w), i) == w[i]
  {
    var r := RegOf(w);
    assert Dword(r, i) == Pack4(r[4 * i], r[4 * i + 1], r[4 * i + 2], r[4 * i + 3]);
    hide *;
    RegOfBytes(w, i);
    ByteOf32Assemble(w[i]);
  }

  lemma RegOfBytes(w: seq<bv32>, i: nat)
    requires |w| == 4 && i < 4
    ensures var r := RegOf(w);
      r[4 * i] == ByteOf32(w[i], 0) && r[4 * i + 1] == ByteOf32(w[i], 1) &&
      r[4 * i + 2] == ByteOf32(w[i], 2) && r[4 * i + 3] == ByteOf32(w[i], 3)
  {
    hide ByteOf32;
    if i == 0 {
    } else if i == 1 {
    } else if i == 2 {
    } else {
    }
  }

  lemma ByteOf32Assemble(x: bv32)
    ensures Pack4(ByteOf32(x, 0), ByteOf32(x, 1), ByteOf32(x, 2), ByteOf32(x, 3)) == x
  {
  }

  lemma Dword2Bytes(r: Reg)
    ensures Dword(r, 2) == Pack4(r[8], r[9], r[10], r[11])
  {
  }
}

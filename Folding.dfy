/** The pure semantics of the accumulator in `crc32_pclmulqdq.rs`: the four 128-bit
    lanes, the fold constant, one fold step, `fold_step::<N>`, the shuffle table and
    `partial_fold`, `progress::<N>`, a block-by-block reference for the whole of
    `fold_help`, and the reduction done by `finish`. The class in `Pclmulqdq` is
    proved against these functions. */
module Folding {
  import opened Intrinsics

  datatype Option<T> = None | Some(value: T)

  /** The accumulator state `[__m128i; 4]`, lane 0 first. */
  type Lanes = l: seq<Reg> | |l| == 4 witness [Zero, Zero, Zero, Zero]

  /** `CRC32_INITIAL_VALUE` (line 8): the seed value that means "no seed". */
  const Crc32InitialValue: bv32 := 0

  /** `XMM_FOLD4` (line 84): advances a lane past four 16-byte blocks. */
  const XmmFold4: Reg := RegOf([0xc6e41596, 0x00000001, 0x54442bd4, 0x00000001])

  /** The state `Accumulator::new` builds (lines 86-93). */
  const InitialLanes: Lanes := [RegOf([0x9db42487, 0, 0, 0]), Zero, Zero, Zero]

  // ---------------------------------------------------------------------------
  // One fold step

  /** `Accumulator::step` (lines 190-196). */
  function Step(x: Reg): Reg
  {
    Xor(ClmulEpi64(x, XmmFold4, 0x01), ClmulEpi64(x, XmmFold4, 0x10))
  }

  /** `step(x)` multiplies the high half of `x` by the low half of `XMM_FOLD4` and the
      low half of `x` by its high half, and adds the two products. */
  lemma StepHalves(x: Reg)
    ensures Step(x) == Xor(RegOfBits(ClmulPoly(QwordBits(x, 1), QwordBits(XmmFold4, 0))),
                           RegOfBits(ClmulPoly(QwordBits(x, 0), QwordBits(XmmFold4, 1))))
  {
    ClmulImmediates(x, XmmFold4);
  }

  /** The lanes `fold_step::<N>` (lines 183-188) computes: lane `i` takes old lane
      `i + N` when that exists, and otherwise the old lane `i + N - 4` advanced by `Step`. */
  function FoldStepLanes(l: Lanes, n: nat): Lanes
    requires n <= 4
  {
    [FoldStepLane(l, n, 0), FoldStepLane(l, n, 1), FoldStepLane(l, n, 2), FoldStepLane(l, n, 3)]
  }

  /** Lane `i` after `fold_step::<N>`: the closure at lines 184-187. */
  function FoldStepLane(l: Lanes, n: nat, i: nat): Reg
    requires n <= 4 && i < 4
  {
    if i + n < 4 then l[i + n] else Step(l[i + n - 4])
  }

  /** `n` successive `fold_step::<1>`. */
  function FoldStepOnes(l: Lanes, n: nat): Lanes
    decreases n
  {
    if n == 0 then l else FoldStepOnes(FoldStepLanes(l, 1), n - 1)
  }

  lemma FoldStepPeel(l: Lanes, n: nat)
    requires n < 4
    ensures FoldStepLanes(l, n + 1) == FoldStepLanes(FoldStepLanes(l, 1), n)
  {
    var m := FoldStepLanes(l, 1);
    forall i | 0 <= i < 4
      ensures FoldStepLanes(l, n + 1)[i] == FoldStepLanes(m, n)[i]
    {
    }
  }

  /** Batching is only a throughput device: `fold_step::<N>` is N `fold_step::<1>`. */
  lemma {:induction false} FoldStepIsRepeatedSingle(l: Lanes, n: nat)
    requires n <= 4
    decreases n
    ensures FoldStepLanes(l, n) == FoldStepOnes(l, n)
  {
    if n == 0 {
      assert FoldStepLanes(l, 0) == l;
    } else {
      FoldStepPeel(l, n - 1);
      FoldStepIsRepeatedSingle(FoldStepLanes(l, 1), n - 1);
    }
  }

  /** The reference single-block fold: lanes 1..3 move down one place and the new
      lane 3 is old lane 0 advanced by `Step`, XORed with the incoming block. */
  function FoldBlock(l: Lanes, block: Reg): Lanes
  {
    [l[1], l[2], l[3], Xor(Step(l[0]), block)]
  }

  // ---------------------------------------------------------------------------
  // The accumulator as a 64-byte window

  /** The four lanes read as one 64-byte window, lane 0 first. */
  function Window(l: Lanes): (w: seq<bv8>)
    ensures |w| == 64
  {
    var w0: seq<bv8> := l[0];
    w0 + l[1] + l[2] + l[3]
  }

  /** Sliding the window by `len` bytes: the first `len` bytes leave, the first `len`
      bytes of `data` enter at the top, and the bytes that left come back, advanced
      by `Step`, XORed into the top lane. */
  function Slide(l: Lanes, data: seq<bv8>, len: nat): (w: seq<bv8>)
    requires 1 <= len <= 16 && len <= |data|
    ensures |w| == 64
  {
    SlideWith(Window(l), data, len, Step(Slli(l[0], 16 - len)))
  }

  /** The window `w` moved down by `len` bytes with `data` entering at the top and
      `back` XORed into the top 16 bytes. */
  function SlideWith(w: seq<bv8>, data: seq<bv8>, len: nat, back: Reg): (r: seq<bv8>)
    requires |w| == 64 && 1 <= len <= 16 && len <= |data|
    ensures |r| == 64
  {
    seq(64, j requires 0 <= j < 64 =>
      (if j + len < 64 then w[j + len] else data[j + len - 64]) ^ (if j < 48 then 0 else back[j - 48]))
  }

  /** A whole-block fold slides the window by 16 bytes. */
  lemma FoldBlockSlides(l: Lanes, block: Reg)
    ensures Window(FoldBlock(l, block)) == Slide(l, block, 16)
  {
    assert Slli(l[0], 0) == l[0];
    var w := Window(FoldBlock(l, block));
    var s := Slide(l, block, 16);
    forall j | 0 <= j < 64
      ensures w[j] == s[j]
    {
      if j < 16 {
        assert w[j] == l[1][j];
      } else if j < 32 {
        assert w[j] == l[2][j - 16];
      } else if j < 48 {
        assert w[j] == l[3][j - 32];
      } else {
        assert w[j] == Xor(Step(l[0]), block)[j - 48];
      }
    }
  }

  // ---------------------------------------------------------------------------
  // The shuffle table and `partial_fold`

  /** `PSHUFB_SHF_TABLE` (lines 199-215). */
  const PshufbShfTable: seq<Reg> := [
    RegOf([0x84838281, 0x88878685, 0x8c8b8a89, 0x008f8e8d]),
    RegOf([0x85848382, 0x89888786, 0x8d8c8b8a, 0x01008f8e]),
    RegOf([0x86858483, 0x8a898887, 0x8e8d8c8b, 0x0201008f]),
    RegOf([0x87868584, 0x8b8a8988, 0x8f8e8d8c, 0x03020100]),
    RegOf([0x88878685, 0x8c8b8a89, 0x008f8e8d, 0x04030201]),
    RegOf([0x89888786, 0x8d8c8b8a, 0x01008f8e, 0x05040302]),
    RegOf([0x8a898887, 0x8e8d8c8b, 0x0201008f, 0x06050403]),
    RegOf([0x8b8a8988, 0x8f8e8d8c, 0x03020100, 0x07060504]),
    RegOf([0x8c8b8a89, 0x008f8e8d, 0x04030201, 0x08070605]),
    RegOf([0x8d8c8b8a, 0x01008f8e, 0x05040302, 0x09080706]),
    RegOf([0x8e8d8c8b, 0x0201008f, 0x06050403, 0x0a090807]),
    RegOf([0x8f8e8d8c, 0x03020100, 0x07060504, 0x0b0a0908]),
    RegOf([0x008f8e8d, 0x04030201, 0x08070605, 0x0c0b0a09]),
    RegOf([0x01008f8e, 0x05040302, 0x09080706, 0x0d0c0b0a]),
    RegOf([0x0201008f, 0x06050403, 0x0a090807, 0x0e0d0c0b])
  ]

  /** `reg([0x80808080u32; 4])` (line 218): flips the high bit of every control byte. */
  const HighBits: Reg := RegOf([0x80808080, 0x80808080, 0x80808080, 0x80808080])

  const Nibble: seq<bv8> := [0x0, 0x1, 0x2, 0x3, 0x4, 0x5, 0x6, 0x7, 0x8, 0x9, 0xa, 0xb, 0xc, 0xd, 0xe, 0xf]

  /** The control byte that entry `len - 1` of the table holds at position `j`:
      "take byte `j + len - 16`" in the top `len` positions, "zero" (high bit set) below. */
  function ControlByte(len: nat, j: nat): bv8
    requires 1 <= len <= 15 && j < 16
  {
    if j < 16 - len then 0x80 | Nibble[j + len] else Nibble[j + len - 16]
  }

  function ControlReg(len: nat): Reg
    requires 1 <= len <= 15
  {
    seq(16, j requires 0 <= j < 16 => ControlByte(len, j))
  }

  /** Entry `len - 1` of `PSHUFB_SHF_TABLE` is the control register described above. */
  lemma TableEntry(len: nat)
    requires 1 <= len <= 15
    ensures PshufbShfTable[len - 1] == ControlReg(len)
  {
    if len == 1 { TableEntry1(); }
    else if len == 2 { TableEntry2(); }
    else if len == 3 { TableEntry3(); }
    else if len == 4 { TableEntry4(); }
    else if len == 5 { TableEntry5(); }
    else if len == 6 { TableEntry6(); }
    else if len == 7 { TableEntry7(); }
    else if len == 8 { TableEntry8(); }
    else if len == 9 { TableEntry9(); }
    else if len == 10 { TableEntry10(); }
    else if len == 11 { TableEntry11(); }
    else if len == 12 { TableEntry12(); }
    else if len == 13 { TableEntry13(); }
    else if len == 14 { TableEntry14(); }
    else { TableEntry15(); }
  }

  lemma TableEntry1()
    ensures PshufbShfTable[0] == ControlReg(1)
  {
    var b: seq<bv8> := [0x81, 0x82, 0x83, 0x84, 0x85, 0x86, 0x87, 0x88, 0x89, 0x8a, 0x8b, 0x8c, 0x8d, 0x8e, 0x8f, 0x0];
    assert PshufbShfTable[0] == b;
    assert ControlReg(1) == b;
  }

  lemma TableEntry2()
    ensures PshufbShfTable[1] == ControlReg(2)
  {
    var b: seq<bv8> := [0x82, 0x83, 0x84, 0x85, 0x86, 0x87, 0x88, 0x89, 0x8a, 0x8b, 0x8c, 0x8d, 0x8e, 0x8f, 0x0, 0x1];
    assert PshufbShfTable[1] == b;
    assert ControlReg(2) == b;
  }

  lemma TableEntry3()
    ensures PshufbShfTable[2] == ControlReg(3)
  {
    var b: seq<bv8> := [0x83, 0x84, 0x85, 0x86, 0x87, 0x88, 0x89, 0x8a, 0x8b, 0x8c, 0x8d, 0x8e, 0x8f, 0x0, 0x1, 0x2];
    assert PshufbShfTable[2] == b;
    assert ControlReg(3) == b;
  }

  lemma TableEntry4()
    ensures PshufbShfTable[3] == ControlReg(4)
  {
    var b: seq<bv8> := [0x84, 0x85, 0x86, 0x87, 0x88, 0x89, 0x8a, 0x8b, 0x8c, 0x8d, 0x8e, 0x8f, 0x0, 0x1, 0x2, 0x3];
    assert PshufbShfTable[3] == b;
    assert ControlReg(4) == b;
  }

  lemma TableEntry5()
    ensures PshufbShfTable[4] == ControlReg(5)
  {
    var b: seq<bv8> := [0x85, 0x86, 0x87, 0x88, 0x89, 0x8a, 0x8b, 0x8c, 0x8d, 0x8e, 0x8f, 0x0, 0x1, 0x2, 0x3, 0x4];
    assert PshufbShfTable[4] == b;
    assert ControlReg(5) == b;
  }

  lemma TableEntry6()
    ensures PshufbShfTable[5] == ControlReg(6)
  {
    var b: seq<bv8> := [0x86, 0x87, 0x88, 0x89, 0x8a, 0x8b, 0x8c, 0x8d, 0x8e, 0x8f, 0x0, 0x1, 0x2, 0x3, 0x4, 0x5];
    assert PshufbShfTable[5] == b;
    assert ControlReg(6) == b;
  }

  lemma TableEntry7()
    ensures PshufbShfTable[6] == ControlReg(7)
  {
    var b: seq<bv8> := [0x87, 0x88, 0x89, 0x8a, 0x8b, 0x8c, 0x8d, 0x8e, 0x8f, 0x0, 0x1, 0x2, 0x3, 0x4, 0x5, 0x6];
    assert PshufbShfTable[6] == b;
    assert ControlReg(7) == b;
  }

  lemma TableEntry8()
    ensures PshufbShfTable[7] == ControlReg(8)
  {
    var b: seq<bv8> := [0x88, 0x89, 0x8a, 0x8b, 0x8c, 0x8d, 0x8e, 0x8f, 0x0, 0x1, 0x2, 0x3, 0x4, 0x5, 0x6, 0x7];
    assert PshufbShfTable[7] == b;
    assert ControlReg(8) == b;
  }

  lemma TableEntry9()
    ensures PshufbShfTable[8] == ControlReg(9)
  {
    var b: seq<bv8> := [0x89, 0x8a, 0x8b, 0x8c, 0x8d, 0x8e, 0x8f, 0x0, 0x1, 0x2, 0x3, 0x4, 0x5, 0x6, 0x7, 0x8];
    assert PshufbShfTable[8] == b;
    assert ControlReg(9) == b;
  }

  lemma TableEntry10()
    ensures PshufbShfTable[9] == ControlReg(10)
  {
    var b: seq<bv8> := [0x8a, 0x8b, 0x8c, 0x8d, 0x8e, 0x8f, 0x0, 0x1, 0x2, 0x3, 0x4, 0x5, 0x6, 0x7, 0x8, 0x9];
    assert PshufbShfTable[9] == b;
    assert ControlReg(10) == b;
  }

  lemma TableEntry11()
    ensures PshufbShfTable[10] == ControlReg(11)
  {
    var b: seq<bv8> := [0x8b, 0x8c, 0x8d, 0x8e, 0x8f, 0x0, 0x1, 0x2, 0x3, 0x4, 0x5, 0x6, 0x7, 0x8, 0x9, 0xa];
    assert PshufbShfTable[10] == b;
    assert ControlReg(11) == b;
  }

  lemma TableEntry12()
    ensures PshufbShfTable[11] == ControlReg(12)
  {
    var b: seq<bv8> := [0x8c, 0x8d, 0x8e, 0x8f, 0x0, 0x1, 0x2, 0x3, 0x4, 0x5, 0x6, 0x7, 0x8, 0x9, 0xa, 0xb];
    assert PshufbShfTable[11] == b;
    assert ControlReg(12) == b;
  }

  lemma TableEntry13()
    ensures PshufbShfTable[12] == ControlReg(13)
  {
    var b: seq<bv8> := [0x8d, 0x8e, 0x8f, 0x0, 0x1, 0x2, 0x3, 0x4, 0x5, 0x6, 0x7, 0x8, 0x9, 0xa, 0xb, 0xc];
    assert PshufbShfTable[12] == b;
    assert ControlReg(13) == b;
  }

  lemma TableEntry14()
    ensures PshufbShfTable[13] == ControlReg(14)
  {
    var b: seq<bv8> := [0x8e, 0x8f, 0x0, 0x1, 0x2, 0x3, 0x4, 0x5, 0x6, 0x7, 0x8, 0x9, 0xa, 0xb, 0xc, 0xd];
    assert PshufbShfTable[13] == b;
    assert ControlReg(14) == b;
  }

  lemma TableEntry15()
    ensures PshufbShfTable[14] == ControlReg(15)
  {
    var b: seq<bv8> := [0x8f, 0x0, 0x1, 0x2, 0x3, 0x4, 0x5, 0x6, 0x7, 0x8, 0x9, 0xa, 0xb, 0xc, 0xd, 0xe];
    assert PshufbShfTable[14] == b;
    assert ControlReg(15) == b;
  }

  /** Used as a pshufb control, table entry `len - 1` shifts left by `16 - len` bytes. */
  lemma ShuffleIsShiftLeft(x: Reg, len: nat)
    requires 1 <= len <= 15
    ensures Shuffle(x, PshufbShfTable[len - 1]) == Slli(x, 16 - len)
  {
    TableEntry(len);
    ControlShiftsLeft(x, len);
  }

  lemma ControlShiftsLeft(x: Reg, len: nat)
    requires 1 <= len <= 15
    ensures Shuffle(x, ControlReg(len)) == Slli(x, 16 - len)
  {
    forall j | 0 <= j < 16
      ensures Shuffle(x, ControlReg(len))[j] == Slli(x, 16 - len)[j]
    {
      NibbleHighBitClear(if j < 16 - len then j + len else j + len - 16);
    }
  }

  /** With every high bit flipped (line 218) it shifts right by `len` bytes. */
  lemma ShuffleIsShiftRight(x: Reg, len: nat)
    requires 1 <= len <= 15
    ensures Shuffle(x, Xor(PshufbShfTable[len - 1], HighBits)) == Srli(x, len)
  {
    TableEntry(len);
    HighBitsBytes();
    FlippedControl(x, len);
  }

  lemma HighBitsBytes()
    ensures HighBits == seq(16, _ => 0x80 as bv8)
  {
  }

  lemma FlippedControl(x: Reg, len: nat)
    requires 1 <= len <= 15
    ensures Shuffle(x, Xor(ControlReg(len), seq(16, _ => 0x80 as bv8))) == Srli(x, len)
  {
    var c := Xor(ControlReg(len), seq(16, _ => 0x80 as bv8));
    forall j | 0 <= j < 16
      ensures c[j] == if j < 16 - len then Nibble[j + len] else 0x80 | Nibble[j + len - 16]
    {
      NibbleHighBitClear(if j < 16 - len then j + len else j + len - 16);
    }
  }

  lemma NibbleHighBitClear(k: nat)
    requires k < 16
    ensures Nibble[k] & 0x80 == 0 && (0x80 | Nibble[k]) ^ 0x80 == Nibble[k] && Nibble[k] ^ 0x80 == 0x80 | Nibble[k]
    ensures (0x80 | Nibble[k]) & 0x80 != 0 && (Nibble[k] & 0x0F) as int == k
  {
  }

  /** What `partial_fold` (lines 198-243) computes, in byte shifts: lanes 0..2 become
      `(lane_i >> len) | (lane_{i+1} << (16 - len))`, lane 3 takes the low `len` bytes of
      `part` on top of what is left of itself, XORed with `Step` of the bytes that left
      lane 0. `Accumulator.PartialFold` computes it with the shuffle table. */
  function PartialFoldLanes(l: Lanes, part: Reg, len: nat): Lanes
    requires 1 <= len <= 15
  {
    [Or(Srli(l[0], len), Slli(l[1], 16 - len)),
     Or(Srli(l[1], len), Slli(l[2], 16 - len)),
     Or(Srli(l[2], len), Slli(l[3], 16 - len)),
     Xor(Or(Srli(l[3], len), Slli(part, 16 - len)), Step(Slli(l[0], 16 - len)))]
  }

  /** A left shift by `k` bytes only sees the low `16 - k` bytes. */
  lemma SlliLowBytes(p: Reg, q: Reg, k: nat)
    requires k <= 16 && p[..16 - k] == q[..16 - k]
    ensures Slli(p, k) == Slli(q, k)
  {
    forall j | k <= j < 16
      ensures Slli(p, k)[j] == Slli(q, k)[j]
    {
      assert p[..16 - k][j - k] == q[..16 - k][j - k];
    }
  }

  /** Only the low `len` bytes of `xmm_crc_part` reach the result. */
  lemma PartialFoldLowBytesOnly(l: Lanes, p: Reg, q: Reg, len: nat)
    requires 1 <= len <= 15
    requires p[..len] == q[..len]
    ensures PartialFoldLanes(l, p, len) == PartialFoldLanes(l, q, len)
  {
    SlliLowBytes(p, q, 16 - len);
  }

  lemma WindowAt(l: Lanes, i: nat, k: nat)
    requires i < 4 && k < 16
    ensures Window(l)[16 * i + k] == l[i][k]
  {
  }

  /** A 64-byte sequence that agrees with the lanes block by block is their window. */
  lemma WindowOfLanes(r: Lanes, s: seq<bv8>)
    requires |s| == 64
    requires s[..16] == r[0] && s[16..32] == r[1] && s[32..48] == r[2] && s[48..] == r[3]
    ensures Window(r) == s
  {
    assert s == s[..16] + s[16..32] + s[32..48] + s[48..];
  }

  /** Lanes 0..2 of a partial fold are the slid window's bytes `16 i .. 16 i + 16`. */
  lemma SlideLowerLane(l: Lanes, data: seq<bv8>, len: nat, back: Reg, i: nat)
    requires 1 <= len <= 15 && len <= |data| && i < 3
    ensures SlideWith(Window(l), data, len, back)[16 * i..16 * i + 16]
         == Or(Srli(l[i], len), Slli(l[i + 1], 16 - len))
  {
    var s := SlideWith(Window(l), data, len, back);
    var r := Or(Srli(l[i], len), Slli(l[i + 1], 16 - len));
    forall k | 0 <= k < 16
      ensures s[16 * i + k] == r[k]
    {
      if k + len < 16 {
        WindowAt(l, i, k + len);
      } else {
        WindowAt(l, i + 1, k + len - 16);
      }
    }
  }

  /** Lane 3 of a partial fold is the top 16 bytes of the slid window. */
  lemma SlideTopLane(l: Lanes, part: Reg, len: nat, back: Reg)
    requires 1 <= len <= 15
    ensures SlideWith(Window(l), part, len, back)[48..] == Xor(Or(Srli(l[3], len), Slli(part, 16 - len)), back)
  {
    var s := SlideWith(Window(l), part, len, back);
    var r := Xor(Or(Srli(l[3], len), Slli(part, 16 - len)), back);
    forall k | 0 <= k < 16
      ensures s[48 + k] == r[k]
    {
      if k + len < 16 {
        WindowAt(l, 3, k + len);
      }
    }
  }

  /** A partial fold slides the 64-byte window by `len` bytes, exactly as a whole
      block fold slides it by 16. */
  lemma PartialFoldSlides(l: Lanes, part: Reg, len: nat)
    requires 1 <= len <= 15
    ensures Window(PartialFoldLanes(l, part, len)) == Slide(l, part, len)
  {
    var back := Step(Slli(l[0], 16 - len));
    SlideLowerLane(l, part, len, back, 0);
    SlideLowerLane(l, part, len, back, 1);
    SlideLowerLane(l, part, len, back, 2);
    SlideTopLane(l, part, len, back);
    WindowOfLanes(PartialFoldLanes(l, part, len), Slide(l, part, len));
  }

  // ---------------------------------------------------------------------------
  // `progress::<N, COPY>` and the block-by-block reference

  /** `reg([init_crc, 0, 0, 0])` (lines 264, 322). */
  function SeedReg(initCrc: bv32): Reg
  {
    RegOf([initCrc, 0, 0, 0])
  }

  /** A block as `progress` (lines 263-267) and the aligning load (lines 321-325) see
      it: a nonzero seed is XORed into its low dword. */
  function Seeded(block: Reg, initCrc: bv32): Reg
  {
    if initCrc != Crc32InitialValue then Xor(block, SeedReg(initCrc)) else block
  }

  /** The `n` aligned 16-byte blocks that start at `src[sp]` (lines 252-255 take them
      from `chunks_exact(16)`). */
  function LoadBlocks(src: seq<bv8>, sp: nat, n: nat): (r: seq<Reg>)
    requires sp + 16 * n <= |src|
    ensures |r| == n
  {
    seq(n, i requires 0 <= i < n => src[sp + 16 * i..sp + 16 * i + 16])
  }

  /** The lanes after `progress::<N, _>` (lines 246-280) with `input` the N loaded blocks
      and `initCrc` the seed it sees (zero under COPY, which does not read it). */
  function ProgressLanes(l: Lanes, input: seq<Reg>, initCrc: bv32): Lanes
    requires 1 <= |input| <= 4
  {
    var blocks := input[0 := Seeded(input[0], initCrc)];
    var f := FoldStepLanes(l, |input|);
    [ProgressLane(f, blocks, 0), ProgressLane(f, blocks, 1), ProgressLane(f, blocks, 2), ProgressLane(f, blocks, 3)]
  }

  /** Lane `i` after the XOR loop at lines 271-273. */
  function ProgressLane(f: Lanes, blocks: seq<Reg>, i: nat): Reg
    requires 1 <= |blocks| <= 4 && i < 4
  {
    if i < 4 - |blocks| then f[i] else Xor(f[i], blocks[i - (4 - |blocks|)])
  }

  /** `progress::<N, _>` taking its N blocks from `src[sp..]`. */
  function ProgressAt(l: Lanes, src: seq<bv8>, sp: nat, n: nat, initCrc: bv32): Lanes
    requires 1 <= n <= 4 && sp + 16 * n <= |src|
  {
    ProgressLanes(l, LoadBlocks(src, sp, n), initCrc)
  }

  /** The reference: fold `data` one 16-byte block at a time, the seed going into the
      first block only. Bytes after the last whole block are not folded. */
  function FoldBlocks(l: Lanes, data: seq<bv8>, initCrc: bv32): Lanes
    decreases |data|
  {
    if |data| < 16 then l
    else FoldBlocks(FoldBlock(l, Seeded(data[..16], initCrc)), data[16..], Crc32InitialValue)
  }

  lemma ProgressPeel(l: Lanes, input: seq<Reg>, initCrc: bv32)
    requires 2 <= |input| <= 4
    ensures ProgressLanes(l, input, initCrc)
         == ProgressLanes(FoldBlock(l, Seeded(input[0], initCrc)), input[1..], Crc32InitialValue)
  {
    var b0 := Seeded(input[0], initCrc);
    var m := FoldBlock(l, b0);
    var rest := input[1..];
    assert [Seeded(rest[0], Crc32InitialValue)] + rest[1..] == rest;
    var t := Xor(Step(l[0]), b0);
    var r := ProgressLanes(m, rest, Crc32InitialValue);
    if |input| == 2 {
      assert ProgressLanes(l, input, initCrc) == [l[2], l[3], t, Xor(Step(l[1]), input[1])];
      assert r == [m[1], m[2], m[3], Xor(Step(m[0]), rest[0])];
    } else if |input| == 3 {
      assert ProgressLanes(l, input, initCrc) == [l[3], t, Xor(Step(l[1]), input[1]), Xor(Step(l[2]), input[2])];
      assert r == [m[2], m[3], Xor(Step(m[0]), rest[0]), Xor(Step(m[1]), rest[1])];
    } else {
      assert ProgressLanes(l, input, initCrc)
          == [t, Xor(Step(l[1]), input[1]), Xor(Step(l[2]), input[2]), Xor(Step(l[3]), input[3])];
      assert r == [m[3], Xor(Step(m[0]), rest[0]), Xor(Step(m[1]), rest[1]), Xor(Step(m[2]), rest[2])];
    }
  }

  lemma ProgressSingle(l: Lanes, block: Reg, initCrc: bv32)
    ensures ProgressLanes(l, [block], initCrc) == FoldBlock(l, Seeded(block, initCrc))
  {
    assert FoldStepLanes(l, 1) == [l[1], l[2], l[3], Step(l[0])];
  }

  /** `progress::<N>` gives the lanes N block-by-block folds give: batching up to four
      blocks changes nothing, and the seed still lands in the first block only. */
  lemma {:induction false} ProgressIsBlockwise(l: Lanes, src: seq<bv8>, sp: nat, n: nat, initCrc: bv32)
    requires 1 <= n <= 4 && sp + 16 * n <= |src|
    ensures ProgressLanes(l, LoadBlocks(src, sp, n), initCrc) == FoldBlocks(l, src[sp..sp + 16 * n], initCrc)
    decreases n
  {
    hide *;
    var input := LoadBlocks(src, sp, n);
    var m := FoldBlock(l, Seeded(input[0], initCrc));
    FoldBlocksFirst(l, src, sp, n, initCrc);
    if n == 1 {
      LoadBlocksOne(src, sp);
      ProgressSingle(l, input[0], initCrc);
      FoldBlocksEmpty(m, src[sp + 16..sp + 16 * n], Crc32InitialValue);
    } else {
      LoadBlocksRest(src, sp, n);
      ProgressPeel(l, input, initCrc);
      ProgressIsBlockwise(m, src, sp + 16, n - 1, Crc32InitialValue);
    }
  }

  /** The block-by-block reference takes the first loaded block first. */
  lemma FoldBlocksFirst(l: Lanes, src: seq<bv8>, sp: nat, n: nat, initCrc: bv32)
    requires 1 <= n <= 4 && sp + 16 * n <= |src|
    ensures FoldBlocks(l, src[sp..sp + 16 * n], initCrc)
         == FoldBlocks(FoldBlock(l, Seeded(LoadBlocks(src, sp, n)[0], initCrc)), src[sp + 16..sp + 16 * n], Crc32InitialValue)
  {
    var data := src[sp..sp + 16 * n];
    assert data[..16] == LoadBlocks(src, sp, n)[0];
    assert data[16..] == src[sp + 16..sp + 16 * n];
  }

  lemma LoadBlocksOne(src: seq<bv8>, sp: nat)
    requires sp + 16 <= |src|
    ensures LoadBlocks(src, sp, 1) == [LoadBlocks(src, sp, 1)[0]]
    ensures src[sp + 16..sp + 16 * 1] == []
  {
  }

  lemma LoadBlocksRest(src: seq<bv8>, sp: nat, n: nat)
    requires 2 <= n && sp + 16 * n <= |src|
    ensures LoadBlocks(src, sp, n)[1..] == LoadBlocks(src, sp + 16, n - 1)
  {
  }

  /** No bytes, no fold. */
  lemma FoldBlocksEmpty(l: Lanes, data: seq<bv8>, initCrc: bv32)
    requires data == []
    ensures FoldBlocks(l, data, initCrc) == l
  {
  }

  /** Folding two pieces in turn, the first a whole number of blocks, is folding their
      concatenation; the seed is used by whichever piece holds the first block. */
  lemma {:induction false} FoldBlocksAppend(l: Lanes, a: seq<bv8>, b: seq<bv8>, initCrc: bv32)
    requires |a| % 16 == 0
    ensures FoldBlocks(l, a + b, initCrc)
         == FoldBlocks(FoldBlocks(l, a, initCrc), b, if |a| == 0 then initCrc else Crc32InitialValue)
    decreases |a|
  {
    if |a| == 0 {
      assert a + b == b;
    } else {
      assert (a + b)[..16] == a[..16];
      assert (a + b)[16..] == a[16..] + b;
      FoldBlocksAppend(FoldBlock(l, Seeded(a[..16], initCrc)), a[16..], b, Crc32InitialValue);
    }
  }

  /** Offset `p` from an address that is `addr16` modulo 16 lies on a 16-byte boundary. */
  predicate Aligned(addr16: nat, p: nat)
  {
    (addr16 + p) % 16 == 0
  }

  /** Whole blocks keep a position aligned. */
  lemma AlignedAdvance(addr16: nat, p: nat, n: nat)
    requires Aligned(addr16, p)
    ensures Aligned(addr16, p + 16 * n)
  {
    var k := (addr16 + p) / 16;
    assert addr16 + p == 16 * k;
    assert addr16 + p + 16 * n == 16 * (k + n);
  }

  /** Between two aligned positions `a <= b` of `src` lie whole blocks, so folding
      `src[a..c]` is folding `src[a..b]` and then `src[b..c]`. */
  lemma FoldBlocksSplit(l: Lanes, src: seq<bv8>, addr16: nat, a: nat, b: nat, c: nat, initCrc: bv32)
    requires a <= b <= c <= |src| && Aligned(addr16, a) && Aligned(addr16, b)
    ensures FoldBlocks(l, src[a..c], initCrc)
         == FoldBlocks(FoldBlocks(l, src[a..b], initCrc), src[b..c], if a == b then initCrc else Crc32InitialValue)
  {
    assert src[a..b] + src[b..c] == src[a..c];
    FoldBlocksAppend(l, src[a..b], src[b..c], initCrc);
  }

  /** One `progress::<N>` call of the bulk loop (lines 357-372) extends the folded prefix
      `src[start..sp]` by the next N blocks; the seed is live only while nothing is folded. */
  lemma BulkStep(l: Lanes, src: seq<bv8>, addr16: nat, start: nat, sp: nat, n: nat, initCrc: bv32)
    requires 1 <= n <= 4 && start <= sp && sp + 16 * n <= |src| && Aligned(addr16, start) && Aligned(addr16, sp)
    ensures ProgressAt(FoldBlocks(l, src[start..sp], initCrc), src, sp, n, if sp == start then initCrc else Crc32InitialValue)
         == FoldBlocks(l, src[start..sp + 16 * n], initCrc)
  {
    var m := FoldBlocks(l, src[start..sp], initCrc);
    var s := if sp == start then initCrc else Crc32InitialValue;
    assert ProgressAt(m, src, sp, n, s) == ProgressLanes(m, LoadBlocks(src, sp, n), s);
    hide *;
    FoldBlocksSplit(l, src, addr16, start, sp, sp + 16 * n, initCrc);
    ProgressIsBlockwise(m, src, sp, n, s);
  }

  /** The bulk phase stops at the last whole block: fewer than 16 bytes are left after
      an aligned `sp`, so `sp - ad` is the length rounded down to whole blocks. */
  lemma WholeBlocks(addr16: nat, ad: nat, sp: nat, len: nat)
    requires ad <= sp <= len && len - sp < 16 && Aligned(addr16, ad) && Aligned(addr16, sp)
    ensures sp - ad == (len - ad) / 16 * 16
  {
  }

  /** Call number `i` (from 0) of `it.next()` on `src[sp..].chunks_exact(16)`
      (line 251): the iterator yields the whole 16-byte chunks in order, and `None`
      once they run out. */
  function NextChunk(src: seq<bv8>, sp: nat, i: nat): (c: Option<Reg>)
    requires sp <= |src|
    ensures c.Some? <==> sp + 16 * i + 16 <= |src|
  {
    if i < (|src| - sp) / 16 then
      var chunk: Reg := src[sp + 16 * i..sp + 16 * i + 16];
      Some(chunk)
    else None
  }

  /** The load of `progress::<N, _>` as set down (lines 252-255): `from_fn` over
      `[_; 4]` makes four `it.next().unwrap()` calls in turn, whatever N is; the first
      `None` panics, modelled as `None` here. */
  function LoadChunksAsWritten(src: seq<bv8>, sp: nat): (r: Option<seq<Reg>>)
    requires sp <= |src|
    ensures r.Some? ==> |r.value| == 4
  {
    match NextChunk(src, sp, 0)
    case None => None
    case Some(c0) =>
      match NextChunk(src, sp, 1)
      case None => None
      case Some(c1) =>
        match NextChunk(src, sp, 2)
        case None => None
        case Some(c2) =>
          match NextChunk(src, sp, 3)
          case None => None
          case Some(c3) => Some([c0, c1, c2, c3])
  }

  /** The four-chunk load succeeds exactly when 64 bytes remain. */
  lemma LoadChunksSucceedsIff(src: seq<bv8>, sp: nat)
    requires sp <= |src|
    ensures LoadChunksAsWritten(src, sp).Some? <==> |src| - sp >= 64
  {
    if |src| - sp >= 64 {
      assert NextChunk(src, sp, 3).Some?;
    } else {
      assert NextChunk(src, sp, 3).None?;
    }
  }

  /** When the four-chunk load succeeds, its first N chunks are the N blocks that the
      N-block load takes: the two loads differ only on inputs where the code panics. */
  lemma LoadChunksAgree(src: seq<bv8>, sp: nat, n: nat)
    requires sp <= |src| && LoadChunksAsWritten(src, sp).Some? && 1 <= n <= 4
    ensures sp + 16 * n <= |src|
    ensures LoadBlocks(src, sp, n) == LoadChunksAsWritten(src, sp).value[..n]
  {
    LoadChunksSucceedsIff(src, sp);
    var v := LoadChunksAsWritten(src, sp).value;
    forall i | 0 <= i < n
      ensures LoadBlocks(src, sp, n)[i] == v[i]
    {
      assert NextChunk(src, sp, i) == Some(v[i]);
    }
  }

  /** Every `progress::<3>`, `<2>` and `<1>` call at lines 362-371 runs with 16..63 bytes
      left, and with the four-chunk load each of them panics. */
  lemma TailProgressPanics(src: seq<bv8>, sp: nat)
    requires sp <= |src| && 16 <= |src| - sp < 64
    ensures LoadChunksAsWritten(src, sp) == None
  {
    LoadChunksSucceedsIff(src, sp);
  }

  /** A concrete case: 80 aligned bytes leave 16 after one `progress::<4>`, and the
      `progress::<1>` that follows panics, while the N-block load succeeds. */
  lemma AlignedEightyBytesPanic(src: seq<bv8>)
    requires |src| == 80
    ensures LoadChunksAsWritten(src, 0).Some? && LoadChunksAsWritten(src, 64) == None
    ensures |LoadBlocks(src, 64, 1)| == 1 && LoadBlocks(src, 64, 1)[0] == src[64..80]
  {
    LoadChunksSucceedsIff(src, 0);
    LoadChunksSucceedsIff(src, 64);
  }

  /** Whether `fold_help` as written panics on a `len`-byte input at an address that is
      `addr16` modulo 16: the four-block loop (lines 357-360) leaves
      `(len - align_diff) % 64` bytes, and a single `progress` of lines 362-371 follows
      (and panics) when that is 16 or more. */
  predicate FoldHelpPanics(len: nat, addr16: nat)
    requires addr16 < 16
  {
    len >= 16 && (len - AlignDiff(addr16)) % 64 >= 16
  }

  /** The loop of lines 357-360 stops, after `k` calls, `(len - ad) % 64` bytes short
      of the end. */
  lemma QuadsLeave(len: nat, ad: nat, k: nat)
    requires ad + 64 * k <= len < ad + 64 * k + 64
    ensures len - (ad + 64 * k) == (len - ad) % 64
  {
    assert len - ad == 64 * k + (len - (ad + 64 * k));
  }

  /** An input under 16 bytes never reaches `progress`. */
  lemma ShortNeverPanics(len: nat, addr16: nat)
    requires addr16 < 16 && len < 16
    ensures !FoldHelpPanics(len, addr16)
  {
  }

  /** Where the four-block loop stops, after `k` calls, decides `FoldHelpPanics`. */
  lemma FoldHelpPanicsAt(len: nat, addr16: nat, k: nat)
    requires addr16 < 16 && 16 <= len
    requires AlignDiff(addr16) + 64 * k <= len < AlignDiff(addr16) + 64 * k + 64
    ensures FoldHelpPanics(len, addr16) <==> len - (AlignDiff(addr16) + 64 * k) >= 16
  {
    QuadsLeave(len, AlignDiff(addr16), k);
  }

  /** Inputs that panic as written: the 1024-byte buffer of the tests at any unaligned
      address, and 80 bytes at an aligned one; 64 aligned bytes do not. */
  lemma PanickingInputs(addr16: nat)
    requires 1 <= addr16 < 16
    ensures FoldHelpPanics(1024, addr16)
    ensures FoldHelpPanics(80, 0) && !FoldHelpPanics(64, 0)
  {
  }

  // ---------------------------------------------------------------------------
  // `fold_help::<COPY>`

  /** `align_diff` (line 314): the bytes up to the next 16-byte boundary of an address
      whose value modulo 16 is `addr16`. */
  function AlignDiff(addr16: nat): (ad: nat)
    requires addr16 < 16
    ensures ad < 16
    ensures ad == 0 <==> addr16 == 0
  {
    if addr16 == 0 then 0 else 16 - addr16
  }

  /** `AlignDiff` is the masked difference `(16 - addr16) & 0xF` of line 314, and the
      address it leads to lies on a 16-byte boundary. */
  lemma AlignDiffMasked(addr16: nat)
    requires addr16 < 16
    ensures AlignDiff(addr16) as bv8 == (16 - addr16 as bv8) & 0x0F
    ensures Aligned(addr16, AlignDiff(addr16))
  {
  }

  /** A tail of fewer than 16 bytes in the low bytes of a register, the rest zero. */
  function Pad(tail: seq<bv8>): Reg
    requires |tail| <= 16
  {
    tail + seq(16 - |tail|, _ => 0)
  }

  /** The final `partial_fold` (lines 374-386), when any bytes are left. */
  function TailLanes(l: Lanes, tail: seq<bv8>): Lanes
    requires |tail| < 16
  {
    if |tail| == 0 then l else PartialFoldLanes(l, Pad(tail), |tail|)
  }

  /** What `fold_help::<COPY>` (lines 284-387) does to the lanes, with the bulk section
      given by the block-by-block reference: the bytes up to the first 16-byte boundary
      go through `partial_fold`, then every whole block is folded one at a time, then
      the tail goes through `partial_fold`. The seed goes into the first 16 bytes
      loaded; COPY never reads it, and an input shorter than 16 bytes never sees it. */
  function FoldHelpLanes(l: Lanes, src: seq<bv8>, addr16: nat, initCrc: bv32, copy: bool): Lanes
    requires addr16 < 16
  {
    if |src| < 16 then TailLanes(l, src)
    else
      var ad := AlignDiff(addr16);
      var seed := if copy then Crc32InitialValue else initCrc;
      var l1 := if ad == 0 then l else PartialFoldLanes(l, Seeded(src[..16], seed), ad);
      var rest := src[ad..];
      var bulk := |rest| / 16 * 16;
      TailLanes(FoldBlocks(l1, rest[..bulk], if ad == 0 then seed else Crc32InitialValue), rest[bulk..])
  }

  /** COPY changes only where the bytes also go: with a zero seed, `fold_help::<true>`
      and `fold_help::<false>` leave the same lanes. */
  lemma CopyFoldsLikeFold(l: Lanes, src: seq<bv8>, addr16: nat)
    requires addr16 < 16
    ensures FoldHelpLanes(l, src, addr16, Crc32InitialValue, true) == FoldHelpLanes(l, src, addr16, Crc32InitialValue, false)
  {
  }

  /** The four bytes of a seed, least significant first. */
  function SeedBytes(initCrc: bv32): (b: seq<bv8>)
    ensures |b| == 4
  {
    [ByteOf32(initCrc, 0), ByteOf32(initCrc, 1), ByteOf32(initCrc, 2), ByteOf32(initCrc, 3)]
  }

  /** `src` with `p` XORed into its first `|p|` bytes. */
  function XorPrefix(src: seq<bv8>, p: seq<bv8>): (r: seq<bv8>)
    requires |p| <= |src|
    ensures |r| == |src|
    ensures forall i | 0 <= i < |p| :: r[i] == src[i] ^ p[i]
    ensures forall i | |p| <= i < |src| :: r[i] == src[i]
  {
    seq(|src|, i requires 0 <= i < |src| => if i < |p| then src[i] ^ p[i] else src[i])
  }

  /** How many bytes of the seed reach the lanes on the non-COPY path: none for input
      under 16 bytes; `align_diff` of them when that is 1..3, because the seed was XORed
      into the aligning load and only `align_diff` bytes of it are folded; all four otherwise. */
  function SeedBytesUsed(len: nat, addr16: nat): (n: nat)
    requires addr16 < 16
    ensures n <= 4
  {
    if len < 16 then 0
    else if 1 <= AlignDiff(addr16) < 4 then AlignDiff(addr16)
    else 4
  }

  /** Seeding a block is XORing the seed's bytes into its first four bytes. */
  lemma SeededIsXorPrefix(block: Reg, initCrc: bv32)
    ensures Seeded(block, initCrc) == XorPrefix(block, SeedBytes(initCrc))
  {
    var r := XorPrefix(block, SeedBytes(initCrc));
    if initCrc == Crc32InitialValue {
      forall i | 0 <= i < 4 ensures r[i] == block[i] {
        assert SeedBytes(initCrc)[i] == 0;
      }
    } else {
      SeedRegBytes(initCrc);
      var x := Xor(block, SeedReg(initCrc));
      forall i | 0 <= i < 16 ensures x[i] == r[i] {
        if i < 4 {
          assert SeedReg(initCrc)[i] == SeedBytes(initCrc)[i];
        } else {
          assert SeedReg(initCrc)[i] == 0;
        }
      }
    }
  }

  /** `reg([init_crc, 0, 0, 0])` holds the seed's bytes in bytes 0..3 and zero above. */
  lemma SeedRegBytes(initCrc: bv32)
    ensures SeedReg(initCrc)[..4] == SeedBytes(initCrc)
    ensures forall i | 4 <= i < 16 :: SeedReg(initCrc)[i] == 0
  {
    assert ByteOf32(0, 0) == 0 && ByteOf32(0, 1) == 0 && ByteOf32(0, 2) == 0 && ByteOf32(0, 3) == 0;
  }

  /** The non-COPY seed is exactly the first `SeedBytesUsed` bytes of the seed XORed into
      the front of the input: the lanes are those of the unseeded fold of that input. */
  lemma SeedUse(l: Lanes, src: seq<bv8>, addr16: nat, initCrc: bv32)
    requires addr16 < 16
    ensures SeedBytesUsed(|src|, addr16) <= |src|
    ensures FoldHelpLanes(l, src, addr16, initCrc, false)
         == FoldHelpLanes(l, XorPrefix(src, SeedBytes(initCrc)[..SeedBytesUsed(|src|, addr16)]), addr16, Crc32InitialValue, false)
  {
    var used := SeedBytesUsed(|src|, addr16);
    var p := SeedBytes(initCrc)[..used];
    var src' := XorPrefix(src, p);
    if |src| < 16 {
      assert src' == src;
    } else {
      if AlignDiff(addr16) == 0 {
        assert used == 4 && p == SeedBytes(initCrc);
        SeedUseAligned(l, src, p, initCrc);
        assert src[0..] == src && src'[0..] == src';
      } else {
        SeedUseMisaligned(l, src, addr16, initCrc);
      }
    }
  }

  /** The misaligned case of `SeedUse`: the seed goes into the aligning partial fold. */
  lemma SeedUseMisaligned(l: Lanes, src: seq<bv8>, addr16: nat, initCrc: bv32)
    requires addr16 < 16 && |src| >= 16 && AlignDiff(addr16) != 0
    ensures var ad := AlignDiff(addr16);
      var src' := XorPrefix(src, SeedBytes(initCrc)[..SeedBytesUsed(|src|, addr16)]);
      PartialFoldLanes(l, Seeded(src[..16], initCrc), ad) == PartialFoldLanes(l, src'[..16], ad)
      && src[ad..] == src'[ad..]
  {
    var ad := AlignDiff(addr16);
    var used := SeedBytesUsed(|src|, addr16);
    var seed := SeedBytes(initCrc);
    var src' := XorPrefix(src, seed[..used]);
    var head := src[..16];
    hide *;
    SeededIsXorPrefix(head, initCrc);
    XorPrefixSuffix(src, seed[..used], ad);
    XorPrefixHead(src, seed[..used]);
    if ad >= 4 {
      assert used == 4 && seed[..used] == seed;
    } else {
      assert used == ad;
      XorPrefixAgree(head, seed, ad);
      PartialFoldLowBytesOnly(l, Seeded(head, initCrc), src'[..16], ad);
    }
  }

  /** `XorPrefix` leaves the bytes past the prefix alone. */
  lemma XorPrefixSuffix(src: seq<bv8>, p: seq<bv8>, k: nat)
    requires |p| <= k <= |src|
    ensures src[k..] == XorPrefix(src, p)[k..]
  {
  }

  /** `XorPrefix` of a short prefix works block-locally on the first 16 bytes. */
  lemma XorPrefixHead(src: seq<bv8>, p: seq<bv8>)
    requires |p| <= 16 <= |src|
    ensures XorPrefix(src, p)[..16] == XorPrefix(src[..16], p)
  {
  }

  /** The first `k` bytes of `XorPrefix` depend only on the first `k` bytes of the prefix. */
  lemma XorPrefixAgree(b: seq<bv8>, p: seq<bv8>, k: nat)
    requires k <= |p| <= |b|
    ensures XorPrefix(b, p)[..k] == XorPrefix(b, p[..k])[..k]
  {
  }

  /** The aligned case of `SeedUse`: the seed goes into the first whole block. */
  lemma SeedUseAligned(l: Lanes, src: seq<bv8>, p: seq<bv8>, initCrc: bv32)
    requires |src| >= 16 && p == SeedBytes(initCrc)
    ensures var src' := XorPrefix(src, p); var bulk := |src| / 16 * 16;
      FoldBlocks(l, src[..bulk], initCrc) == FoldBlocks(l, src'[..bulk], Crc32InitialValue)
      && src[bulk..] == src'[bulk..]
  {
    var src' := XorPrefix(src, p);
    var bulk := |src| / 16 * 16;
    SeededIsXorPrefix(src[..16], initCrc);
    assert Seeded(src[..16], initCrc) == src'[..16];
    var d, d' := src[..bulk], src'[..bulk];
    assert d[..16] == src[..16] && d'[..16] == src'[..16];
    assert d[16..] == d'[16..];
    assert FoldBlocks(l, d, initCrc) == FoldBlocks(FoldBlock(l, Seeded(d[..16], initCrc)), d[16..], Crc32InitialValue);
    assert FoldBlocks(l, d', Crc32InitialValue) == FoldBlocks(FoldBlock(l, d'[..16]), d'[16..], Crc32InitialValue);
    assert src[bulk..] == src'[bulk..];
  }

  /** Because the seed is cleared (line 324) before the `align_diff < 4` test (line 327),
      the re-fold at lines 328-334 never runs: when `align_diff` is 1..3 two seeds that
      agree in their low `align_diff` bytes give the same lanes. */
  lemma SeedHighBytesDropped(l: Lanes, src: seq<bv8>, addr16: nat, s1: bv32, s2: bv32)
    requires addr16 < 16 && |src| >= 16 && 1 <= AlignDiff(addr16) < 4
    requires SeedBytes(s1)[..AlignDiff(addr16)] == SeedBytes(s2)[..AlignDiff(addr16)]
    ensures FoldHelpLanes(l, src, addr16, s1, false) == FoldHelpLanes(l, src, addr16, s2, false)
  {
    SeedUse(l, src, addr16, s1);
    SeedUse(l, src, addr16, s2);
  }

  // ---------------------------------------------------------------------------
  // `Accumulator::finish`

  /** `CRC_MASK1` (line 105): keeps dwords 0 and 1. */
  const CrcMask1: Reg := RegOf([0xFFFFFFFF, 0xFFFFFFFF, 0x00000000, 0x00000000])
  /** `CRC_MASK2` (line 108): keeps dwords 1..3. */
  const CrcMask2: Reg := RegOf([0x00000000, 0xFFFFFFFF, 0xFFFFFFFF, 0xFFFFFFFF])
  /** `RK1_RK2` (lines 111-114). */
  const Rk1Rk2: Reg := RegOf([0xccaa009e, 0x00000000, 0x751997d0, 0x00000001])
  /** `RK5_RK6` (lines 116-119). */
  const Rk5Rk6: Reg := RegOf([0xccaa009e, 0x00000000, 0x63cd6124, 0x00000001])
  /** `RK7_RK8` (lines 121-124). */
  const Rk7Rk8: Reg := RegOf([0xf7011640, 0x00000001, 0xdb710640, 0x00000001])

  /** `CRC_MASK1` (applied at line 173) keeps bytes 0..7, dwords 0 and 1, and clears
      dwords 2 and 3. */
  lemma Mask1Keeps(x: Reg)
    ensures forall j | 0 <= j < 16 :: And(x, CrcMask1)[j] == if j < 8 then x[j] else 0
  {
    assert ByteOf32(0xFFFFFFFF, 0) == 0xFF && ByteOf32(0xFFFFFFFF, 1) == 0xFF;
    assert ByteOf32(0xFFFFFFFF, 2) == 0xFF && ByteOf32(0xFFFFFFFF, 3) == 0xFF;
    assert ByteOf32(0, 0) == 0 && ByteOf32(0, 1) == 0 && ByteOf32(0, 2) == 0 && ByteOf32(0, 3) == 0;
  }

  /** `CRC_MASK2` (applied at line 162) clears bytes 0..3, dword 0, and keeps dwords 1..3. */
  lemma Mask2Keeps(x: Reg)
    ensures forall j | 0 <= j < 16 :: And(x, CrcMask2)[j] == if j < 4 then 0 else x[j]
  {
    assert ByteOf32(0xFFFFFFFF, 0) == 0xFF && ByteOf32(0xFFFFFFFF, 1) == 0xFF;
    assert ByteOf32(0xFFFFFFFF, 2) == 0xFF && ByteOf32(0xFFFFFFFF, 3) == 0xFF;
    assert ByteOf32(0, 0) == 0 && ByteOf32(0, 1) == 0 && ByteOf32(0, 2) == 0 && ByteOf32(0, 3) == 0;
  }

  /** `CRC_MASK1` in dwords: 0 and 1 kept, 2 and 3 cleared. */
  lemma Mask1Clears(x: Reg)
    ensures var t := And(x, CrcMask1); t[8] == 0 && t[9] == 0 && t[10] == 0 && t[11] == 0
    ensures Dword(And(x, CrcMask1), 2) == 0 && Dword(And(x, CrcMask1), 3) == 0
    ensures And(x, CrcMask1)[..8] == x[..8]
  {
    var t := And(x, CrcMask1);
    Mask1Keeps(x);
    assert t[8] == 0 && t[9] == 0 && t[10] == 0 && t[11] == 0;
    assert t[12] == 0 && t[13] == 0 && t[14] == 0 && t[15] == 0;
  }

  /** `CRC_MASK2` in dwords: 0 cleared, 1..3 kept. */
  lemma Mask2Clears(x: Reg)
    ensures Dword(And(x, CrcMask2), 0) == 0
    ensures And(x, CrcMask2)[4..] == x[4..]
  {
    var t := And(x, CrcMask2);
    Mask2Keeps(x);
    assert t[0] == 0 && t[1] == 0 && t[2] == 0 && t[3] == 0;
  }

  /** One RK1_RK2 combine (lines 133-136 and again twice): `next` XORed with both
      carry-less products of `prev` with the constant. */
  function Combine(prev: Reg, next: Reg): Reg
  {
    Xor(Xor(next, ClmulEpi64(prev, Rk1Rk2, 0x10)), ClmulEpi64(prev, Rk1Rk2, 0x01))
  }

  /** Lines 128-146 (k1): lane 0 folded into lane 1, the result into lane 2, and that
      into lane 3, leaving all of the state in one register. */
  function FoldIntoTop(l: Lanes): Reg
  {
    Combine(Combine(Combine(l[0], l[1]), l[2]), l[3])
  }

  /** Lines 148-162 (k5): the 128-bit value collapsed with `RK5_RK6`; `CRC_MASK2`
      leaves dword 0 clear and dwords 1..3 as computed. */
  function ReduceK5(c3: Reg): (b: Reg)
    ensures Dword(b, 0) == 0
    ensures b[4..] == Xor(ClmulEpi64(Slli(Xor(ClmulEpi64(c3, Rk5Rk6, 0x00), Srli(c3, 8)), 4), Rk5Rk6, 0x10),
                          Xor(ClmulEpi64(c3, Rk5Rk6, 0x00), Srli(c3, 8)))[4..]
  {
    var a := Xor(ClmulEpi64(c3, Rk5Rk6, 0x00), Srli(c3, 8));
    var x := Xor(ClmulEpi64(Slli(a, 4), Rk5Rk6, 0x10), a);
    Mask2Clears(x);
    And(x, CrcMask2)
  }

  /** Lines 167-173 (first half of k7): `CRC_MASK1` keeps dwords 0 and 1 of the
      `RK7` product and clears dwords 2 and 3. */
  function MaskK7(b: Reg): (t: Reg)
    ensures t[8] == 0 && t[9] == 0 && t[10] == 0 && t[11] == 0
    ensures Dword(t, 2) == 0 && Dword(t, 3) == 0
    ensures t[..8] == Xor(ClmulEpi64(b, Rk7Rk8, 0x00), b)[..8]
  {
    var x := Xor(ClmulEpi64(b, Rk7Rk8, 0x00), b);
    Mask1Clears(x);
    And(x, CrcMask1)
  }

  /** The 128-bit value left in `xmm_crc3` before the final extract (lines 128-178). */
  function FinishReg(l: Lanes): Reg
  {
    var b := ReduceK5(FoldIntoTop(l));
    var t := MaskK7(b);
    Xor(Xor(ClmulEpi64(t, Rk7Rk8, 0x10), t), b)
  }

  /** `Accumulator::finish` (lines 104-181): the complement of dword 2 of the reduced value. */
  function FinishLanes(l: Lanes): bv32
  {
    !Dword(FinishReg(l), 2)
  }

  /** A register whose bytes 8..11 are zero adds nothing to dword 2 of an XOR. */
  lemma XorClearDword2(p: Reg, t: Reg, b: Reg)
    requires t[8] == 0 && t[9] == 0 && t[10] == 0 && t[11] == 0
    ensures Dword(Xor(Xor(p, t), b), 2) == Dword(Xor(p, b), 2)
  {
    var y := Xor(Xor(p, t), b);
    var z := Xor(p, b);
    XorClearBytes(p, t, b);
    hide *;
    Dword2Bytes(y);
    Dword2Bytes(z);
  }

  lemma XorClearBytes(p: Reg, t: Reg, b: Reg)
    requires t[8] == 0 && t[9] == 0 && t[10] == 0 && t[11] == 0
    ensures var y, z := Xor(Xor(p, t), b), Xor(p, b);
      y[8] == z[8] && y[9] == z[9] && y[10] == z[10] && y[11] == z[11]
  {
  }

  /** `finish` unfolded down to its last two XORs. */
  lemma FinishUnfold(l: Lanes, b: Reg, t: Reg, p: Reg)
    requires b == ReduceK5(FoldIntoTop(l)) && t == MaskK7(b) && p == ClmulEpi64(t, Rk7Rk8, 0x10)
    ensures FinishLanes(l) == !Dword(Xor(Xor(p, t), b), 2)
  {
  }

  /** The CRC `finish` returns (line 180): the complement of dword 2 of the second `RK8`
      product XORed with dword 2 of the k5 result. The masked register `t` itself adds
      nothing to dword 2, since `CRC_MASK1` cleared it. */
  lemma FinishDword2(l: Lanes)
    ensures var b := ReduceK5(FoldIntoTop(l));
      FinishLanes(l) == !Dword(Xor(ClmulEpi64(MaskK7(b), Rk7Rk8, 0x10), b), 2)
  {
    var b := ReduceK5(FoldIntoTop(l));
    var t := MaskK7(b);
    var p := ClmulEpi64(t, Rk7Rk8, 0x10);
    hide *;
    FinishUnfold(l, b, t, p);
    XorClearDword2(p, t, b);
  }
}

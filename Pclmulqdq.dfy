/** The stateful part of `crc32_pclmulqdq.rs`: the `Accumulator`, whose four lanes
    are updated in place, the `Crc32Fold` facade that dispatches between it and the
    scalar fallback, and the entry points `crc32` and `crc32_copy`. Every method is
    proved against the pure semantics in `Folding`. */
module Pclmulqdq {
  import opened Intrinsics
  import opened Folding

  /** `crc32_braid(buf, start)`: the scalar CRC-32 the fallback and short inputs use.
      Its code is not part of this model, so callers supply it. */
  type ScalarCrc = (seq<bv8>, bv32) -> bv32

  /** The chunks `zip` pairs with N loaded blocks (line 260): as many whole 16-byte
      chunks as `room` bytes hold, but no more than `n`. */
  function Chunks(n: nat, room: nat): (k: nat)
    ensures k <= n && 16 * k <= room
  {
    if n < room / 16 then n else room / 16
  }

  /** With room for N blocks, all N are stored. */
  lemma ChunksFull(n: nat, room: nat)
    requires 16 * n <= room
    ensures Chunks(n, room) == n
  {
  }

  /** Lines 259-262: the blocks of `input`, loaded from `src[sp..]`, stored one by
      one into the whole 16-byte chunks of `dst[dp..]`, as many as there are room for. */
  method StoreBlocks(dst: array<bv8>, dp: nat, input: seq<Reg>, ghost src: seq<bv8>, ghost sp: nat)
    requires dp <= dst.Length && sp + 16 * |input| <= |src|
    requires forall i | 0 <= i < |input| :: input[i] == src[sp + 16 * i..sp + 16 * i + 16]
    modifies dst
    ensures forall t | 0 <= t < dst.Length ::
      dst[t] == if dp <= t < dp + 16 * Chunks(|input|, dst.Length - dp) then src[sp + t - dp] else old(dst[t])
  {
    var chunks := Chunks(|input|, dst.Length - dp);
    for k := 0 to chunks
      invariant forall t | 0 <= t < dst.Length ::
        dst[t] == if dp <= t < dp + 16 * k then src[sp + t - dp] else old(dst[t])
    {
      forall j | 0 <= j < 16 {
        dst[dp + 16 * k + j] := input[k][j];
      }
    }
  }

  /** `Accumulator` (lines 76-79): the four 128-bit lanes. */
  class Accumulator {
    const fold: array<Reg>

    ghost predicate Valid()
      reads this
    {
      fold.Length == 4
    }

    /** The lanes, lane 0 first. */
    function Lanes(): Folding.Lanes
      reads this, fold
      requires Valid()
    {
      [fold[0], fold[1], fold[2], fold[3]]
    }

    /** `Accumulator::new` (lines 86-93). */
    constructor ()
      ensures Valid() && fresh(fold)
      ensures Lanes() == InitialLanes
    {
      var xmmCrc0 := RegOf([0x9db42487, 0, 0, 0]);
      var xmmZero := RegOf([0, 0, 0, 0]);
      assert xmmZero == Zero;
      var lanes := new Reg[4](_ => xmmZero);
      lanes[0] := xmmCrc0;
      fold := lanes;
    }

    /** `fold_step::<N>` (lines 183-188): every lane is rebuilt from the lanes as they
        were, so the loop reads a snapshot. */
    method FoldStep(n: nat)
      requires Valid() && n <= 4
      modifies fold
      ensures Lanes() == FoldStepLanes(old(Lanes()), n)
    {
      hide Step;
      var prev := Lanes();
      for i := 0 to 4
        invariant forall k | 0 <= k < i :: fold[k] == FoldStepLane(prev, n, k)
        invariant forall k | i <= k < 4 :: fold[k] == prev[k]
      {
        fold[i] := if i + n < 4 then prev[i + n] else Step(prev[i + n - 4]);
      }
    }

    /** `partial_fold` (lines 198-243): the table entry for `len` is a pshufb control
        that shifts left by `16 - len` bytes; with every high bit flipped it shifts
        right by `len`. */
    method PartialFold(part: Reg, len: nat)
      requires Valid() && 1 <= len <= 15
      modifies fold
      ensures Lanes() == PartialFoldLanes(old(Lanes()), part, len)
    {
      ghost var l := Lanes();
      var shl := PshufbShfTable[len - 1];
      var shr := Xor(shl, HighBits);

      var a0 := Step(Shuffle(fold[0], shl));

      fold[0] := Shuffle(fold[0], shr);
      var tmp1 := Shuffle(fold[1], shl);
      fold[0] := Or(fold[0], tmp1);

      fold[1] := Shuffle(fold[1], shr);
      var tmp2 := Shuffle(fold[2], shl);
      fold[1] := Or(fold[1], tmp2);

      fold[2] := Shuffle(fold[2], shr);
      var tmp3 := Shuffle(fold[3], shl);
      fold[2] := Or(fold[2], tmp3);

      fold[3] := Shuffle(fold[3], shr);
      var crcPart := Shuffle(part, shl);
      fold[3] := Or(fold[3], crcPart);

      fold[3] := Xor(fold[3], a0);

      ShuffleIsShiftLeft(l[0], len);
      ShuffleIsShiftLeft(l[1], len);
      ShuffleIsShiftLeft(l[2], len);
      ShuffleIsShiftLeft(l[3], len);
      ShuffleIsShiftLeft(part, len);
      ShuffleIsShiftRight(l[0], len);
      ShuffleIsShiftRight(l[1], len);
      ShuffleIsShiftRight(l[2], len);
      ShuffleIsShiftRight(l[3], len);
    }

    /** `progress::<N, COPY>` (lines 246-280) on `src[sp..]` and, under COPY, `dst[dp..]`.
        It loads N aligned blocks (the code as written loads four; see
        `LoadChunksAsWritten`), stores them into as many whole 16-byte chunks of
        `dst[dp..]` as there are, up to N, XORs a nonzero seed into the first block
        when COPY is off and clears it, folds N steps and XORs the blocks into the top
        N lanes. It returns the advanced source position, the bytes written, and the seed. */
    method Progress(n: nat, copy: bool, dst: array<bv8>, dp: nat, src: seq<bv8>, sp: nat, addr16: nat, initCrc: bv32)
      returns (sp': nat, written: nat, initCrc': bv32)
      requires Valid() && 1 <= n <= 4 && addr16 < 16
      requires sp + 16 * n <= |src| && Aligned(addr16, sp)
      requires copy ==> dp <= dst.Length
      requires dst as object != fold
      modifies fold, dst
      ensures Lanes() == ProgressAt(old(Lanes()), src, sp, n, if copy then Crc32InitialValue else initCrc)
      ensures sp' == sp + 16 * n
      ensures written == if copy then 16 * n else 0
      ensures initCrc' == if copy then initCrc else Crc32InitialValue
      ensures copy ==> forall t | 0 <= t < dst.Length ::
        dst[t] == if dp <= t < dp + 16 * Chunks(n, dst.Length - dp) then src[sp + t - dp] else old(dst[t])
      ensures !copy ==> unchanged(dst)
    {
      hide Step, Xor, FoldStepLanes, SeedReg, Aligned, Chunks, FoldBlocks, PartialFoldLanes, ProgressLane;
      var input := LoadBlocks(src, sp, n);
      sp' := sp + 16 * n;
      initCrc' := initCrc;
      ghost var blocks := input;

      if copy {
        StoreBlocks(dst, dp, input, src, sp);
      } else if initCrc != Crc32InitialValue {
        input := input[0 := Xor(input[0], SeedReg(initCrc))];
        initCrc' := Crc32InitialValue;
      }
      assert input == blocks[0 := Seeded(blocks[0], if copy then Crc32InitialValue else initCrc)];

      FoldStep(n);
      XorBlocks(input);
      written := if copy then 16 * n else 0;
    }

    /** Lines 271-273: block `i` XORed into lane `i + (4 - N)`, the top N lanes. */
    method XorBlocks(input: seq<Reg>)
      requires Valid() && 1 <= |input| <= 4
      modifies fold
      ensures Lanes() == [ProgressLane(old(Lanes()), input, 0), ProgressLane(old(Lanes()), input, 1),
                          ProgressLane(old(Lanes()), input, 2), ProgressLane(old(Lanes()), input, 3)]
    {
      hide Xor;
      var n := |input|;
      ghost var f := Lanes();
      for i := 0 to n
        modifies fold
        invariant fold[0] == if 0 < 4 - n + i then ProgressLane(f, input, 0) else f[0]
        invariant fold[1] == if 1 < 4 - n + i then ProgressLane(f, input, 1) else f[1]
        invariant fold[2] == if 2 < 4 - n + i then ProgressLane(f, input, 2) else f[2]
        invariant fold[3] == if 3 < 4 - n + i then ProgressLane(f, input, 3) else f[3]
      {
        assert ProgressLane(f, input, i + (4 - n)) == Xor(f[i + (4 - n)], input[i]);
        fold[i + (4 - n)] := Xor(fold[i + (4 - n)], input[i]);
      }
    }

    /** `Accumulator::fold` (lines 95-97): `fold_help::<false>` with an empty `dst`,
        seeded with `start`; `panics` says whether the code as written panics here. */
    method Fold(src: seq<bv8>, addr16: nat, start: bv32) returns (ghost panics: bool)
      requires Valid() && addr16 < 16
      requires |src| >= 31 || start != Crc32InitialValue
      modifies fold
      ensures Lanes() == FoldHelpLanes(old(Lanes()), src, addr16, start, false)
      ensures panics == FoldHelpPanics(|src|, addr16)
    {
      var none := new bv8[0];
      panics := FoldHelp(false, none, src, addr16, start);
    }

    /** `Accumulator::fold_copy` (lines 99-101): `fold_help::<true>`, seed zero, which
        also copies `src` into `dst`. */
    method FoldCopy(dst: array<bv8>, src: seq<bv8>, addr16: nat) returns (ghost panics: bool)
      requires Valid() && addr16 < 16
      requires |src| >= 31 && dst.Length == |src|
      requires dst as object != fold
      modifies fold, dst
      ensures Lanes() == FoldHelpLanes(old(Lanes()), src, addr16, Crc32InitialValue, true)
      ensures dst[..] == src
      ensures panics == FoldHelpPanics(|src|, addr16)
    {
      panics := FoldHelp(true, dst, src, addr16, Crc32InitialValue);
    }

    /** `fold_help::<COPY>` (lines 284-387) over all of `src`, whose start address is
        `addr16` modulo 16; under COPY every byte is also stored to `dst`. An input of
        16 bytes or more is folded in phases: `AlignHead`, `FoldQuads`,
        `FoldRemainingBlocks` and `FoldTail`. The bulk loads take N blocks (see
        `Progress`); `panics` is true exactly on the inputs where the code as written
        reaches a four-chunk load with fewer than 64 bytes left, and so panics. */
    method FoldHelp(copy: bool, dst: array<bv8>, src: seq<bv8>, addr16: nat, initCrc: bv32)
      returns (ghost panics: bool)
      requires Valid() && addr16 < 16
      requires |src| >= 31 || initCrc != Crc32InitialValue
      requires dst.Length == if copy then |src| else 0
      requires dst as object != fold
      modifies fold, dst
      ensures Lanes() == FoldHelpLanes(old(Lanes()), src, addr16, initCrc, copy)
      ensures copy ==> dst[..] == src
      ensures panics == FoldHelpPanics(|src|, addr16)
    {
      hide Step, Xor, FoldBlocks, PartialFoldLanes, Aligned, FoldHelpPanics;
      ghost var l0 := Lanes();
      panics := false;
      if |src| < 16 {
        ShortNeverPanics(|src|, addr16);
      }
      var part := RegOf([0, 0, 0, 0]);
      var partialBuf := new bv8[16](_ => 0);
      var sp := 0;

      if |src| < 16 {
        if copy {
          if |src| == 0 {
            return;
          }
          forall j | 0 <= j < |src| {
            partialBuf[j] := src[j];
          }
          part := partialBuf[..];
          forall j | 0 <= j < |src| {
            dst[j] := partialBuf[j];
          }
        }
        assert src[sp..] == src;
      } else {
        var seed;
        part, sp, seed := AlignHead(copy, dst, src, addr16, initCrc);
        AlignDiffMasked(addr16);
        ghost var ad := sp;
        ghost var l1 := Lanes();
        ghost var s1 := if copy then Crc32InitialValue else seed;
        var quadsEnd;
        ghost var k;
        quadsEnd, seed, k := FoldQuads(copy, dst, src, addr16, sp, seed);
        sp, panics := FoldRemainingBlocks(copy, dst, src, addr16, quadsEnd, seed);
        FoldHelpPanicsAt(|src|, addr16, k);
        FoldBlocksSplit(l1, src, addr16, ad, quadsEnd, sp, s1);
        WholeBlocks(addr16, ad, sp, |src|);
        var rest := src[ad..];
        var bulk := |rest| / 16 * 16;
        assert bulk == sp - ad;
        assert rest[..bulk] == src[ad..sp] && rest[bulk..] == src[sp..];
      }
      FoldTail(copy, dst, partialBuf, src, sp, part);
      assert copy ==> dst[..] == src;
    }

    /** Lines 314-341: the bytes up to the first 16-byte boundary. A 16-byte unaligned
        load is taken (and under COPY stored), a nonzero seed XORed into it and
        cleared, and `align_diff` of its bytes folded in by `partial_fold`. Returns the
        loaded register, the bytes consumed and the seed left. */
    method AlignHead(copy: bool, dst: array<bv8>, src: seq<bv8>, addr16: nat, initCrc: bv32)
      returns (part: Reg, sp: nat, seed: bv32)
      requires Valid() && addr16 < 16 && |src| >= 16
      requires dst.Length == if copy then |src| else 0
      requires dst as object != fold
      modifies fold, dst
      ensures sp == AlignDiff(addr16)
      ensures Lanes() == if sp == 0 then old(Lanes())
        else PartialFoldLanes(old(Lanes()), Seeded(src[..16], if copy then Crc32InitialValue else initCrc), sp)
      ensures seed == if copy || sp == 0 then initCrc else Crc32InitialValue
      ensures copy ==> forall t | 0 <= t < dst.Length :: dst[t] == if sp != 0 && t < 16 then src[t] else old(dst[t])
    {
      part := RegOf([0, 0, 0, 0]);
      seed := initCrc;
      sp := 0;
      var ad := AlignDiff(addr16);
      if ad != 0 {
        part := src[..16];
        if copy {
          forall j | 0 <= j < 16 {
            dst[j] := part[j];
          }
        } else {
          if seed != Crc32InitialValue {
            part := Xor(part, SeedReg(seed));
            seed := Crc32InitialValue;
          }
          if ad < 4 && seed != Crc32InitialValue {
            // lines 327-335: the seed was cleared just above, so this never runs
            assert false;
          }
        }
        assert part == Seeded(src[..16], if copy then Crc32InitialValue else initCrc);
        PartialFold(part, ad);
        sp := ad;
      }
    }

    /** Lines 357-360: `progress::<4>` while 64 bytes remain, from the aligned position
        `start`; under COPY `dst` advances with `src`. Returns where `src` stops and the
        seed left. */
    method FoldQuads(copy: bool, dst: array<bv8>, src: seq<bv8>, addr16: nat, start: nat, initCrc: bv32)
      returns (sp: nat, seed: bv32, ghost quads: nat)
      requires Valid() && addr16 < 16
      requires start <= |src| && Aligned(addr16, start)
      requires dst.Length == if copy then |src| else 0
      requires dst as object != fold
      modifies fold, dst
      ensures start <= sp <= |src| && |src| - sp < 64 && Aligned(addr16, sp)
      ensures sp == start + 64 * quads
      ensures Lanes() == FoldBlocks(old(Lanes()), src[start..sp], if copy then Crc32InitialValue else initCrc)
      ensures seed == if copy || sp == start then initCrc else Crc32InitialValue
      ensures copy ==> forall t | 0 <= t < dst.Length :: dst[t] == if start <= t < sp then src[t] else old(dst[t])
    {
      ghost var l1 := Lanes();
      ghost var s1 := if copy then Crc32InitialValue else initCrc;
      hide *;
      seed := initCrc;
      sp := start;
      assert src[start..sp] == [];
      FoldBlocksEmpty(l1, src[start..sp], s1);
      quads := 0;

      while |src| - sp >= 64
        invariant Valid()
        invariant start <= sp <= |src| && Aligned(addr16, sp)
        invariant sp == start + 64 * quads
        invariant Lanes() == FoldBlocks(l1, src[start..sp], s1)
        invariant seed == if copy || sp == start then initCrc else Crc32InitialValue
        invariant copy ==> forall t | 0 <= t < dst.Length :: dst[t] == if start <= t < sp then src[t] else old(dst[t])
        decreases |src| - sp
      {
        sp, seed := ExtendPrefix(4, copy, dst, src, addr16, start, sp, initCrc, seed, l1);
        quads := quads + 1;
      }
    }

    /** One `progress::<N>` call of lines 357-371 at the aligned position `sp`: it
        extends the folded prefix `src[start..sp]` by N blocks and, under COPY, the
        copied prefix of `dst`, which runs level with `src`. */
    method ExtendPrefix(n: nat, copy: bool, dst: array<bv8>, src: seq<bv8>, addr16: nat, start: nat, sp: nat,
                        initCrc: bv32, seed: bv32, ghost l1: Folding.Lanes)
      returns (sp': nat, seed': bv32)
      requires Valid() && addr16 < 16 && 1 <= n <= 4
      requires start <= sp && sp + 16 * n <= |src| && Aligned(addr16, start) && Aligned(addr16, sp)
      requires dst.Length == if copy then |src| else 0
      requires dst as object != fold
      requires Lanes() == FoldBlocks(l1, src[start..sp], if copy then Crc32InitialValue else initCrc)
      requires seed == if copy || sp == start then initCrc else Crc32InitialValue
      modifies fold, dst
      ensures sp' == sp + 16 * n && Aligned(addr16, sp')
      ensures Lanes() == FoldBlocks(l1, src[start..sp'], if copy then Crc32InitialValue else initCrc)
      ensures seed' == if copy then initCrc else Crc32InitialValue
      ensures copy ==> forall t | 0 <= t < dst.Length :: dst[t] == if sp <= t < sp' then src[t] else old(dst[t])
    {
      hide *;
      var written;
      if copy { ChunksFull(n, dst.Length - sp); }
      sp', written, seed' := Progress(n, copy, dst, if copy then sp else 0, src, sp, addr16, seed);
      BulkStep(l1, src, addr16, start, sp, n, if copy then Crc32InitialValue else initCrc);
      AlignedAdvance(addr16, sp, n);
    }

    /** Lines 362-371: after the four-block loop, one `progress` of three, two or one
        blocks, whichever whole number of blocks is left. As written, that `progress`
        loads four chunks from fewer than 64 bytes and panics; `panics` says whether it
        is called. */
    method FoldRemainingBlocks(copy: bool, dst: array<bv8>, src: seq<bv8>, addr16: nat, start: nat, initCrc: bv32)
      returns (sp: nat, ghost panics: bool)
      requires Valid() && addr16 < 16
      requires start <= |src| && |src| - start < 64 && Aligned(addr16, start)
      requires dst.Length == if copy then |src| else 0
      requires dst as object != fold
      modifies fold, dst
      ensures start <= sp <= |src| && |src| - sp < 16 && Aligned(addr16, sp)
      ensures Lanes() == FoldBlocks(old(Lanes()), src[start..sp], if copy then Crc32InitialValue else initCrc)
      ensures copy ==> forall t | 0 <= t < dst.Length :: dst[t] == if start <= t < sp then src[t] else old(dst[t])
      ensures panics <==> |src| - start >= 16
      ensures panics ==> LoadChunksAsWritten(src, start) == None
    {
      ghost var l1 := Lanes();
      hide *;
      panics := |src| - start >= 16;
      if panics {
        TailProgressPanics(src, start);
      }
      var seed := initCrc;
      sp := start;
      assert src[start..sp] == [];
      FoldBlocksEmpty(l1, src[start..sp], if copy then Crc32InitialValue else initCrc);
      if |src| - sp >= 48 {
        sp, seed := ExtendPrefix(3, copy, dst, src, addr16, start, sp, initCrc, seed, l1);
      } else if |src| - sp >= 32 {
        sp, seed := ExtendPrefix(2, copy, dst, src, addr16, start, sp, initCrc, seed, l1);
      } else if |src| - sp >= 16 {
        sp, seed := ExtendPrefix(1, copy, dst, src, addr16, start, sp, initCrc, seed, l1);
      }
    }

    /** Lines 374-386: the remaining fewer than 16 bytes overwrite the low bytes of
        `part` (the rest of it keeps whatever it held), are stored to `dst` through
        `partialBuf` under COPY, and go through `partial_fold`. */
    method FoldTail(copy: bool, dst: array<bv8>, partialBuf: array<bv8>, src: seq<bv8>, sp: nat, part: Reg)
      requires Valid() && sp <= |src| && |src| - sp < 16
      requires partialBuf.Length == 16
      requires dst.Length == if copy then |src| else 0
      requires dst as object != fold && partialBuf as object != fold && partialBuf != dst
      modifies fold, dst, partialBuf
      ensures Lanes() == TailLanes(old(Lanes()), src[sp..])
      ensures copy ==> forall t | 0 <= t < dst.Length :: dst[t] == if sp <= t then src[t] else old(dst[t])
    {
      if sp < |src| {
        var len := |src| - sp;
        var crcPart: Reg := src[sp..] + part[len..];
        if copy {
          forall j | 0 <= j < 16 {
            partialBuf[j] := crcPart[j];
          }
          forall j | 0 <= j < len {
            dst[sp + j] := partialBuf[j];
          }
        }
        PartialFoldLowBytesOnly(Lanes(), crcPart, Pad(src[sp..]), len);
        PartialFold(crcPart, len);
      }
    }
  }

  /** `Crc32Fold` (lines 19-67): the folding accumulator and the scalar CRC value, with
      `pclmulqdq` the outcome of the capability test `is_pclmulqdq` (lines 34-38) and
      `braid` the scalar CRC-32. */
  class Crc32Fold {
    const pclmulqdq: bool
    const braid: ScalarCrc
    const acc: Accumulator
    var value: bv32

    ghost predicate Valid()
      reads this, acc
    {
      acc.Valid()
    }

    /** `Crc32Fold::new` (lines 26-32). */
    constructor(pclmulqdq: bool, braid: ScalarCrc)
      ensures Valid() && fresh(acc) && fresh(acc.fold)
      ensures this.pclmulqdq == pclmulqdq && this.braid == braid
      ensures acc.Lanes() == InitialLanes && value == 0
    {
      this.pclmulqdq := pclmulqdq;
      this.braid := braid;
      acc := new Accumulator();
      value := 0;
    }

    /** `Crc32Fold::fold` (lines 40-48): the accumulator folds `src` seeded with
        `start`; the fallback folds `src` into `value` and ignores `start`. `panics`
        says whether the code as written panics (only the accumulator path can). */
    method Fold(src: seq<bv8>, addr16: nat, start: bv32) returns (ghost panics: bool)
      requires Valid() && addr16 < 16
      requires pclmulqdq ==> |src| >= 31 || start != Crc32InitialValue
      modifies this, acc.fold
      ensures Valid()
      ensures panics <==> pclmulqdq && FoldHelpPanics(|src|, addr16)
      ensures pclmulqdq ==> acc.Lanes() == FoldHelpLanes(old(acc.Lanes()), src, addr16, start, false)
      ensures pclmulqdq ==> value == old(value)
      ensures !pclmulqdq ==> value == braid(src, old(value)) && acc.Lanes() == old(acc.Lanes())
    {
      panics := false;
      if pclmulqdq {
        panics := acc.Fold(src, addr16, start);
        return;
      }
      value := braid(src, value);
    }

    /** `Crc32Fold::fold_copy` (lines 50-57): folds `src` and copies it to `dst`. The
        accumulator path needs `dst` exactly as long as `src`; the fallback copies into
        the front of a `dst` at least as long. `panics` is as in `Fold`. */
    method FoldCopy(dst: array<bv8>, src: seq<bv8>, addr16: nat) returns (ghost panics: bool)
      requires Valid() && addr16 < 16
      requires pclmulqdq ==> |src| >= 31 && dst.Length == |src|
      requires !pclmulqdq ==> |src| <= dst.Length
      requires dst as object != acc.fold
      modifies this, acc.fold, dst
      ensures Valid()
      ensures panics <==> pclmulqdq && FoldHelpPanics(|src|, addr16)
      ensures dst[..|src|] == src
      ensures pclmulqdq ==> acc.Lanes() == FoldHelpLanes(old(acc.Lanes()), src, addr16, Crc32InitialValue, true)
      ensures pclmulqdq ==> value == old(value)
      ensures !pclmulqdq ==> value == braid(src, old(value)) && acc.Lanes() == old(acc.Lanes())
      ensures !pclmulqdq ==> dst[|src|..] == old(dst[|src|..])
    {
      panics := false;
      if pclmulqdq {
        panics := acc.FoldCopy(dst, src, addr16);
        return;
      }
      value := braid(src, value);
      forall j | 0 <= j < |src| {
        dst[j] := src[j];
      }
    }

    /** `Crc32Fold::finish` (lines 59-66). */
    function Finish(): (crc: bv32)
      reads this, acc, acc.fold
      requires Valid()
      ensures pclmulqdq ==> crc == FinishLanes(acc.Lanes())
      ensures !pclmulqdq ==> crc == value
    {
      if pclmulqdq then FinishLanes(acc.Lanes()) else value
    }
  }

  // ---------------------------------------------------------------------------
  // Entry points

  /** `crc32(buf, start)` (lines 390-401) as written, for a `buf` whose address is
      `addr16` modulo 16: short input goes to the scalar CRC with `start`; longer input
      goes through `Crc32Fold`, whose fallback ignores `start`. The accumulator clause
      gives the lanes of the N-block loads of `Accumulator.Progress`; where `panics`
      holds, the code as written panics in `progress` instead of returning a CRC. */
  method Crc32AsWritten(pclmulqdq: bool, braid: ScalarCrc, buf: seq<bv8>, addr16: nat, start: bv32)
    returns (crc: bv32, ghost panics: bool)
    requires addr16 < 16
    ensures panics <==> |buf| >= 64 && pclmulqdq && FoldHelpPanics(|buf|, addr16)
    ensures |buf| < 64 ==> crc == braid(buf, start)
    ensures |buf| >= 64 && pclmulqdq ==> crc == FinishLanes(FoldHelpLanes(InitialLanes, buf, addr16, start, false))
    ensures |buf| >= 64 && !pclmulqdq ==> crc == braid(buf, Crc32InitialValue)
    ensures |buf| >= 64 && !pclmulqdq && braid(buf, start) != braid(buf, Crc32InitialValue) ==> crc != braid(buf, start)
  {
    if |buf| < 64 {
      return braid(buf, start), false;
    }
    var state := new Crc32Fold(pclmulqdq, braid);
    panics := state.Fold(buf, addr16, start);
    crc := state.Finish();
  }

  /** `crc32` with the scalar path taken whenever the accumulator is not used, so that
      the fallback for 64 bytes or more honours `start`. The accumulator path is as in
      `Crc32AsWritten`: there only `SeedBytesUsed(|buf|, addr16)` bytes of `start`
      reach the lanes (`SeedUse`). */
  method Crc32(pclmulqdq: bool, braid: ScalarCrc, buf: seq<bv8>, addr16: nat, start: bv32)
    returns (crc: bv32)
    requires addr16 < 16
    ensures |buf| < 64 || !pclmulqdq ==> crc == braid(buf, start)
    ensures |buf| >= 64 && pclmulqdq ==> crc == FinishLanes(FoldHelpLanes(InitialLanes, buf, addr16, start, false))
  {
    if |buf| < 64 || !pclmulqdq {
      return braid(buf, start);
    }
    var state := new Crc32Fold(pclmulqdq, braid);
    ghost var panicsAsWritten := state.Fold(buf, addr16, start);
    crc := state.Finish();
  }

  /** `crc32_copy(dst, buf)` (lines 403-413): the CRC of `buf` from a zero seed,
      with `buf` copied into `dst`, which must be as long as `buf` except on the
      fallback path for 64 bytes or more, where it may be longer and only its front is
      written. `panics` is as in `Crc32AsWritten`. */
  method Crc32Copy(pclmulqdq: bool, braid: ScalarCrc, dst: array<bv8>, buf: seq<bv8>, addr16: nat)
    returns (crc: bv32, ghost panics: bool)
    requires addr16 < 16
    requires if |buf| < 64 || pclmulqdq then dst.Length == |buf| else |buf| <= dst.Length
    modifies dst
    ensures dst[..|buf|] == buf
    ensures dst[|buf|..] == old(dst[|buf|..])
    ensures panics <==> |buf| >= 64 && pclmulqdq && FoldHelpPanics(|buf|, addr16)
    ensures |buf| < 64 || !pclmulqdq ==> crc == braid(buf, Crc32InitialValue)
    ensures |buf| >= 64 && pclmulqdq ==> crc == FinishLanes(FoldHelpLanes(InitialLanes, buf, addr16, Crc32InitialValue, false))
  {
    if |buf| < 64 {
      forall j | 0 <= j < |buf| {
        dst[j] := buf[j];
      }
      return braid(buf, Crc32InitialValue), false;
    }
    var state := new Crc32Fold(pclmulqdq, braid);
    panics := state.FoldCopy(dst, buf, addr16);
    crc := state.Finish();
    CopyFoldsLikeFold(InitialLanes, buf, addr16);
  }
}

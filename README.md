# CRC-32 folding engine of zlib-rs, in Dafny

This project models `zlib-rs/src/crc32_pclmulqdq.rs`. That file is the x86-64 CRC-32 engine of zlib-rs. It computes the reflected CRC-32 with polynomial 0xEDB88320, the CRC32 field of section 2.3.1 of RFC 1952. It uses the PCLMULQDQ folding scheme from Intel's "Fast CRC Computation for Generic Polynomials Using PCLMULQDQ":

- four 128-bit accumulator lanes absorb the input 16 bytes at a time, using carry-less multiplication by the constant `XMM_FOLD4`;
- `partial_fold` absorbs a fragment of 1..15 bytes, using the `PSHUFB_SHF_TABLE` shuffles;
- `finish` reduces the lanes to 32 bits with the constants `rk1`..`rk8`;
- the facade `Crc32Fold` picks between the accumulator and the scalar `crc32_braid`;
- the entry points are `crc32` and `crc32_copy`.

The project has three modules:

- `Intrinsics` (`Intrinsics.dfy`) models the vector intrinsics as pure functions over a 16-byte register `Reg`. The register is little-endian, so `reg([u32; 4])` puts element 0 in bytes 0..3. The intrinsics are:
  - `_mm_clmulepi64_si128` (`ClmulEpi64`): a carry-less 64×64 multiply on GF(2) coefficient sequences. Bit 0 of the immediate picks the qword of the first operand; bit 4 picks the qword of the second.
  - `_mm_shuffle_epi8` (`Shuffle`): a control byte with bit 7 set gives 0; otherwise it gives byte `ctl & 0xF`.
  - byte shifts, and, or, xor, and the dword extract.
- `Folding` (`Folding.dfy`) holds the pure semantics of the lanes:
  - `fold_step::<N>`, `step`, `progress::<N>`, `partial_fold` and `finish`, written as functions of the four lanes;
  - `FoldBlocks`, a block-by-block reference that folds one 16-byte block at a time;
  - `FoldHelpLanes`, what `fold_help` does to the lanes;
  - the lemmas that relate all of these.
- `Pclmulqdq` (`Pclmulqdq.dfy`) holds the stateful code:
  - the class `Accumulator`, whose lane array the methods update in place;
  - the class `Crc32Fold`;
  - the entry points.

  Each method is proved against the functions in `Folding`. The source pointer `src` is modelled as a sequence plus a position, and its address is given as `addr16`, the address modulo 16. `dst` is an array written in place. The CPU capability test is the boolean `pclmulqdq`, fixed when a `Crc32Fold` is built. `crc32_braid` is the function-valued parameter `braid`.

Three behaviours of the code a reader may not expect:

- A non-COPY input shorter than 16 bytes is still folded by `partial_fold` (lines 374-386). Only the seed is dropped, as `SeedUse` shows.
- The re-fold for `align_diff < 4` (lines 327-335) never runs, because line 324 has already cleared the seed. The model puts `assert false` in that branch. `SeedUse` and `SeedHighBytesDropped` prove the result: when `align_diff` is 1..3, only the low `align_diff` bytes of the seed reach the lanes.
- On the fallback path, `Crc32Fold::fold_copy` and `crc32_copy` for 64 bytes or more accept a `dst` longer than `src`. They write only its first `src.len()` bytes.

## Model

| member | source | states |
|---|---|---|
| `Intrinsics.RegOfDwords` | zlib-rs/src/crc32_pclmulqdq.rs:70-74 | `reg([u32; 4])` is a little-endian transmute: element i reads back as dword i |
| `Intrinsics.ClmulImmediates` | zlib-rs/src/crc32_pclmulqdq.rs:133-134 | for the immediates `0x00`, `0x11`, `0x01` and `0x10`, `_mm_clmulepi64_si128` multiplies the qwords that bit 0 (first operand) and bit 4 (second operand) select |
| `Intrinsics.RegOf` | zlib-rs/src/crc32_pclmulqdq.rs:70-74 | defines `reg`: the four dwords laid out little-endian, element 0 in bytes 0..3 |
| `Intrinsics.Dword` | zlib-rs/src/crc32_pclmulqdq.rs:180 | defines `_mm_extract_epi32`: dword i read little-endian from bytes `4i..4i+3` |
| `Intrinsics.ClmulEpi64` | zlib-rs/src/crc32_pclmulqdq.rs:132-133 | defines `_mm_clmulepi64_si128`: the GF(2) product of the two selected qwords, 128 bits |
| `Intrinsics.Shuffle` | zlib-rs/src/crc32_pclmulqdq.rs:219-235 | defines `_mm_shuffle_epi8`: byte j is 0 when bit 7 of control byte j is set, otherwise byte `ctl[j] & 0xF` of the operand |
| `Intrinsics.Slli` | zlib-rs/src/crc32_pclmulqdq.rs:159 | defines `_mm_slli_si128`: bytes move up by k, zeros enter at the bottom |
| `Intrinsics.Srli` | zlib-rs/src/crc32_pclmulqdq.rs:155 | defines `_mm_srli_si128`: bytes move down by k, zeros enter at the top |
| `Folding.StepHalves` | zlib-rs/src/crc32_pclmulqdq.rs:190-196 | `step(x)` is `clmul(hi(x), lo(XMM_FOLD4))` XOR `clmul(lo(x), hi(XMM_FOLD4))` |
| `Folding.Step` | zlib-rs/src/crc32_pclmulqdq.rs:190-196 | defines `step`: the XOR of the `0x01` and `0x10` products with `XMM_FOLD4` |
| `Folding.FoldStepLanes` | zlib-rs/src/crc32_pclmulqdq.rs:183-188 | defines `fold_step::<N>` on the lanes: new lane i is old lane i+N, or `step` of old lane i+N-4 |
| `Folding.FoldStepIsRepeatedSingle` | zlib-rs/src/crc32_pclmulqdq.rs:183-188 | `fold_step::<N>` gives the same lanes as N successive `fold_step::<1>` |
| `Folding.FoldBlockSlides` | zlib-rs/src/crc32_pclmulqdq.rs:183-196 | folding one whole block slides the 64-byte window of the lanes by 16 bytes: the block enters at the top and the departing lane comes back advanced by `step`, XORed into lane 3 |
| `Folding.TableEntry` | zlib-rs/src/crc32_pclmulqdq.rs:199-215 | entry `len-1` of `PSHUFB_SHF_TABLE` selects byte `j+len-16` in its top `len` positions and has bit 7 set (zero) below |
| `Folding.ShuffleIsShiftLeft` | zlib-rs/src/crc32_pclmulqdq.rs:217-223 | entry `len-1`, used as a pshufb control, is a byte shift left by `16-len` |
| `Folding.ShuffleIsShiftRight` | zlib-rs/src/crc32_pclmulqdq.rs:217-222 | the same entry XORed with `0x80` in every byte is a byte shift right by `len` |
| `Folding.PartialFoldLanes` | zlib-rs/src/crc32_pclmulqdq.rs:198-243 | defines `partial_fold` on the lanes as byte shifts: lanes 0..2 keep their bytes `len..15`, moved down, and take the low `len` bytes of the next lane on top; lane 3 does the same with the low `len` bytes of the part, and is XORed with `step` of lane 0's low `len` bytes moved to the top |
| `Folding.PartialFoldLowBytesOnly` | zlib-rs/src/crc32_pclmulqdq.rs:234-236 | only the low `len` bytes of `xmm_crc_part` affect the lanes after `partial_fold` |
| `Folding.PartialFoldSlides` | zlib-rs/src/crc32_pclmulqdq.rs:198-243 | `partial_fold` of `len` bytes slides the 64-byte window by `len` bytes, just as a whole-block fold slides it by 16 |
| `Folding.LoadBlocks` | zlib-rs/src/crc32_pclmulqdq.rs:252-255 | defines the load from `chunks_exact(16)`: `n` blocks, block i being the 16 source bytes at offset `16 i` |
| `Folding.SeedReg` | zlib-rs/src/crc32_pclmulqdq.rs:264 | defines `reg([init_crc, 0, 0, 0])`, as also built at line 322 |
| `Folding.Seeded` | zlib-rs/src/crc32_pclmulqdq.rs:263-267 | defines the seeding of lines 263-267 and 321-325: a nonzero seed is XORed into the block's low dword, a zero seed leaves it as it is |
| `Folding.ProgressLanes` | zlib-rs/src/crc32_pclmulqdq.rs:246-280 | defines `progress::<N>` on the lanes: the seed XORed into block 0, `fold_step::<N>`, then block i XORed into lane `i + 4 - N` |
| `Folding.ProgressSingle` | zlib-rs/src/crc32_pclmulqdq.rs:257-280 | `progress::<1>` is one block fold: lanes move down and lane 3 becomes `step(old lane 0)` XOR the seeded block |
| `Folding.ProgressPeel` | zlib-rs/src/crc32_pclmulqdq.rs:269-273 | `progress::<N>` is one single-block fold followed by `progress::<N-1>` on the remaining blocks, with the seed used only in the first |
| `Folding.ProgressIsBlockwise` | zlib-rs/src/crc32_pclmulqdq.rs:246-280 | `progress::<N>` gives the same lanes as N one-block folds, with the seed XORed into the first block only |
| `Folding.FoldBlocksAppend` | zlib-rs/src/crc32_pclmulqdq.rs:357-371 | folding two pieces in turn, the first a whole number of blocks, equals folding their concatenation; the seed is consumed by the first block |
| `Folding.FoldBlocksSplit` | zlib-rs/src/crc32_pclmulqdq.rs:357-371 | between two 16-aligned positions lie whole blocks, so the fold splits there |
| `Folding.BulkStep` | zlib-rs/src/crc32_pclmulqdq.rs:357-371 | each `progress` call of the bulk section extends the folded prefix by its N blocks; the seed is live only while nothing has been folded |
| `Folding.AlignedAdvance` | zlib-rs/src/crc32_pclmulqdq.rs:257 | advancing `src` by whole blocks keeps it 16-aligned |
| `Folding.WholeBlocks` | zlib-rs/src/crc32_pclmulqdq.rs:357-372 | the bulk section stops with fewer than 16 bytes left, having consumed the length rounded down to whole blocks |
| `Folding.NextChunk` | zlib-rs/src/crc32_pclmulqdq.rs:251-254 | call i of `next()` on `chunks_exact(16)` yields a chunk exactly when `16 (i+1)` bytes remain |
| `Folding.LoadChunksAsWritten` | zlib-rs/src/crc32_pclmulqdq.rs:252-255 | the `from_fn` load over `[_; 4]` as written: four `it.next().unwrap()` calls whatever N is; `None` (the panic) exactly when fewer than 64 bytes remain, otherwise the four chunks in order, as `LoadChunksSucceedsIff` and `LoadChunksAgree` prove |
| `Folding.LoadChunksSucceedsIff` | zlib-rs/src/crc32_pclmulqdq.rs:252-255 | the four `it.next().unwrap()` calls of `from_fn` over `[_; 4]` all succeed exactly when at least 64 bytes remain |
| `Folding.LoadChunksAgree` | zlib-rs/src/crc32_pclmulqdq.rs:252-255 | when the four-chunk load succeeds, its first N chunks are the N blocks the corrected load takes, so the two differ only where the code panics |
| `Folding.TailProgressPanics` | zlib-rs/src/crc32_pclmulqdq.rs:362-371 | with 16..63 bytes left, as at every `progress::<3>`, `<2>` and `<1>` call, the four-chunk load panics |
| `Folding.AlignedEightyBytesPanic` | zlib-rs/src/crc32_pclmulqdq.rs:252-257 | 80 aligned bytes: the first four-chunk load succeeds, the one after it panics, and the corrected one-block load reads bytes 64..80 |
| `Folding.FoldHelpPanics` | zlib-rs/src/crc32_pclmulqdq.rs:357-371 | defines when `fold_help` as written reaches a failing `unwrap`: `len >= 16 && (len - align_diff) % 64 >= 16` |
| `Folding.QuadsLeave` | zlib-rs/src/crc32_pclmulqdq.rs:357-360 | after k calls of `progress::<4>` from `align_diff`, the loop leaves `(len - align_diff) % 64` bytes |
| `Folding.FoldHelpPanicsAt` | zlib-rs/src/crc32_pclmulqdq.rs:357-371 | `fold_help` as written panics exactly when the loop leaves 16 or more bytes, that is when `(len - align_diff) % 64 >= 16` |
| `Folding.ShortNeverPanics` | zlib-rs/src/crc32_pclmulqdq.rs:303-313 | an input under 16 bytes never reaches `progress`, so it never panics there |
| `Folding.PanickingInputs` | zlib-rs/src/crc32_pclmulqdq.rs:423-450 | the 1024-byte test buffer panics at every unaligned address, 80 aligned bytes panic, 64 aligned bytes do not |
| `Folding.AlignDiff` | zlib-rs/src/crc32_pclmulqdq.rs:314-315 | `align_diff` is below 16 and is 0 exactly when the address is already aligned |
| `Folding.AlignDiffMasked` | zlib-rs/src/crc32_pclmulqdq.rs:314 | `align_diff` equals `(16 - addr % 16) & 0xF`, and `src` advanced by it is 16-aligned |
| `Folding.TailLanes` | zlib-rs/src/crc32_pclmulqdq.rs:374-386 | defines the final step: no change when no bytes are left, otherwise `partial_fold` of the zero-padded tail |
| `Folding.FoldHelpLanes` | zlib-rs/src/crc32_pclmulqdq.rs:283-387 | defines `fold_help` on the lanes: the aligning partial fold of the seeded head, the whole blocks one at a time, then the zero-padded tail |
| `Folding.CopyFoldsLikeFold` | zlib-rs/src/crc32_pclmulqdq.rs:95-101 | with a zero seed, `fold_help::<true>` and `fold_help::<false>` leave the same lanes |
| `Folding.SeedRegBytes` | zlib-rs/src/crc32_pclmulqdq.rs:264 | `reg([init_crc, 0, 0, 0])` holds the seed's bytes in bytes 0..3 and zero above |
| `Folding.SeededIsXorPrefix` | zlib-rs/src/crc32_pclmulqdq.rs:263-267 | seeding a block XORs the seed's four bytes into its first four bytes |
| `Folding.SeedUse` | zlib-rs/src/crc32_pclmulqdq.rs:303-341 | on the non-COPY path the seed acts as its first k bytes XORed into the input: k = 0 below 16 bytes, k = `align_diff` when that is 1..3, and k = 4 otherwise |
| `Folding.SeedHighBytesDropped` | zlib-rs/src/crc32_pclmulqdq.rs:321-335 | because the seed is cleared before the `align_diff < 4` test, two seeds that agree in their low `align_diff` bytes give the same lanes |
| `Folding.Mask1Keeps` | zlib-rs/src/crc32_pclmulqdq.rs:105-106 | `CRC_MASK1` keeps bytes 0..7 and clears bytes 8..15 |
| `Folding.Mask1Clears` | zlib-rs/src/crc32_pclmulqdq.rs:105-106 | a register ANDed with `CRC_MASK1` has bytes 8..11 and dwords 2 and 3 equal to zero and keeps its low 8 bytes |
| `Folding.Mask2Clears` | zlib-rs/src/crc32_pclmulqdq.rs:108-109 | a register ANDed with `CRC_MASK2` has dword 0 equal to zero and keeps bytes 4..15 |
| `Folding.Mask2Keeps` | zlib-rs/src/crc32_pclmulqdq.rs:108-109 | `CRC_MASK2` clears bytes 0..3 and keeps bytes 4..15 |
| `Folding.Combine` | zlib-rs/src/crc32_pclmulqdq.rs:133-136 | defines one k1 combine: the next lane XORed with both `RK1_RK2` products of the previous one |
| `Folding.FoldIntoTop` | zlib-rs/src/crc32_pclmulqdq.rs:125-146 | defines the k1 stage: lane 0 combined into lane 1, that into lane 2, that into lane 3 |
| `Folding.ReduceK5` | zlib-rs/src/crc32_pclmulqdq.rs:148-162 | after the k5 reduction, dword 0 is clear and dwords 1..3 are those of the `RK5_RK6` products |
| `Folding.MaskK7` | zlib-rs/src/crc32_pclmulqdq.rs:164-173 | the first k7 step keeps dwords 0 and 1 of the `RK7` product XOR its input and clears dwords 2 and 3 |
| `Folding.FinishReg` | zlib-rs/src/crc32_pclmulqdq.rs:125-178 | defines the register left before the extract: k1, k5, the masked k7 product, the `RK8` product XORed with it and the k5 result |
| `Folding.FinishLanes` | zlib-rs/src/crc32_pclmulqdq.rs:104-181 | defines `Accumulator::finish`: the complement of dword 2 of that register |
| `Folding.FinishDword2` | zlib-rs/src/crc32_pclmulqdq.rs:175-180 | `finish` returns the complement of dword 2 of the `RK8` product XORed with the k5 result; the masked register XORed in at line 177 adds nothing to that dword |
| `Pclmulqdq.Chunks` | zlib-rs/src/crc32_pclmulqdq.rs:260 | the `zip` with `dst.chunks_exact(16)` pairs at most N blocks with whole 16-byte chunks that fit in `dst` |
| `Pclmulqdq.StoreBlocks` | zlib-rs/src/crc32_pclmulqdq.rs:259-262 | the stored chunks of `dst` receive the source bytes verbatim; every other byte is unchanged |
| `Pclmulqdq.Accumulator.constructor` | zlib-rs/src/crc32_pclmulqdq.rs:86-93 | lane 0 is `[0x9db42487, 0, 0, 0]` and lanes 1..3 are zero |
| `Pclmulqdq.Accumulator.FoldStep` | zlib-rs/src/crc32_pclmulqdq.rs:183-188 | new lane i is old lane i+N when i+N < 4, otherwise `step(old lane i+N-4)` |
| `Pclmulqdq.Accumulator.PartialFold` | zlib-rs/src/crc32_pclmulqdq.rs:198-243 | the shuffle-table code gives lanes 0..2 `(lane_i >> len) \| (lane_{i+1} << (16-len))` and lane 3 `(lane_3 >> len) \| (part << (16-len))` XOR `step(lane_0 << (16-len))` |
| `Pclmulqdq.Accumulator.Progress` | zlib-rs/src/crc32_pclmulqdq.rs:246-280 | `src` advances by exactly `16 N` bytes; under COPY the N blocks go verbatim into as many whole 16-byte chunks of `dst` as fit, up to N, and `16 N` is returned, otherwise 0; a nonzero seed goes into the first block only when COPY is off and is then cleared; the lanes are `fold_step::<N>` with the blocks XORed into lanes `4-N..3` |
| `Pclmulqdq.Accumulator.XorBlocks` | zlib-rs/src/crc32_pclmulqdq.rs:271-273 | block i is XORed into lane `i + 4 - N`; lanes below `4 - N` are untouched |
| `Pclmulqdq.Accumulator.Fold` | zlib-rs/src/crc32_pclmulqdq.rs:95-97 | folds `src` with seed `start` and no copying; `panics` as in `FoldHelp` |
| `Pclmulqdq.Accumulator.FoldCopy` | zlib-rs/src/crc32_pclmulqdq.rs:99-101 | folds `src` with seed zero and leaves `dst` equal to `src`; `panics` as in `FoldHelp` |
| `Pclmulqdq.Accumulator.FoldHelp` | zlib-rs/src/crc32_pclmulqdq.rs:283-387 | needs `src.len() >= 31` or a nonzero seed, and `dst.len() == src.len()` under COPY; the lanes become the leading partial fold, then the whole blocks one at a time, then the tail's partial fold; under COPY `dst` ends equal to `src`; the ghost result `panics` holds exactly when the code as written panics, `FoldHelpPanics(src.len(), addr16)` |
| `Pclmulqdq.Accumulator.AlignHead` | zlib-rs/src/crc32_pclmulqdq.rs:314-341 | consumes exactly `align_diff` bytes through `partial_fold` of the seeded unaligned load, clears a nonzero seed when COPY is off, and under COPY stores the 16 loaded bytes into `dst` |
| `Pclmulqdq.Accumulator.FoldQuads` | zlib-rs/src/crc32_pclmulqdq.rs:357-360 | after k calls of `progress::<4>` the loop stops at `start + 64 k`, aligned, with fewer than 64 bytes left; it folds exactly the bytes it passed and keeps `dst` level with `src` |
| `Pclmulqdq.Accumulator.ExtendPrefix` | zlib-rs/src/crc32_pclmulqdq.rs:357-371 | one `progress::<N>` call extends the folded prefix and the copied prefix of `dst` by the same `16 N` bytes |
| `Pclmulqdq.Accumulator.FoldRemainingBlocks` | zlib-rs/src/crc32_pclmulqdq.rs:362-371 | the single three-, two- or one-block `progress` leaves fewer than 16 bytes, aligned; it is called exactly when 16 or more bytes are left, and then the four-chunk load as written fails (`panics`) |
| `Pclmulqdq.Accumulator.FoldTail` | zlib-rs/src/crc32_pclmulqdq.rs:374-386 | the last `len < 16` bytes go through `partial_fold` zero-padded, whatever the rest of `xmm_crc_part` held; under COPY they are stored into the end of `dst` |
| `Pclmulqdq.Crc32Fold.constructor` | zlib-rs/src/crc32_pclmulqdq.rs:26-32 | `value` is 0 and the accumulator holds its initial lanes |
| `Pclmulqdq.Crc32Fold.Fold` | zlib-rs/src/crc32_pclmulqdq.rs:40-48 | the accumulator path folds `src` with seed `start`; the fallback ignores `start` and sets `value = crc32_braid(src, value)`; only the accumulator path can panic |
| `Pclmulqdq.Crc32Fold.FoldCopy` | zlib-rs/src/crc32_pclmulqdq.rs:50-58 | as `Fold` with seed zero; the fallback writes only `dst[..src.len()]` and leaves the rest of `dst` unchanged |
| `Pclmulqdq.Crc32Fold.Finish` | zlib-rs/src/crc32_pclmulqdq.rs:60-67 | the accumulator path returns the reduction of the lanes; the fallback returns `value` |
| `Pclmulqdq.Crc32AsWritten` | zlib-rs/src/crc32_pclmulqdq.rs:390-400 | below 64 bytes the result is `crc32_braid(buf, start)`; at 64 or more on the fallback it is `crc32_braid(buf, 0)`, so `start` is lost; on the accumulator path the ghost `panics` holds exactly when the code panics (`FoldHelpPanics`), and the CRC given is that of the corrected loads |
| `Pclmulqdq.Crc32` | zlib-rs/src/crc32_pclmulqdq.rs:390-400 | the scalar path, now also taken by the fallback for 64 bytes or more, gives `crc32_braid(buf, start)`; the accumulator path folds with seed `start`, of which only `SeedBytesUsed(buf.len(), addr16)` bytes reach the lanes (`SeedUse`) |
| `Pclmulqdq.Crc32Copy` | zlib-rs/src/crc32_pclmulqdq.rs:402-413 | `dst[..buf.len()]` receives `buf` and the rest of a longer fallback `dst` is unchanged; the result is `crc32_braid(buf, 0)` on the scalar paths and, on the accumulator path, the reduction of the same lanes that `crc32(buf, 0)` folds; `panics` as in `Crc32AsWritten` |

## Left out

- `is_pclmulqdq` (lines 34-38) probes the CPU. It is the constructor argument `pclmulqdq`, chosen once per `Crc32Fold`.
- `crc32_braid` (lines 415-417) delegates to `crate::crc32`, which is not part of this model. It is the function-valued parameter `braid` of type `(seq<bv8>, bv32) -> bv32`, with no properties assumed.
- The intrinsics are pure functions of their operands. The silicon, its timing and the floating-point XOR alternative (lines 238-241) are not modelled.
- Raw pointers, `unsafe`, `copy_nonoverlapping` and the aligned-load requirement are replaced by positions into `src` and the parameter `addr16`, the address of `src` modulo 16. The model tracks that each bulk load position is 16-aligned, but it does not model a fault on a misaligned load.
- The commented-out VPCLMULQDQ path (lines 343-355), the unused `Align32` (lines 14-16) and the `Debug` derives are not modelled.
- The test module (lines 419-478) checks against the external `crc32fast`. The model does not prove that the folded result equals the reflected CRC-32 over GF(2). Neither `crc32(v, start)` equal to the reference CRC, nor chunking invariance across several `fold` calls, is proved.
- `Crc32Fold::finish` consumes `self`. The model's `Finish` is a function that reads the object, so use-after-finish is not ruled out.
- Pclmulqdq.Accumulator.Progress: takes N blocks from `src`, not the four the code loads. The four-chunk load is `Folding.LoadChunksAsWritten`; see Findings.
- Pclmulqdq.Accumulator.FoldRemainingBlocks: folds the remaining one to three blocks, where the code panics in `progress` every time it gets here. Its ghost result `panics` says when that is.
- Pclmulqdq.Accumulator.FoldHelp: gives the lanes of the corrected loads also on the inputs where the code panics. Those inputs are `FoldHelpPanics`: 16 bytes or more with `(len - align_diff) % 64 >= 16`, for example 80 aligned bytes or the 1024-byte test buffer at any unaligned address. The same holds for `Accumulator.Fold`, `Accumulator.FoldCopy`, `Crc32Fold.Fold`, `Crc32Fold.FoldCopy`, `Crc32AsWritten` and `Crc32Copy`, whose ghost result `panics` marks those inputs.
- Panics on misuse are preconditions, not modelled outcomes. These are the `assert!` at line 297, the `assert_eq!` at line 300, the `dst[..src.len()]` slice at line 57 and `copy_from_slice` at line 406. They are `requires` clauses of `FoldHelp`, `Accumulator.Fold`, `Accumulator.FoldCopy`, `Crc32Fold.Fold`, `Crc32Fold.FoldCopy` and `Crc32Copy`.
- Pclmulqdq.Crc32: passes `start` to the scalar CRC on the fallback path for 64 bytes or more, which the code does not do. The code as written is `Pclmulqdq.Crc32AsWritten`; see Findings.

## Findings

| source | as written | input that shows it | evidently intended | confidence | as-written member | corrected member |
|---|---|---|---|---|---|---|
| zlib-rs/src/crc32_pclmulqdq.rs:252-255 | `progress::<N>` builds `[_; 4]` with `from_fn`, which calls `it.next().unwrap()` four times whatever N is. It panics unless 64 bytes remain, so every `progress::<3>`, `<2>` and `<1>` call at lines 362-371 panics. | 80 bytes at a 16-aligned address on the accumulator path: after one `progress::<4>`, 16 bytes remain and `progress::<1>` unwraps a missing second chunk | load only the N blocks that `progress::<N>` folds | high; not executed | `Folding.LoadChunksAsWritten` (with `Folding.LoadChunksSucceedsIff`, `Folding.TailProgressPanics`, `Folding.AlignedEightyBytesPanic`, `Folding.FoldHelpPanicsAt`) | `Pclmulqdq.Accumulator.Progress` (with `Folding.ProgressIsBlockwise`) |
| zlib-rs/src/crc32_pclmulqdq.rs:390-400 | for 64 bytes or more, `crc32` goes through `Crc32Fold::fold`, whose fallback (line 47) ignores `start` | any 64-byte buffer with `start = 1` on a CPU without PCLMULQDQ: the result is `crc32_braid(buf, 0)`, not `crc32_braid(buf, 1)` | `crc32(v, start)` equal to the CRC-32 of `v` seeded with `start`, as the property test at lines 453-462 asserts | medium; not executed | `Pclmulqdq.Crc32AsWritten` | `Pclmulqdq.Crc32` |

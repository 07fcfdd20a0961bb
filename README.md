# SIMDanigans search primitives in Dafny

SIMDanigans is a small Rust crate of linear-search primitives over read-only
slices. Each has a scalar baseline and "SIMD" variants built on `std::simd`.
This project models three of its source files and proves what they compute:

- **src/find.rs**
  - `simple_find` is a fold over `enumerate()`.
  - `simd_find::<T, LANES>` cuts the slice into `LANES`-wide chunks with `as_chunks` and compares each chunk with a splatted needle. It turns the lane mask into bytes (`to_int().cast::<u8>()`), reads 16 bytes at a time as a little-endian `u128`, and decodes `trailing_zeros / 8`. A chunk narrower than 16 lanes is decoded through a zero-padded `bar`. After the chunks comes a scalar loop over the remainder.
  - `simd_find_16` does the same with a 16-lane bit mask: `any`, then `to_bitmask().trailing_zeros()`.
- **src/lib.rs**: the crate root's older `simd_find`.
  - It asserts that the byte mask splits into whole 16-byte pieces.
  - It indexes a chunk hit as `i * LANES + j * 16 + tz / 8`.
  - It returns a remainder hit as its offset within the remainder.
  - Its `simple_find` is the same text as find.rs's, so both are modelled by `Find.SimpleFind`.
- **src/argmin.rs**: `argmin`, a running-index loop with strict `<`, and `argmin_fold`, built on `enumerate().min_by_key(..)`.

The model has five modules:

- `Wrappers` holds `Option`.
- `Simd` models the slice and vector operations as functions on sequences: `as_chunks`, `splat`, `lanes_eq`, the byte mask, `to_bitmask`, `any`, `u128::from_le_bytes` and `trailing_zeros`. It also proves the decoding lemmas.
- `Find`, `Lib` and `Argmin` follow the three source files.

Every search is compared with `Find.Position`, the `iter().position(|&e| e == x)` that the tests use. The loops are Dafny methods with loop invariants: the chunk loops, the mask-piece loop, the loop that fills `bar` (an `array<byte>` of 16 zeros), the remainder loops and `argmin`. The folds are recursive functions.

The crate's tests compare every search with `iter().position`, which returns the first match. Not every search agrees with it:

- `simple_find` returns the last match (src/find.rs:5-10). Its tests use inputs where the needle occurs once.
- find.rs's `simd_find` misreports matches past the first 16 lanes of a 32- or 64-lane chunk (src/find.rs:29).
- lib.rs's `simd_find` panics when 16 does not divide `LANES` and a full chunk exists (src/lib.rs:25).
- lib.rs's `simd_find` returns a remainder match as its offset within the remainder (src/lib.rs:36).

The model states what the code does in each case, and "## Findings" gives the inputs.

## Model

| member | source | states |
|---|---|---|
| Simd.FullChunks | src/find.rs:18 | the number `k` of full chunks of width `n` in `len` elements satisfies `k*n <= len < k*n + n` |
| Simd.AsChunks | src/find.rs:18 | `as_chunks`: `len / n` chunks (via `FullChunks`); chunk `i` is `a[i*n .. i*n + n]`; the remainder is everything after the chunks and is shorter than `n` |
| Simd.ChunkCount | src/find.rs:18 | there are exactly `|a| / n` full chunks |
| Simd.AsChunksCovers | src/find.rs:18 | the chunks concatenated in order, followed by the remainder, give back the slice |
| Simd.RemainderAt | src/find.rs:43-46 | remainder element `i` is slice element `chunks.len() * n + i` |
| Simd.Splat | src/find.rs:21 | `Simd::splat`: `lanes` lanes, each holding `x` |
| Simd.LanesEq | src/find.rs:23 | `lanes_eq`: one lane per lane of the inputs, true exactly where they agree |
| Simd.ToInt | src/find.rs:23 | `to_int`: each lane is -1 or 0, and -1 exactly where the mask is set |
| Simd.CastU8 | src/find.rs:23 | `cast::<u8>()`: each byte is congruent to its lane modulo 256, the two's complement truncation |
| Simd.Any | src/find.rs:61 | `any`, the lanes or-ed together, is false exactly when every lane is clear |
| Simd.ToBitMask | src/find.rs:62 | `to_bitmask` of `|m|` lanes fits in `|m|` bits (a `u16` for 16 lanes); by definition lane `l` is bit `l` |
| Simd.FromLeBytes | src/find.rs:27 | `u128::from_le_bytes`: `k` bytes fit in `8k` bits, 128 for a 16-byte piece; by definition byte `k` weighs 256^k |
| Simd.TrailingZeros | src/find.rs:29 | `trailing_zeros` of a `width`-bit integer is at most `width`, and `width` for zero |
| Simd.ByteMaskLanes | src/find.rs:23 | `to_int().cast::<u8>()` of a lane mask is 0xFF in the true lanes and 0x00 in the false ones |
| Simd.DecodeLowestByte | src/find.rs:27-29 | `from_le_bytes` is zero iff every byte is zero; otherwise `trailing_zeros / 8` is the index of the lowest nonzero byte |
| Simd.DecodeLowestLane | src/find.rs:60-62 | `to_bitmask` is zero iff no lane is set; otherwise its `trailing_zeros` is the lowest set lane |
| Find.Position | src/find.rs:99 | `Some(p)`: `a[p] == x` and no earlier element is `x`; `None` iff `x` does not occur |
| Find.PositionIs | src/find.rs:99 | the first index holding `x` is determined by those facts |
| Find.FoldFind | src/find.rs:5-10 | the fold from index `i`: the accumulator is kept when nothing after `i` matches; otherwise the result is the last match after `i` |
| Find.SimpleFind | src/find.rs:4-11 | `None` iff `x` does not occur, including on an empty slice; otherwise the LAST index holding `x` |
| Find.SimpleFindUnique | src/find.rs:93-101 | when `x` occurs at most once, `simple_find` equals `position` |
| Find.SimpleFindReturnsLast | src/find.rs:5-10 | on `[1, 1]` `simple_find` answers 1 where `position` answers 0 |
| Find.FoldFindFirst | src/find.rs:5-10 | with the step that keeps an existing accumulator, the fold returns the first match after `i` |
| Find.SimpleFindFirst | src/find.rs:4-11 | the corrected fold equals `position` on every input |
| Find.AsWrittenIndex | src/find.rs:29 | the index find.rs reports for a first match at `p`: never below `p`, so every misreport points past the true index |
| Find.AsWrittenIndexNarrow | src/find.rs:29 | with at most 16 lanes, the index formula of find.rs reports every match at its true index |
| Find.AsWrittenIndexInChunk | src/find.rs:29 | lane `l` of full chunk `i` is reported at `(i + l/16) * LANES + l % 16` |
| Find.AsWrittenIndexInPiece | src/find.rs:29 | byte `t` of mask piece `j` of chunk `i` is reported at `(i + j) * LANES + t` |
| Find.AsWrittenIndexInRemainder | src/find.rs:43-46 | a match in the remainder is reported at its true index `chunks.len() * LANES + i` |
| Find.FirstAtPosition | src/find.rs:99 | "`p` holds `x` and nothing before it does" is equivalent to `position == Some(p)` |
| Find.ChunkClear | src/find.rs:19-41 | for a slice of `a` at `base` with no `x` before `base`: no match in the slice clears `a` up to its end, and a match makes `base` plus the in-slice position the first `x` of `a` |
| Find.ChunkIsSlice | src/find.rs:19-20 | full chunk `i` has `LANES` elements and holds `a[i*LANES + k]` at `k` |
| Find.FullChunkClear | src/find.rs:19-41 | `ChunkClear` for full chunk `i` |
| Find.RemainderClear | src/find.rs:43-47 | `ChunkClear` for the remainder |
| Find.EqMaskLanes | src/find.rs:21-23 | the byte mask of `needle.lanes_eq(chunk)` is nonzero exactly in the lanes holding `x` |
| Find.PieceDecode | src/find.rs:26-30 | 16-byte piece `j` read as `u128`: zero clears its lanes; nonzero gives `trailing_zeros / 8` as the offset of the first lane holding `x` |
| Find.PaddedDecode | src/find.rs:33-38 | the zero-padded `bar` read as `u128`: zero iff no lane holds `x`, else `trailing_zeros / 8` is the first such lane |
| Find.ScanChunk | src/find.rs:20-40 | a chunk yields no hit iff it has no `x`; a hit's `piece * 16 + offset` is its first `x`, with `offset < 16` |
| Find.ScanPieces | src/find.rs:25-31 | the loop over 16-byte mask pieces finds the first lane holding `x`, or reports there is none |
| Find.ScanPadded | src/find.rs:32-39 | copying the mask into a zeroed 16-byte `bar` and decoding it finds the first lane holding `x` (piece 0), or none |
| Find.ScanRemainder | src/find.rs:43-47 | the remainder loop returns `position` of `x` in the remainder |
| Find.ScanTail | src/find.rs:43-47 | with no `x` in the full chunks, the remainder loop yields the offset, after the chunks, of the slice's first `x`, or clears the whole slice |
| Find.ProbeChunk | src/find.rs:19-40 | one chunk of the loop: its hit is the slice's first `x`, at `i*LANES + piece*16 + offset`; or the slice is clear up to the chunk's end |
| Find.ScanChunks | src/find.rs:19-41 | the chunk loop stops at the first chunk holding `x` with its decoded piece and offset, or finds no `x` in any full chunk |
| Find.SimdFind | src/find.rs:14-50 | `None` iff `x` does not occur; otherwise the index given by the as-written formula for the first match; equal to `position` whenever `LANES <= 16` |
| Find.SimdFindCorrected | src/find.rs:14-50 | with the chunk index `i*LANES + j*16 + tz/8`, the result equals `position` for every supported `LANES` |
| Find.BitMaskDecode | src/find.rs:60-62 | `mask.any()` iff the chunk holds `x`; then `to_bitmask().trailing_zeros()` is its first `x` |
| Find.FirstTruePosition | src/find.rs:60-62 | a lane mask set exactly where the chunk holds `x` has its lowest set lane at `position` |
| Find.ProbeChunk16 | src/find.rs:56-63 | one chunk of `simd_find_16`: when `any`, `i*16 + trailing_zeros` is the slice's first `x`; otherwise the slice is clear up to the chunk's end |
| Find.ScanChunks16 | src/find.rs:55-64 | the chunk loop of `simd_find_16` returns the slice's first `x`, or finds none in the full chunks |
| Find.SimdFind16 | src/find.rs:53-73 | `simd_find_16` equals `position` on every input |
| Find.OneAtPosition | src/find.rs:80-83 | the first 1 of such an input is at `p` |
| Find.SimpleFindTest | src/find.rs:93-101 | `simple_find_test`: `simple_find` and `position` both give `Some(5)` on `TEST_CASE` |
| Find.SimdFindTest | src/find.rs:103-111 | `simd_find_test`: `simd_find::<_, 16>` gives `Some(5)` |
| Find.SimdSmolFindTest | src/find.rs:113-121 | `simd_smolfind_test`: `simd_find_16` gives `Some(5)` |
| Find.SimdFind4Random | src/find.rs:123-130 | `simd_find_4_random`: `simd_find::<_, 4>` equals `position` on every 33-element slice |
| Find.SimdFind16Random | src/find.rs:132-139 | `simd_find_16_random`: the same with 16 lanes |
| Find.SimdSmolFindRandom | src/find.rs:141-148 | `simd_smolfind_random`: the same for `simd_find_16` |
| Find.WideIndexMisreported | src/find.rs:29 | with 32 lanes and 32 elements, a first match at 20 is reported at 36 |
| Find.WideCase | src/find.rs:29 | a 32-element slice whose first 1 is at 20 exists |
| Find.SimdFindWideMisreports | src/find.rs:14-50 | `simd_find::<_, 32>` on any 32-element slice whose first `x` is at 20 returns 36, an index past the end |
| Lib.MaskPieces | src/lib.rs:23-25 | the byte mask of `LANES` lanes splits into 16-byte pieces with no remainder iff 16 divides `LANES` |
| Lib.ScanChunk | src/lib.rs:20-31 | one chunk panics iff 16 does not divide `LANES`; otherwise its hit is the chunk's first `x`, `j * 16 + tz / 8`, or none iff the chunk has no `x` |
| Lib.ProbeChunk | src/lib.rs:19-31 | one chunk of the loop: a panic, or the slice's first `x` at `i*LANES + j*16 + tz/8`, or the slice clear up to the chunk's end |
| Lib.ScanChunks | src/lib.rs:18-32 | the loop panics iff there is a full chunk and 16 does not divide `LANES`; otherwise it finds the first `x` among the full chunks, or none |
| Lib.SimdFind | src/lib.rs:14-41 | panics iff there is a full chunk and 16 does not divide `LANES`; otherwise `None` iff `x` does not occur, the true index for a match in the full chunks, and the index minus `len / LANES * LANES` for a match in the remainder |
| Lib.SimdFindCorrected | src/lib.rs:14-41 | with the remainder hit at `chunks.len() * LANES + i`, every returned result equals `position` |
| Lib.SimdFindTest | src/lib.rs:71-79 | `simd_find_test`: `simd_find::<_, 16>` returns `Some(5)` on `TEST_CASE` |
| Lib.SimdFind4Of10 | src/lib.rs:81-88 | `simd_find_4_10`: with 4 lanes every 10-element slice panics at the assert |
| Lib.SimdFind16Of10 | src/lib.rs:90-97 | `simd_find_16_10`: with 16 lanes a 10-element slice is all remainder and the result equals `position` |
| Lib.RemainderCase | src/lib.rs:34-38 | a 17-element slice whose first 1 is at 16 exists |
| Lib.SimdFindRemainderMisreports | src/lib.rs:34-38 | `simd_find::<_, 16>` on any 17-element slice whose first `x` is at 16 returns `Some(0)` |
| Argmin.FirstMinUnique | src/argmin.rs:8 | a slice has at most one first minimum |
| Argmin.Argmin | src/argmin.rs:2-13 | `None` iff the slice is empty; otherwise the index of a minimum with no earlier index holding as small a value; equal to `argmin_fold` |
| Argmin.MinByKey | src/argmin.rs:20 | `min_by_key` from index `i` with the best index so far: the result is the first minimum of the whole slice |
| Argmin.ArgminFold | src/argmin.rs:16-22 | `None` iff the slice is empty; otherwise the first index of the minimum |
| Argmin.ArgminFoldIs | src/argmin.rs:16-22 | whenever `k` is the first minimum, `argmin_fold` returns `Some(k)` |
| Argmin.TestAnswer | src/argmin.rs:28-32 | index 19 (`TEST_ANS`) is the first minimum of `TEST_CASE` |
| Argmin.BasicFoldTest | src/argmin.rs:44-47 | `basic_fold_test`: `argmin_fold` returns `Some(19)` |
| Argmin.BasicTest | src/argmin.rs:39-42 | `basic_test`: `argmin` returns `Some(19)` |
| Argmin.EmptyTest | src/argmin.rs:34-37 | `empty_test`: `argmin(&[])` is `None` |

## Left out

- benches/bench_find.rs and benches/bench_find_16.rs: a timing harness with no logic of its own.
- Randomness in tests: `prepare_input` shuffles with `thread_rng`. The random tests are stated for every slice of the test's length (`Find.SimdFind4Random` and its siblings, `Lib.SimdFind4Of10`, `Lib.SimdFind16Of10`), which includes every shuffle.
- Hardware: `std::simd` vectors are sequences, and `from_array`/`to_array` are the identity. `LaneCount<LANES>: SupportedLaneCount` is the predicate `SupportedLanes` (1, 2, 4, 8, 16, 32, 64).
- Element types: `T: SimdElement + Eq` is any Dafny type with equality. The `u32` of `argmin` is a newtype over `0 .. 2^32`.
- Integer widths: `usize` indices are `nat`, and so are the `u128` of the byte mask and the `u16` of the bit mask. Index arithmetic cannot overflow for a slice that fits in memory, so no wrap-around is modelled. `trailing_zeros` takes the bit width explicitly, so that zero has as many trailing zeros as bits.
- Panics: lib.rs's `assert!` is modelled as the result `Lib.Outcome.Panicked`, not as unwinding.
- Products: `i * LANES` is written as the repeated sum `Simd.Offset`. `Simd.OffsetIsProduct` proves the two equal.
- Crate wiring: the crate's feature attributes and module declarations are not modelled. src/lib.rs does not declare `find` or `argmin`.

## Findings

| source | as written | input that shows it | evidently intended | confidence | as-written member | corrected member |
|---|---|---|---|---|---|---|
| src/find.rs:5-10 | the fold overwrites `acc` at every match, so `simple_find` returns the last matching index | `[1, 1]` with `x = 1`: `Some(1)`, while `position` gives `Some(0)` | the first match, which is what its test compares it with (`position`) | medium; not executed | Find.SimpleFindReturnsLast | Find.SimpleFindFirst |
| src/find.rs:29 | a hit in 16-byte piece `j` of chunk `i` is reported at `(i + j) * LANES + tz / 8` | `LANES = 32`, a 32-element slice whose first `x` is at 20: `Some(36)`, past the end | `i * LANES + j * 16 + tz / 8`, as src/lib.rs:29 has it | high; not executed | Find.SimdFindWideMisreports | Find.SimdFindCorrected |
| src/lib.rs:36 | a remainder hit returns `Some(i)`, its offset within the remainder | `LANES = 16`, a 17-element slice whose first `x` is at 16: `Some(0)` | `Some(chunks.len() * LANES + i)`, as src/find.rs:45 has it | high; not executed | Lib.SimdFindRemainderMisreports | Lib.SimdFindCorrected |
| src/lib.rs:25 | `assert!(remainder.is_empty())` on the byte mask panics whenever 16 does not divide `LANES` and a full chunk exists | `LANES = 4`, any 10-element slice (the test `simd_find_4_10`): panic | decode narrow chunks through a zero-padded 16-byte buffer, as src/find.rs:33-38 does | high; not executed | Lib.SimdFind4Of10 | Find.SimdFindCorrected |

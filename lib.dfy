/**
 * src/lib.rs: the crate root's own `simd_find`.  Its chunk index is
 * `i * LANES + j * 16 + tz / 8`, it asserts that the byte mask of a chunk
 * is whole 16-byte pieces, and a match in the remainder is returned as its
 * offset within the remainder.  (Its `simple_find` is the one of find.rs,
 * `Find.SimpleFind`.)
 */
module Lib {
  import opened Wrappers
  import opened Simd
  import opened Find

  /** What a call comes to: the `assert!` panics, or an index is returned. */
  datatype Outcome = Panicked | Returned(index: Option<nat>)

  /** The byte mask of `lanes` lanes cuts into 16-byte pieces without remainder exactly when 16 divides `lanes`. */
  lemma MaskPieces(mask: seq<byte>, lanes: nat)
    requires SupportedLanes(lanes) && |mask| == lanes
    ensures |AsChunks(mask, 16).1| == 0 <==> lanes % 16 == 0
  {
    OffsetIsProduct(|AsChunks(mask, 16).0|, 16);
  }

  /**
   * The chunk loop of lib.rs: it panics at the first full chunk when 16 does
   * not divide `LANES`; otherwise it stops at the first chunk holding `x`,
   * at its true index, or finds no `x` in the full chunks.
   */
  method ScanChunks<T(==)>(a: seq<T>, x: T, lanes: nat) returns (panicked: bool, hit: Option<nat>)
    requires SupportedLanes(lanes)
    ensures panicked <==> lanes % 16 != 0 && lanes <= |a|
    ensures !panicked && hit.Some? ==> FirstAt(a, x, hit.value) && hit.value < Offset(FullChunks(|a|, lanes), lanes)
    ensures !panicked && hit.None? ==> ClearBefore(a, x, Offset(FullChunks(|a|, lanes), lanes))
  {
    var (chunks, remainder) := AsChunks(a, lanes);
    for i := 0 to |chunks|
      invariant ClearBefore(a, x, Offset(i, lanes))
      invariant i > 0 ==> lanes % 16 == 0
    {
      var p, h := ProbeChunk(a, x, lanes, i, chunks[i]);
      if p {
        return true, None;
      }
      if h.Some? {
        OffsetFits(i, |chunks|, lanes);
        // `i * LANES + j * chunk.len() + tz / 8`
        return false, Some(Offset(i, lanes) + h.value);
      }
    }
    return false, None;
  }

  /**
   * One turn of the chunk loop of lib.rs: the chunk's scan either panics, or
   * finds the first `x` of `a` in chunk `i`, or leaves `a` clear of `x` up to
   * the chunk's end.
   */
  method ProbeChunk<T(==)>(a: seq<T>, x: T, lanes: nat, i: nat, chunk: seq<T>) returns (panicked: bool, h: Option<nat>)
    requires SupportedLanes(lanes) && Offset(i, lanes) + lanes <= |a| && chunk == Chunk(a, lanes, i)
    requires ClearBefore(a, x, Offset(i, lanes))
    ensures panicked <==> lanes % 16 != 0
    ensures !panicked && h.None? ==> ClearBefore(a, x, Offset(i + 1, lanes))
    ensures !panicked && h.Some? ==> h.value < lanes && FirstAt(a, x, Offset(i, lanes) + h.value)
  {
    FullChunkClear(a, x, lanes, i);
    panicked, h := ScanChunk(chunk, x);
  }

  /**
   * The body of lib.rs's chunk loop: the byte mask of the lanes equal to
   * `x`, cut into 16-byte pieces; the `assert!` panics when a piece is left
   * over, and otherwise the pieces are decoded in order.  The hit is the
   * first lane holding `x`, `j * 16 + tz / 8`.
   */
  method ScanChunk<T(==)>(chunk: seq<T>, x: T) returns (panicked: bool, h: Option<nat>)
    requires SupportedLanes(|chunk|)
    ensures panicked <==> |chunk| % 16 != 0
    ensures !panicked ==> (h.None? <==> Position(chunk, x).None?)
    ensures !panicked && h.Some? ==> h.value == Position(chunk, x).value
  {
    var needle := Splat(x, |chunk|);
    var mask := CastU8(ToInt(LanesEq(needle, chunk)));
    EqMaskLanes(x, chunk);
    var (pieces, rest) := AsChunks(mask, 16);
    MaskPieces(mask, |chunk|);
    if |rest| != 0 {
      // `assert!(remainder.is_empty())`
      return true, None;
    }
    var hit := ScanPieces(chunk, x, mask, pieces);
    if hit.Some? {
      return false, Some(hit.value.piece * 16 + hit.value.offset);
    }
    return false, None;
  }

  /**
   * `simd_find::<T, LANES>` of lib.rs as written: a panic when 16 does not
   * divide `LANES` and there is a full chunk; otherwise the first index
   * holding `x` when it lies in a full chunk, and its offset from the end
   * of the full chunks when it lies in the remainder.
   */
  method SimdFind<T(==)>(a: seq<T>, x: T, lanes: nat) returns (r: Outcome)
    requires SupportedLanes(lanes)
    ensures r.Panicked? <==> lanes % 16 != 0 && lanes <= |a|
    ensures r.Returned? ==> (r.index.None? <==> Position(a, x).None?)
    ensures r.Returned? && Position(a, x).Some? ==>
      var covered := |a| / lanes * lanes;
      r.index.Some? &&
      (Position(a, x).value < covered ==> r.index.value == Position(a, x).value) &&
      (Position(a, x).value >= covered ==> r.index.value == Position(a, x).value - covered)
  {
    // `chunks.len() * LANES`, the repeated sum the loops work with
    ChunkCount(a, lanes);
    OffsetIsProduct(FullChunks(|a|, lanes), lanes);
    var panicked, hit := ScanChunks(a, x, lanes);
    if panicked {
      return Panicked;
    }
    if hit.Some? {
      FirstAtPosition(a, x, hit.value);
      return Returned(hit);
    }
    var k := ScanTail(a, x, lanes);
    if k.Some? {
      FirstAtPosition(a, x, Offset(FullChunks(|a|, lanes), lanes) + k.value);
    }
    // `Some(i)`: the offset within the remainder
    return Returned(k);
  }

  /** lib.rs's `simd_find` with the remainder hit offset by the full chunks, `chunks.len() * LANES + i`, as find.rs has it. */
  method SimdFindCorrected<T(==)>(a: seq<T>, x: T, lanes: nat) returns (r: Outcome)
    requires SupportedLanes(lanes)
    ensures r.Panicked? <==> lanes % 16 != 0 && lanes <= |a|
    ensures r.Returned? ==> r.index == Position(a, x)
  {
    var panicked, hit := ScanChunks(a, x, lanes);
    if panicked {
      return Panicked;
    }
    if hit.Some? {
      FirstAtPosition(a, x, hit.value);
      return Returned(hit);
    }
    var k := ScanTail(a, x, lanes);
    if k.Some? {
      var p := Offset(FullChunks(|a|, lanes), lanes) + k.value;
      FirstAtPosition(a, x, p);
      return Returned(Some(p));
    }
    return Returned(None);
  }

  /** `simd_find_test`: with 16 lanes the 1 of `TEST_CASE` is found at 5. */
  method SimdFindTest() returns (r: Outcome)
    ensures r.Returned? && r.index == Some(5)
  {
    OneAtPosition(32, 5);
    r := SimdFind(TestCase(), 1, 16);
  }

  /** `simd_find_4_10`: with 4 lanes every 10-element input panics at the `assert!`. */
  method SimdFind4Of10<T(==)>(a: seq<T>, x: T) returns (r: Outcome)
    requires |a| == 10
    ensures r.Panicked?
  {
    r := SimdFind(a, x, 4);
  }

  /** `simd_find_16_10`: with 16 lanes a 10-element input is all remainder, so the result is `position`'s. */
  method SimdFind16Of10<T(==)>(a: seq<T>, x: T) returns (r: Outcome)
    requires |a| == 10
    ensures r.Returned? && r.index == Position(a, x)
  {
    r := SimdFind(a, x, 16);
  }

  /** 17 elements with one 1, at index 16: the full chunk covers 16 elements and the 1 is the remainder's first. */
  lemma RemainderCase()
    ensures |OneAt(17, 16)| == 17 && Position(OneAt(17, 16), 1) == Some(16)
  {
    OneAtPosition(17, 16);
  }

  /** On any 17-element slice whose first `x` is at 16, lib.rs's `simd_find::<_, 16>` returns `Some(0)`. */
  method SimdFindRemainderMisreports<T(==)>(a: seq<T>, x: T) returns (r: Outcome)
    requires |a| == 17 && Position(a, x) == Some(16)
    ensures r.Returned? && r.index == Some(0)
  {
    assert FullChunks(17, 16) == 1;
    r := SimdFind(a, x, 16);
  }
}

/**
 * src/find.rs: the scalar `simple_find`, the chunked `simd_find` with its
 * byte-mask decode, and `simd_find_16` with its bit-mask decode.  The
 * reference every search is compared with is `Position`, the
 * `iter().position(|&e| e == x)` of the tests.
 */
module Find {
  import opened Wrappers
  import opened Simd

  /** `iter().position(|&e| e == x)`: the first index holding `x`. */
  function Position<T(==)>(a: seq<T>, x: T): (r: Option<nat>)
    ensures r.Some? ==> r.value < |a| && a[r.value] == x && forall k :: 0 <= k < r.value ==> a[k] != x
    ensures r.None? <==> forall k :: 0 <= k < |a| ==> a[k] != x
  {
    if |a| == 0 then None
    else if a[0] == x then Some(0)
    else match Position(a[1..], x)
      case None => None
      case Some(i) => Some(i + 1)
  }

  /** The first index holding `x` is determined by those two facts. */
  lemma PositionIs<T>(a: seq<T>, x: T, p: nat)
    requires p < |a| && a[p] == x && forall k :: 0 <= k < p ==> a[k] != x
    ensures Position(a, x) == Some(p)
  {
  }

  // ---------------------------------------------------------------- simple_find

  /** The fold of `simple_find` from index `i` on, with accumulator `acc`. */
  function FoldFind<T(==)>(a: seq<T>, x: T, i: nat, acc: Option<nat>): (r: Option<nat>)
    requires i <= |a|
    ensures (forall k :: i <= k < |a| ==> a[k] != x) ==> r == acc
    ensures (exists k :: i <= k < |a| && a[k] == x) ==>
      r.Some? && i <= r.value < |a| && a[r.value] == x && forall k :: r.value < k < |a| ==> a[k] != x
    decreases |a| - i
  {
    if i == |a| then acc
    else FoldFind(a, x, i + 1, if a[i] == x then Some(i) else acc)
  }

  /**
   * `simple_find`: the closure overwrites the accumulator at every match, so
   * the result is the LAST index holding `x`, or `None`.
   */
  function SimpleFind<T(==)>(a: seq<T>, x: T): (r: Option<nat>)
    ensures r.None? <==> forall k :: 0 <= k < |a| ==> a[k] != x
    ensures r.Some? ==> r.value < |a| && a[r.value] == x && forall k :: r.value < k < |a| ==> a[k] != x
  {
    FoldFind(a, x, 0, None)
  }

  /** When `x` occurs at most once, the last match is the first one. */
  lemma SimpleFindUnique<T>(a: seq<T>, x: T)
    requires forall k, m :: 0 <= k < |a| && 0 <= m < |a| && a[k] == x && a[m] == x ==> k == m
    ensures SimpleFind(a, x) == Position(a, x)
  {
  }

  /** With a repeated needle `simple_find` and `position` disagree. */
  lemma SimpleFindReturnsLast()
    ensures SimpleFind([1, 1], 1) == Some(1) && Position([1, 1], 1) == Some(0)
  {
  }

  /** The fold with the step that keeps the first match instead. */
  function FoldFindFirst<T(==)>(a: seq<T>, x: T, i: nat, acc: Option<nat>): (r: Option<nat>)
    requires i <= |a|
    ensures acc.Some? ==> r == acc
    ensures acc.None? && (forall k :: i <= k < |a| ==> a[k] != x) ==> r.None?
    ensures acc.None? && (exists k :: i <= k < |a| && a[k] == x) ==>
      r.Some? && i <= r.value < |a| && a[r.value] == x && forall k :: i <= k < r.value ==> a[k] != x
    decreases |a| - i
  {
    if i == |a| then acc
    else FoldFindFirst(a, x, i + 1, if acc.None? && a[i] == x then Some(i) else acc)
  }

  /** `simple_find` as its tests use it: the first match. */
  function SimpleFindFirst<T(==)>(a: seq<T>, x: T): (r: Option<nat>)
    ensures r == Position(a, x)
  {
    FoldFindFirst(a, x, 0, None)
  }

  // ---------------------------------------------------------------- simd_find

  /**
   * The index `simd_find` reports when the first match is at `p`, for a
   * sequence of length `n`.  A match at lane `p` of the first full chunk
   * sits in 16-byte mask piece `p / 16` at byte `p % 16`, and the code
   * reports piece times `lanes` plus byte; every full chunk before it adds
   * `lanes`.  A match in the remainder (fewer than `lanes` elements left)
   * is reported at its true index.
   */
  function AsWrittenIndex(p: nat, lanes: nat, n: nat): (r: nat)
    requires lanes > 0
    ensures r >= p
    decreases n
  {
    if n < lanes then p
    else if p < lanes then
      OffsetPieces(p / 16, lanes);
      Offset(p / 16, lanes) + p % 16
    else lanes + AsWrittenIndex(p - lanes, lanes, n - lanes)
  }

  /** With at least 16 lanes, `q` whole chunks span at least `q` mask pieces of 16. */
  lemma {:induction false} OffsetPieces(q: nat, lanes: nat)
    requires q == 0 || lanes >= 16
    ensures Offset(q, lanes) >= 16 * q
  {
    if q > 0 {
      OffsetPieces(q - 1, lanes);
    }
  }

  /** With at most 16 lanes (one mask piece per chunk) every index is reported as it is. */
  lemma {:induction false} AsWrittenIndexNarrow(p: nat, lanes: nat, n: nat)
    requires 0 < lanes <= 16
    ensures AsWrittenIndex(p, lanes, n) == p
    decreases n
  {
    if n >= lanes && p >= lanes {
      AsWrittenIndexNarrow(p - lanes, lanes, n - lanes);
    }
  }

  /** The index reported for lane `lane` of full chunk `i`: piece `lane / 16` is counted as whole chunks. */
  lemma {:induction false} AsWrittenIndexInChunk(i: nat, lane: nat, lanes: nat, n: nat)
    requires lane < lanes && Offset(i, lanes) + lanes <= n
    ensures AsWrittenIndex(Offset(i, lanes) + lane, lanes, n) == Offset(i + lane / 16, lanes) + lane % 16
  {
    if i > 0 {
      AsWrittenIndexInChunk(i - 1, lane, lanes, n - lanes);
      assert Offset(i + lane / 16, lanes) == Offset(i - 1 + lane / 16, lanes) + lanes;
    }
  }

  /**
   * The index reported for byte `t` of mask piece `j` of full chunk `i`:
   * `(i + j) * lanes + t`, the true one only when `j` is 0.
   */
  lemma AsWrittenIndexInPiece(p: nat, i: nat, j: nat, t: nat, lanes: nat, n: nat)
    requires t < 16 && j * 16 + t < lanes && Offset(i, lanes) + lanes <= n
    requires p == Offset(i, lanes) + (j * 16 + t)
    ensures AsWrittenIndex(p, lanes, n) == Offset(i + j, lanes) + t
  {
    var lane := j * 16 + t;
    AsWrittenIndexInChunk(i, lane, lanes, n);
    assert lane / 16 == j && lane % 16 == t;
  }

  /** An index in the remainder after `c` full chunks is reported as it is. */
  lemma {:induction false} AsWrittenIndexInRemainder(p: nat, c: nat, lanes: nat, n: nat)
    requires lanes > 0 && Offset(c, lanes) <= n < Offset(c, lanes) + lanes && Offset(c, lanes) <= p
    ensures AsWrittenIndex(p, lanes, n) == p
  {
    if c > 0 {
      AsWrittenIndexInRemainder(p - lanes, c - 1, lanes, n - lanes);
    }
  }

  /** No element of `a` before index `n` is `x`. */
  ghost predicate ClearBefore<T>(a: seq<T>, x: T, n: nat) {
    forall k :: 0 <= k < n && k < |a| ==> a[k] != x
  }

  /** `p` is the first index of `a` holding `x`. */
  ghost predicate FirstAt<T>(a: seq<T>, x: T, p: nat) {
    p < |a| && a[p] == x && ClearBefore(a, x, p)
  }

  /** The two ways of saying where the first `x` is agree. */
  lemma FirstAtPosition<T>(a: seq<T>, x: T, p: nat)
    ensures FirstAt(a, x, p) <==> Position(a, x) == Some(p)
  {
    if FirstAt(a, x, p) {
      PositionIs(a, x, p);
    }
  }

  /**
   * A slice of `a` at `base`, when no earlier element is `x`: if it holds
   * no `x` nothing before its end does, and otherwise its first `x` is the
   * first `x` of `a`.
   */
  lemma ChunkClear<T>(a: seq<T>, x: T, base: nat, chunk: seq<T>)
    requires base + |chunk| <= |a| && forall k :: 0 <= k < |chunk| ==> chunk[k] == a[base + k]
    requires ClearBefore(a, x, base)
    ensures Position(chunk, x).None? ==> ClearBefore(a, x, base + |chunk|)
    ensures Position(chunk, x).Some? ==> FirstAt(a, x, base + Position(chunk, x).value)
  {
    match Position(chunk, x)
    case None =>
      forall k | base <= k < base + |chunk| ensures a[k] != x {
        assert chunk[k - base] == a[k];
      }
    case Some(l) =>
      forall k | base <= k < base + l ensures a[k] != x {
        assert chunk[k - base] == a[k];
      }
      assert chunk[l] == a[base + l];
  }

  /** Full chunk `i` is the slice of `a` at `Offset(i, lanes)`, element for element. */
  lemma ChunkIsSlice<T>(a: seq<T>, lanes: nat, i: nat)
    requires Offset(i, lanes) + lanes <= |a|
    ensures |Chunk(a, lanes, i)| == lanes
    ensures forall k :: 0 <= k < lanes ==> Chunk(a, lanes, i)[k] == a[Offset(i, lanes) + k]
  {
  }

  /** `ChunkClear` for full chunk `i`. */
  lemma FullChunkClear<T>(a: seq<T>, x: T, lanes: nat, i: nat)
    requires Offset(i, lanes) + lanes <= |a| && ClearBefore(a, x, Offset(i, lanes))
    ensures |Chunk(a, lanes, i)| == lanes
    ensures Position(Chunk(a, lanes, i), x).None? ==> ClearBefore(a, x, Offset(i + 1, lanes))
    ensures Position(Chunk(a, lanes, i), x).Some? ==>
      Position(Chunk(a, lanes, i), x).value < lanes &&
      FirstAt(a, x, Offset(i, lanes) + Position(Chunk(a, lanes, i), x).value)
  {
    ChunkIsSlice(a, lanes, i);
    ChunkClear(a, x, Offset(i, lanes), Chunk(a, lanes, i));
  }

  /** `ChunkClear` for the remainder after the full chunks. */
  lemma RemainderClear<T>(a: seq<T>, x: T, lanes: nat)
    requires lanes > 0 && ClearBefore(a, x, Offset(FullChunks(|a|, lanes), lanes))
    ensures Position(AsChunks(a, lanes).1, x).None? ==> ClearBefore(a, x, |a|)
    ensures Position(AsChunks(a, lanes).1, x).Some? ==>
      FirstAt(a, x, Offset(FullChunks(|a|, lanes), lanes) + Position(AsChunks(a, lanes).1, x).value)
  {
    var base := Offset(FullChunks(|a|, lanes), lanes);
    assert AsChunks(a, lanes).1 == a[base..];
    ChunkClear(a, x, base, a[base..]);
  }

  /** The byte mask `needle.lanes_eq(chunk).to_int().cast::<u8>()` is nonzero exactly at the lanes holding `x`. */
  lemma EqMaskLanes<T>(x: T, chunk: seq<T>)
    ensures |CastU8(ToInt(LanesEq(Splat(x, |chunk|), chunk)))| == |chunk|
    ensures forall l :: 0 <= l < |chunk| ==>
      (CastU8(ToInt(LanesEq(Splat(x, |chunk|), chunk)))[l] != 0 <==> chunk[l] == x)
  {
    ByteMaskLanes(LanesEq(Splat(x, |chunk|), chunk));
  }

  /**
   * Decoding 16-byte piece `j` of a lane mask that is nonzero exactly where
   * `chunk` holds `x`, when no lane before the piece holds `x`: a zero piece
   * clears its 16 lanes, and a nonzero one yields, as
   * `trailing_zeros / 8`, the offset of the first lane holding `x`.
   */
  lemma PieceDecode<T>(x: T, chunk: seq<T>, mask: seq<byte>, j: nat)
    requires |mask| == |chunk| && forall l :: 0 <= l < |chunk| ==> (mask[l] != 0 <==> chunk[l] == x)
    requires Offset(j, 16) + 16 <= |mask|
    requires forall l :: 0 <= l < Offset(j, 16) ==> chunk[l] != x
    ensures FromLeBytes(Chunk(mask, 16, j)) == 0 ==> forall l :: 0 <= l < Offset(j, 16) + 16 ==> chunk[l] != x
    ensures FromLeBytes(Chunk(mask, 16, j)) != 0 ==>
      var t := TrailingZeros(FromLeBytes(Chunk(mask, 16, j)), 128) / 8;
      t < 16 && chunk[Offset(j, 16) + t] == x && forall l :: 0 <= l < Offset(j, 16) + t ==> chunk[l] != x
  {
    var piece := Chunk(mask, 16, j);
    var v, f := FromLeBytes(piece), FirstNonZero(piece);
    DecodeLowestByte(piece);
    assert 8 * |piece| == 128;
    assert v == 0 <==> f == 16;
    PieceLanes(x, chunk, mask, Offset(j, 16), piece, f);
  }

  /** The lanes of a 16-byte piece at `base` of the mask, given the index `f` of its first nonzero byte (16 for none). */
  lemma PieceLanes<T>(x: T, chunk: seq<T>, mask: seq<byte>, base: nat, piece: seq<byte>, f: nat)
    requires |mask| == |chunk| && forall l :: 0 <= l < |chunk| ==> (mask[l] != 0 <==> chunk[l] == x)
    requires base + 16 <= |mask| && |piece| == 16 && forall u :: 0 <= u < 16 ==> piece[u] == mask[base + u]
    requires forall l :: 0 <= l < base ==> chunk[l] != x
    requires f <= 16 && (f < 16 ==> piece[f] != 0) && forall u :: 0 <= u < f ==> piece[u] == 0
    ensures f == 16 ==> forall l :: 0 <= l < base + 16 ==> chunk[l] != x
    ensures f < 16 ==> chunk[base + f] == x && forall l :: 0 <= l < base + f ==> chunk[l] != x
  {
    forall l | base <= l < base + f ensures chunk[l] != x {
      assert piece[l - base] == 0;
    }
    if f < 16 {
      assert mask[base + f] != 0;
    }
  }

  /**
   * Decoding the zero-padded `bar` of a chunk narrower than 16 lanes: zero
   * when no lane holds `x`, and otherwise `trailing_zeros / 8` is the first
   * lane holding `x`.
   */
  lemma PaddedDecode<T>(x: T, chunk: seq<T>, mask: seq<byte>, bar: seq<byte>)
    requires |mask| == |chunk| && forall l :: 0 <= l < |chunk| ==> (mask[l] != 0 <==> chunk[l] == x)
    requires |mask| <= 16 && |bar| == 16
    requires forall l :: 0 <= l < |mask| ==> bar[l] == mask[l]
    requires forall l :: |mask| <= l < 16 ==> bar[l] == 0
    ensures FromLeBytes(bar) == 0 ==> forall l :: 0 <= l < |chunk| ==> chunk[l] != x
    ensures FromLeBytes(bar) != 0 ==>
      var t := TrailingZeros(FromLeBytes(bar), 128) / 8;
      t < |chunk| && chunk[t] == x && forall l :: 0 <= l < t ==> chunk[l] != x
  {
    DecodeLowestByte(bar);
  }

  /** Where the first `x` of a chunk was found: byte `offset` of 16-byte mask piece `piece`. */
  datatype Hit = Hit(piece: nat, offset: nat)

  /** `mask` has one byte per lane of `chunk`, nonzero exactly where the lane holds `x`. */
  ghost predicate MarksLanes<T>(mask: seq<byte>, chunk: seq<T>, x: T) {
    |mask| == |chunk| && forall l :: 0 <= l < |chunk| ==> (mask[l] != 0 <==> chunk[l] == x)
  }

  /**
   * The body of `simd_find`'s chunk loop: build the byte mask of the lanes
   * equal to `x`, then decode it 16 bytes at a time when the lane count is
   * a multiple of 16, or through a zero-padded 16-byte buffer otherwise.
   * The hit is the first lane holding `x`, split into piece and offset.
   */
  method ScanChunk<T(==)>(chunk: seq<T>, x: T) returns (h: Option<Hit>)
    requires SupportedLanes(|chunk|)
    ensures h.None? <==> Position(chunk, x).None?
    ensures h.Some? ==> h.value.offset < 16 && h.value.piece * 16 + h.value.offset == Position(chunk, x).value
  {
    var needle := Splat(x, |chunk|);
    var mask := CastU8(ToInt(LanesEq(needle, chunk)));
    EqMaskLanes(x, chunk);
    var (pieces, rest) := AsChunks(mask, 16);
    OffsetIsProduct(|pieces|, 16);
    if |rest| == 0 {
      h := ScanPieces(chunk, x, mask, pieces);
    } else {
      assert |pieces| == 0 && rest == mask && |chunk| < 16;
      h := ScanPadded(chunk, x, rest);
    }
  }

  /** The mask decode for 16 or more lanes: each 16-byte piece read as a `u128`. */
  method ScanPieces<T(==)>(chunk: seq<T>, x: T, mask: seq<byte>, pieces: seq<seq<byte>>) returns (h: Option<Hit>)
    requires MarksLanes(mask, chunk, x)
    requires pieces == AsChunks(mask, 16).0 && |AsChunks(mask, 16).1| == 0
    ensures h.None? <==> Position(chunk, x).None?
    ensures h.Some? ==> h.value.offset < 16 && h.value.piece * 16 + h.value.offset == Position(chunk, x).value
  {
    for j := 0 to |pieces|
      invariant Offset(j, 16) <= |mask|
      invariant forall l :: 0 <= l < Offset(j, 16) ==> chunk[l] != x
    {
      var bitmask := FromLeBytes(pieces[j]);
      PieceDecode(x, chunk, mask, j);
      if bitmask != 0 {
        var t := TrailingZeros(bitmask, 128) / 8;
        PositionIs(chunk, x, Offset(j, 16) + t);
        OffsetIsProduct(j, 16);
        return Some(Hit(j, t));
      }
    }
    return None;
  }

  /** The mask decode for fewer than 16 lanes: the mask copied into a zeroed 16-byte `bar`. */
  method ScanPadded<T(==)>(chunk: seq<T>, x: T, mask: seq<byte>) returns (h: Option<Hit>)
    requires MarksLanes(mask, chunk, x) && |chunk| < 16
    ensures h.None? <==> Position(chunk, x).None?
    ensures h.Some? ==> h.value.piece == 0 && h.value.offset == Position(chunk, x).value
  {
    var bar := new byte[16](_ => 0);
    for l := 0 to |mask|
      invariant forall m :: 0 <= m < l ==> bar[m] == mask[m]
      invariant forall m :: l <= m < 16 ==> bar[m] == 0
    {
      bar[l] := mask[l];
    }
    var bitmask := FromLeBytes(bar[..]);
    PaddedDecode(x, chunk, mask, bar[..]);
    if bitmask != 0 {
      var t := TrailingZeros(bitmask, 128) / 8;
      PositionIs(chunk, x, t);
      return Some(Hit(0, t));
    }
    return None;
  }

  /** The scalar loop over the remainder: the first offset holding `x`. */
  method ScanRemainder<T(==)>(remainder: seq<T>, x: T) returns (k: Option<nat>)
    ensures k == Position(remainder, x)
  {
    for i := 0 to |remainder|
      invariant forall m :: 0 <= m < i ==> remainder[m] != x
    {
      if remainder[i] == x {
        PositionIs(remainder, x, i);
        return Some(i);
      }
    }
    return None;
  }

  /**
   * The remainder loop at the end of every chunked search, reached when no
   * full chunk holds `x`: the offset, from the end of the full chunks, of
   * the first `x`.
   */
  method ScanTail<T(==)>(a: seq<T>, x: T, lanes: nat) returns (k: Option<nat>)
    requires lanes > 0
    requires ClearBefore(a, x, Offset(FullChunks(|a|, lanes), lanes))
    ensures k.None? ==> ClearBefore(a, x, |a|)
    ensures k.Some? ==> FirstAt(a, x, Offset(FullChunks(|a|, lanes), lanes) + k.value)
  {
    var (chunks, remainder) := AsChunks(a, lanes);
    k := ScanRemainder(remainder, x);
    RemainderClear(a, x, lanes);
  }

  /** Where the first `x` of the full chunks was found: chunk, 16-byte mask piece, byte in the piece. */
  datatype Found = Found(chunk: nat, piece: nat, offset: nat)

  /**
   * The chunk loop of `simd_find`: the first full chunk holding `x`, with
   * the piece and byte its mask decode yields, or none when no full chunk
   * holds `x`.
   */
  method ScanChunks<T(==)>(a: seq<T>, x: T, lanes: nat) returns (f: Option<Found>)
    requires SupportedLanes(lanes)
    ensures f.None? ==> ClearBefore(a, x, Offset(FullChunks(|a|, lanes), lanes))
    ensures f.Some? ==>
      f.value.offset < 16 && f.value.piece * 16 + f.value.offset < lanes &&
      Offset(f.value.chunk, lanes) + lanes <= |a| &&
      FirstAt(a, x, Offset(f.value.chunk, lanes) + (f.value.piece * 16 + f.value.offset))
  {
    var (chunks, remainder) := AsChunks(a, lanes);
    for i := 0 to |chunks|
      invariant ClearBefore(a, x, Offset(i, lanes))
    {
      var h := ProbeChunk(a, x, lanes, i, chunks[i]);
      if h.Some? {
        return Some(Found(i, h.value.piece, h.value.offset));
      }
    }
    return None;
  }

  /**
   * One turn of the chunk loop: chunk `i` either holds the first `x` of `a`,
   * at the piece and byte its mask decode yields, or leaves `a` clear of `x`
   * up to its end.
   */
  method ProbeChunk<T(==)>(a: seq<T>, x: T, lanes: nat, i: nat, chunk: seq<T>) returns (h: Option<Hit>)
    requires SupportedLanes(lanes) && Offset(i, lanes) + lanes <= |a| && chunk == Chunk(a, lanes, i)
    requires ClearBefore(a, x, Offset(i, lanes))
    ensures h.None? ==> ClearBefore(a, x, Offset(i + 1, lanes))
    ensures h.Some? ==>
      h.value.offset < 16 && h.value.piece * 16 + h.value.offset < lanes &&
      FirstAt(a, x, Offset(i, lanes) + (h.value.piece * 16 + h.value.offset))
  {
    h := ScanChunk(chunk, x);
    FullChunkClear(a, x, lanes, i);
  }

  /**
   * `simd_find::<T, LANES>` as written.  For `LANES` up to 16 it returns the
   * first index holding `x`; for 32 and 64 a match past the first 16 lanes
   * of its chunk is reported at `AsWrittenIndex`.
   */
  method SimdFind<T(==)>(a: seq<T>, x: T, lanes: nat) returns (r: Option<nat>)
    requires SupportedLanes(lanes)
    ensures Position(a, x).None? ==> r.None?
    ensures Position(a, x).Some? ==> r.Some? && r.value == AsWrittenIndex(Position(a, x).value, lanes, |a|)
    ensures lanes <= 16 ==> r == Position(a, x)
  {
    var f := ScanChunks(a, x, lanes);
    if f.Some? {
      var i, j, t := f.value.chunk, f.value.piece, f.value.offset;
      var p := Offset(i, lanes) + (j * 16 + t);
      FirstAtPosition(a, x, p);
      AsWrittenIndexInPiece(p, i, j, t, lanes, |a|);
      if lanes <= 16 {
        AsWrittenIndexNarrow(p, lanes, |a|);
      }
      // `(i + j) * LANES + tz / 8`; the narrow path's `i * LANES + tz / 8` is this with piece 0.
      return Some(Offset(i + j, lanes) + t);
    }
    var k := ScanTail(a, x, lanes);
    var c := FullChunks(|a|, lanes);
    if k.Some? {
      var p := Offset(c, lanes) + k.value;
      FirstAtPosition(a, x, p);
      AsWrittenIndexInRemainder(p, c, lanes, |a|);
      // `chunks.len() * LANES + i`
      return Some(p);
    }
    return None;
  }

  /**
   * `simd_find` with the index of a chunk hit computed as lib.rs computes
   * it, `i * LANES + j * 16 + tz / 8`: the first index holding `x` for
   * every supported lane count.
   */
  method SimdFindCorrected<T(==)>(a: seq<T>, x: T, lanes: nat) returns (r: Option<nat>)
    requires SupportedLanes(lanes)
    ensures r == Position(a, x)
  {
    var f := ScanChunks(a, x, lanes);
    if f.Some? {
      r := Some(Offset(f.value.chunk, lanes) + (f.value.piece * 16 + f.value.offset));
      FirstAtPosition(a, x, r.value);
      return r;
    }
    var k := ScanTail(a, x, lanes);
    if k.Some? {
      r := Some(Offset(FullChunks(|a|, lanes), lanes) + k.value);
      FirstAtPosition(a, x, r.value);
      return r;
    }
    return None;
  }

  // ---------------------------------------------------------------- simd_find_16

  /**
   * The bit mask `needle.lanes_eq(chunk)` is set for some lane exactly when
   * `x` occurs, and then `to_bitmask().trailing_zeros()` is its first index.
   */
  lemma BitMaskDecode<T>(x: T, chunk: seq<T>)
    ensures Any(LanesEq(Splat(x, |chunk|), chunk)) <==> Position(chunk, x).Some?
    ensures Position(chunk, x).Some? ==>
      TrailingZeros(ToBitMask(LanesEq(Splat(x, |chunk|), chunk)), |chunk|) == Position(chunk, x).value
  {
    var m := LanesEq(Splat(x, |chunk|), chunk);
    assert |m| == |chunk| && forall l :: 0 <= l < |m| ==> (m[l] <==> chunk[l] == x);
    DecodeLowestLane(m);
    FirstTruePosition(m, chunk, x);
  }

  /** A lane mask set exactly where `chunk` holds `x`: its first set lane is the first `x`. */
  lemma FirstTruePosition<T>(m: seq<bool>, chunk: seq<T>, x: T)
    requires |m| == |chunk| && forall l :: 0 <= l < |m| ==> (m[l] <==> chunk[l] == x)
    ensures Any(m) <==> Position(chunk, x).Some?
    ensures Any(m) ==> FirstTrue(m) == Position(chunk, x).value
  {
    if Any(m) {
      PositionIs(chunk, x, FirstTrue(m));
    }
  }

  /** The chunk loop of `simd_find_16`: `mask.any()`, then `to_bitmask().trailing_zeros()`. */
  method ScanChunks16<T(==)>(a: seq<T>, x: T) returns (r: Option<nat>)
    ensures r.None? ==> ClearBefore(a, x, Offset(FullChunks(|a|, 16), 16))
    ensures r.Some? ==> FirstAt(a, x, r.value)
  {
    var (chunks, remainder) := AsChunks(a, 16);
    for i := 0 to |chunks|
      invariant ClearBefore(a, x, Offset(i, 16))
    {
      var t := ProbeChunk16(a, x, i, chunks[i]);
      if t.Some? {
        // `i * LANES + mask.to_bitmask().trailing_zeros()`
        return Some(Offset(i, 16) + t.value);
      }
    }
    return None;
  }

  /**
   * One turn of the loop of `simd_find_16`: when `mask.any()`, the bit
   * mask's trailing zero count is where the first `x` of `a` lies in chunk
   * `i`; otherwise `a` is clear of `x` up to the chunk's end.
   */
  method ProbeChunk16<T(==)>(a: seq<T>, x: T, i: nat, chunk: seq<T>) returns (t: Option<nat>)
    requires Offset(i, 16) + 16 <= |a| && chunk == Chunk(a, 16, i)
    requires ClearBefore(a, x, Offset(i, 16))
    ensures t.None? ==> ClearBefore(a, x, Offset(i + 1, 16))
    ensures t.Some? ==> t.value < 16 && FirstAt(a, x, Offset(i, 16) + t.value)
  {
    FullChunkClear(a, x, 16, i);
    var needle := Splat(x, 16);
    var mask := LanesEq(needle, chunk);
    BitMaskDecode(x, chunk);
    if Any(mask) {
      return Some(TrailingZeros(ToBitMask(mask), 16));
    }
    return None;
  }

  /** `simd_find_16`: sixteen lanes, decoded through `any` and the bit mask; the first index holding `x`. */
  method SimdFind16<T(==)>(a: seq<T>, x: T) returns (r: Option<nat>)
    ensures r == Position(a, x)
  {
    r := ScanChunks16(a, x);
    if r.Some? {
      FirstAtPosition(a, x, r.value);
      return r;
    }
    var k := ScanTail(a, x, 16);
    if k.Some? {
      r := Some(Offset(FullChunks(|a|, 16), 16) + k.value);
      FirstAtPosition(a, x, r.value);
      return r;
    }
    return None;
  }

  // ---------------------------------------------------------------- the tests' inputs

  /** `n` zeros with a single 1 at index `p`. */
  function OneAt(n: nat, p: nat): (a: seq<int>)
    ensures |a| == n
  {
    seq(n, k => if k == p then 1 else 0)
  }

  /** The first 1 of `OneAt(n, p)` is at `p`. */
  lemma OneAtPosition(n: nat, p: nat)
    requires p < n
    ensures Position(OneAt(n, p), 1) == Some(p)
  {
    PositionIs(OneAt(n, p), 1, p);
  }

  /** `TEST_CASE`: 32 elements, the only 1 at index 5. */
  function TestCase(): (a: seq<int>)
    ensures |a| == 32
  {
    OneAt(32, 5)
  }

  /** `simple_find_test`: on `TEST_CASE` the scalar search agrees with `position`. */
  lemma SimpleFindTest()
    ensures SimpleFind(TestCase(), 1) == Position(TestCase(), 1) == Some(5)
  {
    OneAtPosition(32, 5);
    SimpleFindUnique(TestCase(), 1);
  }

  /** `simd_find_test`: `simd_find::<_, 16>` finds the 1 of `TEST_CASE` at 5. */
  method SimdFindTest() returns (r: Option<nat>)
    ensures r == Some(5)
  {
    OneAtPosition(32, 5);
    r := SimdFind(TestCase(), 1, 16);
  }

  /** `simd_smolfind_test`: `simd_find_16` finds the 1 of `TEST_CASE` at 5. */
  method SimdSmolFindTest() returns (r: Option<nat>)
    ensures r == Some(5)
  {
    OneAtPosition(32, 5);
    r := SimdFind16(TestCase(), 1);
  }

  /**
   * `simd_find_4_random`: for any 33-element slice (the test shuffles
   * `0..33` and looks for the middle value) `simd_find::<_, 4>` agrees
   * with `position`.
   */
  method SimdFind4Random<T(==)>(a: seq<T>, x: T) returns (r: Option<nat>)
    requires |a| == 33
    ensures r == Position(a, x)
  {
    r := SimdFind(a, x, 4);
  }

  /** `simd_find_16_random`: the same with 16 lanes. */
  method SimdFind16Random<T(==)>(a: seq<T>, x: T) returns (r: Option<nat>)
    requires |a| == 33
    ensures r == Position(a, x)
  {
    r := SimdFind(a, x, 16);
  }

  /** `simd_smolfind_random`: the same for `simd_find_16`. */
  method SimdSmolFindRandom<T(==)>(a: seq<T>, x: T) returns (r: Option<nat>)
    requires |a| == 33
    ensures r == Position(a, x)
  {
    r := SimdFind16(a, x);
  }

  /**
   * With 32 lanes, a first match at index 20 of a 32-element slice lies in
   * the second mask piece of the only chunk, and find.rs:29 reports it at
   * `(0 + 1) * 32 + 4`, past the end of the slice.
   */
  lemma WideIndexMisreported()
    ensures AsWrittenIndex(20, 32, 32) == 36
  {
  }

  /** Such a slice: 32 elements, the only 1 at index 20. */
  lemma WideCase()
    ensures |OneAt(32, 20)| == 32 && Position(OneAt(32, 20), 1) == Some(20)
  {
    OneAtPosition(32, 20);
  }

  /** `simd_find::<_, 32>` on any such slice returns 36. */
  method SimdFindWideMisreports<T(==)>(a: seq<T>, x: T) returns (r: Option<nat>)
    requires |a| == 32 && Position(a, x) == Some(20)
    ensures r.Some? && r.value == 36 && r.value >= |a|
  {
    WideIndexMisreported();
    r := SimdFind(a, x, 32);
  }
}

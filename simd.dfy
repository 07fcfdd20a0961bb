/**
 * The pieces of `std::simd` and of the slice API that the searches use, as
 * functions on sequences: `as_chunks`, `Simd::splat`, `lanes_eq`, the
 * `to_int().cast::<u8>()` byte mask, `to_bitmask`, `any`,
 * `u128::from_le_bytes` and `trailing_zeros`.  Integers of a fixed width
 * (the `u128` and the `u16` bit mask) are `nat`s; `TrailingZeros` takes the
 * width explicitly, so that a zero value has as many trailing zeros as bits.
 */
module Simd {

  newtype byte = x: int | 0 <= x < 256

  /** The lane counts `LaneCount<LANES>: SupportedLaneCount` admits. */
  predicate SupportedLanes(lanes: nat) {
    lanes == 1 || lanes == 2 || lanes == 4 || lanes == 8 || lanes == 16 || lanes == 32 || lanes == 64
  }

  /** Quotient and remainder are determined by `q * n + r` with `r < n`. */
  lemma DivModUnique(q: nat, r: nat, n: nat)
    requires r < n
    ensures (q * n + r) / n == q && (q * n + r) % n == r
  {
    var d, m := (q * n + r) / n, (q * n + r) % n;
    assert d * n + m == q * n + r;
    if d > q {
      MulAtLeast(d - q, n);
      Distrib(q, d, n);
    } else if d < q {
      MulAtLeast(q - d, n);
      Distrib(d, q, n);
    }
  }

  lemma Distrib(i: int, k: int, n: int)
    ensures k * n == i * n + (k - i) * n
  {
  }

  lemma MulSucc(i: int, n: int)
    ensures (i + 1) * n == i * n + n
  {
  }

  lemma MulAtLeast(d: int, n: int)
    requires d >= 1 && n >= 0
    ensures d * n >= n
  {
  }

  /**
   * Where chunk `i` of width `n` starts: `i * n`, written as repeated
   * addition so that the solver meets chunk offsets as linear facts.
   */
  function Offset(i: nat, n: nat): nat {
    if i == 0 then 0 else Offset(i - 1, n) + n
  }

  lemma {:induction false} OffsetIsProduct(i: nat, n: nat)
    ensures Offset(i, n) == i * n
  {
    if i > 0 {
      OffsetIsProduct(i - 1, n);
      MulSucc(i - 1, n);
    }
  }

  /** Chunk `i` ends no later than chunk `k - 1` does. */
  lemma {:induction false} OffsetFits(i: nat, k: nat, n: nat)
    requires i < k
    ensures Offset(i, n) + n <= Offset(k, n)
    decreases k
  {
    if i < k - 1 {
      OffsetFits(i, k - 1, n);
    }
  }

  /** The `i`-th full chunk of width `n`. */
  function Chunk<T>(a: seq<T>, n: nat, i: nat): (c: seq<T>)
    requires Offset(i, n) + n <= |a|
  {
    a[Offset(i, n) .. Offset(i, n) + n]
  }

  lemma OffsetFitsAll(k: nat, n: nat)
    ensures forall i :: 0 <= i < k ==> Offset(i, n) + n <= Offset(k, n)
  {
    forall i | 0 <= i < k ensures Offset(i, n) + n <= Offset(k, n) {
      OffsetFits(i, k, n);
    }
  }

  /** The number of whole chunks of width `n` in `len` elements, by repeated subtraction. */
  function FullChunks(len: nat, n: nat): (k: nat)
    requires n > 0
    ensures Offset(k, n) <= len < Offset(k, n) + n
    decreases len
  {
    if len < n then 0 else FullChunks(len - n, n) + 1
  }

  /**
   * `slice::as_chunks::<n>`: the longest prefix cut into chunks of width
   * `n`, in order, and the remainder of fewer than `n` elements after it.
   */
  function AsChunks<T>(a: seq<T>, n: nat): (p: (seq<seq<T>>, seq<T>))
    requires n > 0
    ensures |p.0| == FullChunks(|a|, n)
    ensures Offset(|p.0|, n) + |p.1| == |a|
    ensures forall i :: 0 <= i < |p.0| ==> Offset(i, n) + n <= |a|
    ensures forall i {:trigger p.0[i]} :: 0 <= i < |p.0| ==> Offset(i, n) + n <= |a| && p.0[i] == Chunk(a, n, i)
    ensures p.1 == a[Offset(|p.0|, n) ..]
  {
    var k := FullChunks(|a|, n);
    OffsetFitsAll(k, n);
    (seq(k, i requires 0 <= i < k => Chunk(a, n, i)), a[Offset(k, n) ..])
  }

  /** There are `|a| / n` full chunks. */
  lemma ChunkCount<T>(a: seq<T>, n: nat)
    requires n > 0
    ensures |AsChunks(a, n).0| == |a| / n
  {
    var k := |AsChunks(a, n).0|;
    OffsetIsProduct(k, n);
    DivModUnique(k, |a| - k * n, n);
  }

  /** Element `i` of the remainder is element `chunks.len() * n + i` of the slice. */
  lemma RemainderAt<T>(a: seq<T>, n: nat, i: nat)
    requires n > 0 && i < |AsChunks(a, n).1|
    ensures |AsChunks(a, n).0| * n + i < |a|
    ensures AsChunks(a, n).1[i] == a[|AsChunks(a, n).0| * n + i]
  {
    OffsetIsProduct(|AsChunks(a, n).0|, n);
  }

  /** Concatenation of a sequence of chunks, in order. */
  function Flatten<T>(cs: seq<seq<T>>): seq<T> {
    if |cs| == 0 then [] else Flatten(cs[..|cs| - 1]) + cs[|cs| - 1]
  }

  /** The chunks followed by the remainder are the slice, element for element. */
  lemma AsChunksCovers<T>(a: seq<T>, n: nat)
    requires n > 0
    ensures Flatten(AsChunks(a, n).0) + AsChunks(a, n).1 == a
  {
    var p := AsChunks(a, n);
    ChunksCover(a, n, p.0, p.1);
  }

  /** `cs` are, in order, the first `|cs|` full chunks of width `n` of `a`. */
  predicate ChunksOf<T(==)>(a: seq<T>, n: nat, cs: seq<seq<T>>) {
    forall i :: 0 <= i < |cs| ==> Offset(i, n) + n <= |a| && cs[i] == Chunk(a, n, i)
  }

  lemma ChunksCover<T>(a: seq<T>, n: nat, cs: seq<seq<T>>, rem: seq<T>)
    requires n > 0 && Offset(|cs|, n) <= |a|
    requires ChunksOf(a, n, cs)
    requires rem == a[Offset(|cs|, n) ..]
    ensures Flatten(cs) + rem == a
  {
    FlattenPrefix(a, n, cs, |cs|);
    assert cs[..|cs|] == cs;
  }

  lemma {:induction false} FlattenPrefix<T>(a: seq<T>, n: nat, cs: seq<seq<T>>, k: nat)
    requires n > 0 && k <= |cs|
    requires ChunksOf(a, n, cs)
    ensures Offset(k, n) <= |a| && Flatten(cs[..k]) == a[..Offset(k, n)]
  {
    if k > 0 {
      FlattenPrefix(a, n, cs, k - 1);
      var b := Offset(k - 1, n);
      var c := cs[..k];
      assert Offset(k, n) == b + n;
      assert c[..k - 1] == cs[..k - 1];
      assert c[k - 1] == cs[k - 1] == a[b .. b + n];
      FlattenStep(a, c, b, n);
    }
  }

  lemma FlattenStep<T>(a: seq<T>, cs: seq<seq<T>>, b: nat, n: nat)
    requires |cs| > 0 && b + n <= |a|
    requires Flatten(cs[..|cs| - 1]) == a[..b] && cs[|cs| - 1] == a[b .. b + n]
    ensures Flatten(cs) == a[..b + n]
  {
    assert a[..b + n] == a[..b] + a[b .. b + n];
  }

  /** `Simd::splat`: every lane holds `x`. */
  function Splat<T>(x: T, lanes: nat): (v: seq<T>)
    ensures |v| == lanes && forall l :: 0 <= l < lanes ==> v[l] == x
  {
    seq(lanes, _ => x)
  }

  /** `lanes_eq`: lane `l` is true when the two vectors agree there. */
  function LanesEq<T(==)>(u: seq<T>, v: seq<T>): (m: seq<bool>)
    requires |u| == |v|
    ensures |m| == |u| && forall l :: 0 <= l < |u| ==> (m[l] <==> u[l] == v[l])
  {
    seq(|u|, l requires 0 <= l < |u| => u[l] == v[l])
  }

  /** `Mask::to_int`: a true lane is all ones (-1), a false lane is 0. */
  function ToInt(m: seq<bool>): (v: seq<int>)
    ensures |v| == |m|
    ensures forall l :: 0 <= l < |m| ==> (v[l] == -1 || v[l] == 0) && (v[l] == -1 <==> m[l])
  {
    seq(|m|, l requires 0 <= l < |m| => if m[l] then -1 else 0)
  }

  /**
   * `cast::<u8>()`: keep the low eight bits of the two's complement value,
   * that is, the one byte congruent to the lane modulo 256.
   */
  function CastU8(v: seq<int>): (b: seq<byte>)
    ensures |b| == |v| && forall l :: 0 <= l < |v| ==> (v[l] - b[l] as int) % 256 == 0
  {
    seq(|v|, l requires 0 <= l < |v| => (v[l] % 256) as byte)
  }

  /** The byte mask of a comparison holds 0xFF in matching lanes and 0x00 elsewhere. */
  lemma ByteMaskLanes(m: seq<bool>)
    ensures |CastU8(ToInt(m))| == |m|
    ensures forall l :: 0 <= l < |m| ==> CastU8(ToInt(m))[l] == if m[l] then 0xFF else 0x00
  {
  }

  /** `Mask::any`: the lanes or-ed together; it is false exactly when every lane is clear. */
  function Any(m: seq<bool>): (b: bool)
    ensures !b <==> forall l :: 0 <= l < |m| ==> !m[l]
  {
    if |m| == 0 then false
    else
      assert forall l :: 1 <= l < |m| ==> m[l] == m[1..][l - 1];
      m[0] || Any(m[1..])
  }

  /** `Mask::to_bitmask`: lane `l` is bit `l`, so the mask of `|m|` lanes fits in `|m|` bits. */
  function ToBitMask(m: seq<bool>): (b: nat)
    ensures b < Pow2(|m|)
  {
    if |m| == 0 then 0 else (if m[0] then 1 else 0) + 2 * ToBitMask(m[1..])
  }

  /**
   * `u128::from_le_bytes` (for any number of bytes): byte `k` weighs 256^k,
   * so 16 bytes fit in 128 bits.
   */
  function FromLeBytes(b: seq<byte>): (n: nat)
    ensures n < Pow2(8 * |b|)
  {
    if |b| == 0 then 0
    else
      Pow2Byte(8 * (|b| - 1));
      b[0] as nat + 256 * FromLeBytes(b[1..])
  }

  /** Eight more bits multiply the range by 256. */
  lemma {:induction false} Pow2Byte(k: nat)
    ensures Pow2(k + 8) == 256 * Pow2(k)
  {
    if k == 0 {
      assert Pow2(8) == 256;
    } else {
      Pow2Byte(k - 1);
    }
  }

  /**
   * `trailing_zeros` of `n` read as a `width`-bit integer: at most `width`,
   * and `width` for zero.
   */
  function TrailingZeros(n: nat, width: nat): (t: nat)
    ensures t <= width
    ensures n == 0 ==> t == width
  {
    if width == 0 || n % 2 == 1 then 0 else 1 + TrailingZeros(n / 2, width - 1)
  }

  function Pow2(k: nat): nat {
    if k == 0 then 1 else 2 * Pow2(k - 1)
  }

  /** Index of the lowest true lane; `|m|` when there is none. */
  function FirstTrue(m: seq<bool>): (r: nat)
    ensures r <= |m| && (r < |m| ==> m[r])
    ensures forall l :: 0 <= l < r ==> !m[l]
    ensures Any(m) ==> r < |m|
  {
    if |m| == 0 then 0 else if m[0] then 0 else 1 + FirstTrue(m[1..])
  }

  /** Index of the lowest nonzero byte; `|b|` when there is none. */
  function FirstNonZero(b: seq<byte>): (r: nat)
    ensures r <= |b| && (r < |b| ==> b[r] != 0)
    ensures forall k :: 0 <= k < r ==> b[k] == 0
  {
    if |b| == 0 then 0 else if b[0] != 0 then 0 else 1 + FirstNonZero(b[1..])
  }

  /** Multiplying by 2^k adds k trailing zeros. */
  lemma {:induction false} TrailingZerosShift(m: nat, k: nat, w: nat)
    requires k <= w
    ensures TrailingZeros(Pow2(k) * m, w) == k + TrailingZeros(m, w - k)
  {
    if k > 0 {
      var t := Pow2(k - 1) * m;
      assert Pow2(k) * m == 2 * t;
      TrailingZerosShift(m, k - 1, w - 1);
    }
  }

  /** A nonzero part below 2^k leaves fewer than k trailing zeros. */
  lemma {:induction false} TrailingZerosLow(lo: nat, m: nat, k: nat, w: nat)
    requires 0 < lo < Pow2(k) && k <= w
    ensures TrailingZeros(lo + Pow2(k) * m, w) < k
  {
    var t := Pow2(k - 1) * m;
    assert Pow2(k) * m == 2 * t;
    if lo % 2 == 0 {
      TrailingZerosLow(lo / 2, m, k - 1, w - 1);
      assert (lo + 2 * t) / 2 == lo / 2 + t;
    }
  }

  /**
   * The decode of find.rs: for bytes packed little-endian, the value is zero
   * exactly when every byte is, and otherwise its trailing zero count divided
   * by 8 is the index of the lowest nonzero byte.
   */
  lemma {:induction false} DecodeLowestByte(b: seq<byte>)
    ensures FromLeBytes(b) == 0 <==> forall k :: 0 <= k < |b| ==> b[k] == 0
    ensures FromLeBytes(b) != 0 ==> TrailingZeros(FromLeBytes(b), 8 * |b|) / 8 == FirstNonZero(b)
  {
    if |b| > 0 {
      var m := FromLeBytes(b[1..]);
      DecodeLowestByte(b[1..]);
      assert forall k :: 1 <= k < |b| ==> b[k] == b[1..][k - 1];
      assert Pow2(8) == 256;
      if b[0] != 0 {
        TrailingZerosLow(b[0] as nat, m, 8, 8 * |b|);
      } else if m != 0 {
        TrailingZerosShift(m, 8, 8 * |b|);
      }
    }
  }

  /**
   * The decode of `simd_find_16`: the bit mask is zero exactly when no lane
   * is set, and otherwise its trailing zero count is the lowest set lane.
   */
  lemma {:induction false} DecodeLowestLane(m: seq<bool>)
    ensures ToBitMask(m) == 0 <==> !Any(m)
    ensures Any(m) ==> TrailingZeros(ToBitMask(m), |m|) == FirstTrue(m)
  {
    if |m| > 0 {
      var t := ToBitMask(m[1..]);
      DecodeLowestLane(m[1..]);
      if !m[0] && t != 0 {
        assert ToBitMask(m) == 2 * t;
        assert TrailingZeros(2 * t, |m|) == 1 + TrailingZeros(t, |m| - 1);
      }
    }
  }
}

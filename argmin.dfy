/**
 * src/argmin.rs: the index of the smallest element of a `&[u32]`, once as a
 * loop (`argmin`) and once as a fold (`argmin_fold`).  Both return the
 * FIRST index holding the minimum, and `None` for an empty slice.
 */
module Argmin {
  import opened Wrappers

  newtype u32 = x: int | 0 <= x < 0x1_0000_0000

  /** `k` holds the least of `a[..n]` and no earlier index holds a value as small. */
  predicate FirstMinOfPrefix(a: seq<u32>, n: nat, k: nat) {
    k < n <= |a| &&
    (forall j :: 0 <= j < n ==> a[k] <= a[j]) &&
    (forall j :: 0 <= j < k ==> a[k] < a[j])
  }

  /** `k` is the first index of a minimum of `a`. */
  predicate IsFirstMin(a: seq<u32>, k: nat) {
    FirstMinOfPrefix(a, |a|, k)
  }

  /** There is at most one first minimum. */
  lemma FirstMinUnique(a: seq<u32>, k: nat, m: nat)
    requires IsFirstMin(a, k) && IsFirstMin(a, m)
    ensures k == m
  {
    assert a[k] <= a[m] && a[m] <= a[k];
  }

  /**
   * `argmin`: `k` starts at 0 and moves to `i` only when `array[i] <
   * array[k]`, so ties keep the earlier index.
   */
  method Argmin(a: seq<u32>) returns (r: Option<nat>)
    ensures r.None? <==> |a| == 0
    ensures r.Some? ==> IsFirstMin(a, r.value)
    ensures r == ArgminFold(a)
  {
    if |a| == 0 {
      return None;
    }
    var k := 0;
    for i := 0 to |a|
      invariant k < |a|
      invariant i == 0 ==> k == 0
      invariant i > 0 ==> FirstMinOfPrefix(a, i, k)
    {
      if a[i] < a[k] {
        k := i;
      }
    }
    ArgminFoldIs(a, k);
    return Some(k);
  }

  /**
   * The fold behind `enumerate().min_by_key(|(_, &v)| v)`, from index `i`
   * with the index `best` chosen so far: a later element replaces it only
   * when strictly smaller, so the first of equal minima is kept.
   */
  function MinByKey(a: seq<u32>, i: nat, best: nat): (r: nat)
    requires FirstMinOfPrefix(a, i, best)
    ensures IsFirstMin(a, r)
    decreases |a| - i
  {
    if i == |a| then best
    else MinByKey(a, i + 1, if a[i] < a[best] then i else best)
  }

  /** `argmin_fold`: `None` for an empty slice, otherwise the index `min_by_key` keeps. */
  function ArgminFold(a: seq<u32>): (r: Option<nat>)
    ensures r.None? <==> |a| == 0
    ensures r.Some? ==> IsFirstMin(a, r.value)
  {
    if |a| == 0 then None else Some(MinByKey(a, 1, 0))
  }

  /** The fold's index is the first minimum, whichever way that is established. */
  lemma ArgminFoldIs(a: seq<u32>, k: nat)
    requires IsFirstMin(a, k)
    ensures ArgminFold(a) == Some(k)
  {
    FirstMinUnique(a, k, ArgminFold(a).value);
  }

  /** `TEST_CASE`: 40 ones with a single 0 at index 19. */
  function TestCase(): (a: seq<u32>)
    ensures |a| == 40
  {
    seq(40, k => if k == 19 then 0 else 1)
  }

  /** The answer `TEST_ANS` of the tests: 19 is the first minimum of `TEST_CASE`. */
  lemma TestAnswer()
    ensures IsFirstMin(TestCase(), 19)
  {
  }

  /** `basic_fold_test`. */
  lemma BasicFoldTest()
    ensures ArgminFold(TestCase()) == Some(19)
  {
    TestAnswer();
    ArgminFoldIs(TestCase(), 19);
  }

  /** `basic_test`. */
  method BasicTest() returns (r: Option<nat>)
    ensures r == Some(19)
  {
    BasicFoldTest();
    r := Argmin(TestCase());
  }

  /** `empty_test`. */
  method EmptyTest() returns (r: Option<nat>)
    ensures r.None?
  {
    r := Argmin([]);
  }
}

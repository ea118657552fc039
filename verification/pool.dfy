/**
 * The size rounding of one implementation of the shared array pool that
 * ExpandBuffer rents its storage from: .NET's ArrayPool<T>.Shared since .NET 6,
 * which serves a request of n elements with the empty array for n == 0, with a
 * power-of-two block of at least 16 elements up to 2^30, and with exactly n
 * elements above that. The buffer itself relies only on the weaker contract of
 * ExpandBuffers.Rent; these facts serve the corollaries about this pool.
 */
module SharedArrayPool {

  import opened Powers

  /** The smallest bucket the shared pool hands out. */
  const MinBucket := 16
  /** Requests above this size are not bucketed: the pool allocates exactly n. */
  const MaxBucket := 0x4000_0000

  /**
   * The exponent of the bucket that serves a request of n elements, searching
   * upwards from bucket k: the first k' >= k whose bucket holds n.
   */
  function BucketIndex(k: nat, n: nat): (r: nat)
    ensures r >= k
    ensures MinBucket * Pow2(r) >= n
    ensures r == k || MinBucket * Pow2(r - 1) < n
    decreases n - MinBucket * Pow2(k)
  {
    if MinBucket * Pow2(k) >= n then k else BucketIndex(k + 1, n)
  }

  /**
   * The length of the array the shared pool returns for a request of n
   * elements: it holds the request, and it is empty only for an empty request.
   */
  function BucketSize(n: nat): (r: nat)
    ensures n <= r
    ensures r == 0 <==> n == 0
  {
    if n == 0 then 0
    else if n > MaxBucket then n
    else MinBucket * Pow2(BucketIndex(0, n))
  }

  /** Searching from bucket k never goes past a bucket j that already holds n. */
  lemma {:induction false} BucketIndexWithin(k: nat, n: nat, j: nat)
    requires k <= j && n <= MinBucket * Pow2(j)
    ensures BucketIndex(k, n) <= j
    decreases j - k
  {
    if MinBucket * Pow2(k) < n {
      if k == j {
        assert false;
      }
      BucketIndexWithin(k + 1, n, j);
    }
  }

  /**
   * A request no larger than a bucket size is served by a block no larger than
   * that bucket: the pool's rounding never overshoots a power-of-two ceiling.
   */
  lemma BucketSizeWithin(n: nat, j: nat)
    requires n <= MinBucket * Pow2(j) <= MaxBucket
    ensures BucketSize(n) <= MinBucket * Pow2(j)
  {
    if n > 0 {
      BucketIndexWithin(0, n, j);
      Pow2Monotone(BucketIndex(0, n), j);
    }
  }

  /** Searching from any bucket at or below bucket k for exactly its size stops at k. */
  lemma {:induction false} BucketIndexOfBucket(i: nat, k: nat)
    requires i <= k
    ensures BucketIndex(i, MinBucket * Pow2(k)) == k
    decreases k - i
  {
    if i < k {
      Pow2StrictMonotone(i, k);
      BucketIndexOfBucket(i + 1, k);
    }
  }

  /**
   * Rounding is idempotent: a block the pool hands out is itself of a bucket
   * size, so asking for exactly its length again yields the same length.
   */
  lemma BucketSizeIdempotent(n: nat)
    ensures BucketSize(BucketSize(n)) == BucketSize(n)
  {
    if 0 < n <= MaxBucket {
      var k := BucketIndex(0, n);
      Pow2Values();
      BucketSizeWithin(n, 26);
      BucketIndexOfBucket(0, k);
    }
  }
}

/** `bucketSort`: spread the values over `floor(sqrt(n))` buckets by their
    share of the value range, sort each bucket and concatenate the buckets
    in index order. */
module BucketSort {
  import opened SortSpec
  import opened Utilities
  import opened Keyed

  /** The number of buckets, `(int) sqrt(n)`: the integer square root,
      computed exactly. */
  function FloorSqrt(n: nat): (r: nat)
    ensures r * r <= n < (r + 1) * (r + 1)
  {
    if n == 0 then 0
    else
      var r := FloorSqrt(n - 1);
      if (r + 1) * (r + 1) <= n then
        assert (r + 2) * (r + 2) == (r + 1) * (r + 1) + 2 * r + 3;
        r + 1
      else r
  }

  /** A non-empty input gets at least one bucket. */
  lemma FloorSqrtPositive(n: nat)
    requires n >= 1
    ensures FloorSqrt(n) >= 1
  {
  }

  /** Below `d * k` the quotient by `d` is below `k`. */
  lemma DivBelow(x: int, d: Pos, k: int)
    requires 0 <= x < d * k
    ensures 0 <= x / d < k
  {
    DivNonNegative(x, d);
    if x / d >= k {
      MulLe(k, x / d, d);
      assert false;
    }
  }

  /** Division by a positive divisor is monotone. */
  lemma DivMono(x: int, y: int, d: Pos)
    requires x <= y
    ensures x / d <= y / d
  {
    if x / d > y / d {
      MulLe(y / d + 1, x / d, d);
      assert false;
    }
  }

  /** For every value between the minimum and the maximum the scaled index
      `(v - minVal) * count / range` lies in `[0, count)`: the clamp to the
      last bucket never applies, and the key is the scaled index itself. */
  lemma BucketIndexInRange(minVal: int, maxVal: int, count: Pos, v: int)
    requires minVal <= v <= maxVal
    ensures 0 <= ((v - minVal) * count) / (maxVal - minVal + 1) < count
    ensures KeyOf(Bucket(minVal, maxVal - minVal + 1, count), v) ==
      ((v - minVal) * count) / (maxVal - minVal + 1)
  {
    var range := maxVal - minVal + 1;
    MulLe(0, v - minVal, count);
    MulLe(v - minVal + 1, range, count);
    assert (v - minVal + 1) * count == (v - minVal) * count + count;
    DivBelow((v - minVal) * count, range, count);
  }

  /** The bucket index never decreases as the value grows. */
  lemma BucketMonotone(key: Key, v: int, w: int)
    requires key.Bucket? && key.minVal <= v <= w
    ensures KeyOf(key, v) <= KeyOf(key, w)
  {
    MulLe(v - key.minVal, w - key.minVal, key.count);
    DivMono((v - key.minVal) * key.count, (w - key.minVal) * key.count, key.range);
  }

  /** A C++ `int` result on the usual two's-complement machine: `x` wrapped
      into `[-2^31, 2^31)`. */
  function Wrap32(x: int): (r: int)
    ensures -0x8000_0000 <= r < 0x8000_0000
    ensures (r - x) % 0x1_0000_0000 == 0
  {
    (x + 0x8000_0000) % 0x1_0000_0000 - 0x8000_0000
  }

  /** The bucket index as the program computes it in 32-bit `int`
      arithmetic: the product `(num - minVal) * numBuckets` wraps, and the
      division truncates toward zero. */
  function BucketIndex32(v: int, minVal: int, range: Pos, count: Pos): (r: int)
    ensures r < count
    ensures minVal <= v && (v - minVal) * count < 0x8000_0000 ==>
      r == BucketIndex(v, minVal, range, count)
  {
    var b := CppDiv(Wrap32((v - minVal) * count), range);
    var clamped := if b >= count then count - 1 else b;
    if minVal <= v && (v - minVal) * count < 0x8000_0000 then
      MulLe(0, v - minVal, count);
      ModSmall((v - minVal) * count + 0x8000_0000, 0x1_0000_0000);
      clamped
    else clamped
  }


  /** Nine elements from 0 to 999999999 get three buckets, and for the
      maximum the product 2999999997 wraps to a negative number: the
      32-bit index is -1, outside the buckets, where the exact index is the
      last bucket. */
  lemma BucketIndexOverflow()
    ensures FloorSqrt(9) == 3
    ensures BucketIndex32(999_999_999, 0, 1_000_000_000, 3) == -1
    ensures KeyOf(Bucket(0, 1_000_000_000, 3), 999_999_999) == 2
  {
    assert FloorSqrt(4) == 2;
    assert FloorSqrt(9) == 3;
  }

  /** A value in a lower bucket is smaller than a value in a higher one. */
  lemma BucketOrder(key: Key, v: int, w: int)
    requires key.Bucket? && key.minVal <= v && key.minVal <= w
    requires KeyOf(key, v) < KeyOf(key, w)
    ensures v < w
  {
    if w <= v {
      BucketMonotone(key, w, v);
    }
  }

  /** The minimum goes to bucket 0, whatever the range and count. */
  lemma MinimumInFirstBucket(minVal: int, range: Pos, count: Pos)
    ensures KeyOf(Bucket(minVal, range, count), minVal) == 0
  {
  }

  /** Filtering by a key every element has keeps everything. */
  lemma {:induction false} FilterWhole(s: seq<int>, key: Key, k: int)
    requires forall i :: 0 <= i < |s| ==> KeyOf(key, s[i]) == k
    ensures Filter(s, key, k) == s
  {
    if s != [] {
      var init, last := s[..|s| - 1], s[|s| - 1];
      assert forall i :: 0 <= i < |init| ==> KeyOf(key, init[i]) == k by {
        forall i | 0 <= i < |init| ensures KeyOf(key, init[i]) == k {
          assert init[i] == s[i];
        }
      }
      FilterWhole(init, key, k);
      assert Filter(s, key, k) == Filter(init, key, k) + [last];
      assert s == init + [last];
    }
  }

  /** When all the values are equal the range is 1 and every value lands
      in bucket 0, whatever the number of buckets. */
  lemma AllEqualOneBucket(s: seq<int>, count: Pos)
    requires |s| > 0 && forall i :: 0 <= i < |s| ==> s[i] == s[0]
    ensures MaxOf(s) - MinOf(s) + 1 == 1
    ensures Filter(s, Bucket(MinOf(s), MaxOf(s) - MinOf(s) + 1, count), 0) == s
  {
    var lo, hi := MinOf(s), MaxOf(s);
    assert lo == s[0] && hi == s[0];
    forall i | 0 <= i < |s|
      ensures KeyOf(Bucket(lo, 1, count), s[i]) == 0
    {
      MinimumInFirstBucket(lo, 1, count);
    }
    FilterWhole(s, Bucket(lo, 1, count), 0);
  }

  /** A permutation of `u` plus `x` has every lower bound of `u` that `x` has. */
  lemma PermutationLowerBound(t: seq<int>, u: seq<int>, x: int, lo: int)
    requires multiset(t) == multiset(u) + multiset{x}
    requires lo <= x && forall p :: 0 <= p < |u| ==> lo <= u[p]
    ensures forall p :: 0 <= p < |t| ==> lo <= t[p]
  {
    forall p | 0 <= p < |t| ensures lo <= t[p] {
      assert t[p] in multiset(t);
      if t[p] != x {
        assert t[p] in multiset(u);
      }
    }
  }

  /** Inserting into a sorted sequence. */
  function Insert(s: seq<int>, x: int): (r: seq<int>)
    requires Sorted(s)
    ensures Sorted(r) && multiset(r) == multiset(s) + multiset{x}
  {
    if s == [] || x <= s[0] then
      InsertFront(s, x);
      [x] + s
    else
      var rest := Insert(s[1..], x);
      InsertAfterHead(s, x, rest);
      [s[0]] + rest
  }

  /** A value at most the head goes in front. */
  lemma InsertFront(s: seq<int>, x: int)
    requires Sorted(s) && (s == [] || x <= s[0])
    ensures Sorted([x] + s) && multiset([x] + s) == multiset(s) + multiset{x}
  {
    ConsSorted(x, s);
  }

  /** A value above the head goes into the tail, behind the head. */
  lemma InsertAfterHead(s: seq<int>, x: int, rest: seq<int>)
    requires Sorted(s) && s != [] && s[0] < x
    requires Sorted(rest) && multiset(rest) == multiset(s[1..]) + multiset{x}
    ensures Sorted([s[0]] + rest) && multiset([s[0]] + rest) == multiset(s) + multiset{x}
  {
    assert s == [s[0]] + s[1..];
    PermutationLowerBound(rest, s[1..], x, s[0]);
    ConsSorted(s[0], rest);
  }


  /** A lower bound of a sorted sequence can be put in front of it. */
  lemma ConsSorted(x: int, s: seq<int>)
    requires Sorted(s) && forall p :: 0 <= p < |s| ==> x <= s[p]
    ensures Sorted([x] + s)
  {
  }

  /** The sort applied to each bucket (a `std::sort` call): an insertion sort. */
  function SortSeq(s: seq<int>): (r: seq<int>)
    ensures Sorted(r) && multiset(r) == multiset(s)
  {
    if s == [] then []
    else
      assert s == s[..|s| - 1] + [s[|s| - 1]];
      Insert(SortSeq(s[..|s| - 1]), s[|s| - 1])
  }

  /** The distribution loop: bucket `b` holds, in input order, the elements
      whose scaled index (clamped to the last bucket) is `b`. */
  method DistributeBuckets(arr: seq<int>, minVal: int, range: Pos, numBuckets: Pos)
    returns (buckets: seq<seq<int>>)
    requires forall i :: 0 <= i < |arr| ==> minVal <= arr[i]
    ensures |buckets| == numBuckets
    ensures forall b :: 0 <= b < numBuckets ==>
      buckets[b] == Filter(arr, Bucket(minVal, range, numBuckets), b)
  {
    ghost var key := Bucket(minVal, range, numBuckets);
    buckets := seq(numBuckets, _ => []);
    var i := 0;
    while i < |arr|
      invariant 0 <= i <= |arr| && |buckets| == numBuckets
      invariant forall b :: 0 <= b < numBuckets ==> buckets[b] == Filter(arr[..i], key, b)
    {
      var num := arr[i];
      MulLe(0, num - minVal, numBuckets);
      DivNonNegative((num - minVal) * numBuckets, range);
      var bucketIdx := ((num - minVal) * numBuckets) / range;
      if bucketIdx >= numBuckets {
        bucketIdx := numBuckets - 1;
      }
      assert bucketIdx == KeyOf(key, num);
      assert arr[..i + 1] == arr[..i] + [num];
      forall b | 0 <= b < numBuckets
        ensures Filter(arr[..i + 1], key, b) == Filter(arr[..i], key, b) + (if b == bucketIdx then [num] else [])
      {
        FilterSnoc(arr[..i], num, key, b);
      }
      buckets := buckets[bucketIdx := buckets[bucketIdx] + [num]];
      i := i + 1;
    }
    assert arr[..|arr|] == arr;
  }

  /** The loop that sorts every bucket. */
  method SortBuckets(buckets: seq<seq<int>>) returns (sorted: seq<seq<int>>)
    ensures |sorted| == |buckets|
    ensures forall b :: 0 <= b < |buckets| ==>
      Sorted(sorted[b]) && multiset(sorted[b]) == multiset(buckets[b])
  {
    sorted := buckets;
    var b := 0;
    while b < |buckets|
      invariant 0 <= b <= |buckets| && |sorted| == |buckets|
      invariant forall c :: 0 <= c < b ==> Sorted(sorted[c]) && multiset(sorted[c]) == multiset(buckets[c])
    {
      sorted := sorted[b := SortSeq(buckets[b])];
      b := b + 1;
    }
  }

  /** The state of the concatenation loop after the buckets below `b`: the
      written prefix `r` is a sorted permutation of their elements, each at
      least the minimum and with a bucket index below `b`. */
  ghost predicate Concatenated(s: seq<int>, key: Key, r: seq<int>, b: nat)
  {
    key.Bucket? &&
    multiset(r) == multiset(Gather(s, key, b)) && Sorted(r) &&
    forall p :: 0 <= p < |r| ==> key.minVal <= r[p] && KeyOf(key, r[p]) < b
  }

  /** Appending the sorted bucket `b` extends the sorted prefix. */
  lemma ConcatStep(s: seq<int>, key: Key, pre: seq<int>, blk: seq<int>, b: nat)
    requires Concatenated(s, key, pre, b)
    requires forall i :: 0 <= i < |s| ==> key.minVal <= s[i]
    requires Sorted(blk) && multiset(blk) == multiset(Filter(s, key, b))
    ensures Concatenated(s, key, pre + blk, b + 1)
  {
    var f := Filter(s, key, b);
    FilterMembers(s, key, b);
    forall p | 0 <= p < |blk|
      ensures key.minVal <= blk[p] && KeyOf(key, blk[p]) == b
    {
      assert blk[p] in multiset(f);
      var q :| 0 <= q < |f| && f[q] == blk[p];
      assert f[q] in s;
    }
    var r := pre + blk;
    forall i, j | 0 <= i < j < |r|
      ensures r[i] <= r[j]
    {
      if j < |pre| {
        assert r[i] == pre[i] && r[j] == pre[j];
      } else if i < |pre| {
        assert r[i] == pre[i] && r[j] == blk[j - |pre|];
        BucketOrder(key, r[i], r[j]);
      } else {
        assert r[i] == blk[i - |pre|] && r[j] == blk[j - |pre|];
      }
    }
    forall p | 0 <= p < |r|
      ensures key.minVal <= r[p] && KeyOf(key, r[p]) < b + 1
    {
      if p < |pre| { assert r[p] == pre[p]; } else { assert r[p] == blk[p - |pre|]; }
    }
  }

  /** The concatenation loop: write the sorted buckets back in index order. */
  method Concatenate(a: array<int>, ghost s: seq<int>, key: Key, sorted: seq<seq<int>>)
    requires key.Bucket? && |sorted| == key.count && |s| == a.Length
    requires forall i :: 0 <= i < |s| ==> key.minVal <= s[i]
    requires KeysBelow(s, key, key.count)
    requires forall b :: 0 <= b < |sorted| ==>
      Sorted(sorted[b]) && multiset(sorted[b]) == multiset(Filter(s, key, b))
    modifies a
    ensures Sorted(a[..]) && multiset(a[..]) == multiset(s)
  {
    assert |Gather(s, key, key.count)| == |s| by {
      GatherPermutation(s, key, key.count);
    }
    var idx := 0;
    var b := 0;
    while b < |sorted|
      invariant 0 <= b <= |sorted|
      invariant idx == |Gather(s, key, b)| <= a.Length
      invariant Concatenated(s, key, a[..idx], b)
    {
      assert |Gather(s, key, b + 1)| <= |Gather(s, key, key.count)| by {
        GatherPrefix(s, key, b + 1, key.count);
      }
      idx := AppendBucket(a, s, key, sorted[b], b, idx);
      b := b + 1;
    }
    assert a[..idx] == a[..];
    GatherPermutation(s, key, key.count);
  }

  /** One round of the concatenation loop: write the sorted bucket `b` from
      `start` on, after the buckets below it. */
  method AppendBucket(a: array<int>, ghost s: seq<int>, key: Key, bucket: seq<int>, b: nat, start: nat)
    returns (next: nat)
    requires forall i :: 0 <= i < |s| ==> key.Bucket? && key.minVal <= s[i]
    requires Sorted(bucket) && multiset(bucket) == multiset(Filter(s, key, b))
    requires start == |Gather(s, key, b)| && |Gather(s, key, b + 1)| <= a.Length
    requires Concatenated(s, key, a[..start], b)
    modifies a
    ensures next == |Gather(s, key, b + 1)|
    ensures Concatenated(s, key, a[..next], b + 1)
    ensures SameOutside(old(a[..]), a[..], start, next - 1)
  {
    assert |bucket| == |Filter(s, key, b)| by {
      assert |multiset(bucket)| == |multiset(Filter(s, key, b))|;
    }
    assert |Gather(s, key, b + 1)| == start + |bucket| by {
      assert Gather(s, key, b + 1) == Gather(s, key, b) + Filter(s, key, b);
    }
    ghost var before, pre := a[..], a[..start];
    next := CopyBucket(a, bucket, start);
    Splice(before, a[..], 0, start, next);
    ConcatStep(s, key, pre, bucket, b);
  }

  /** `bucketSort`: the array ends up sorted and a permutation of itself. */
  method BucketSort(a: array<int>)
    modifies a
    ensures Sorted(a[..])
    ensures multiset(a[..]) == multiset(old(a[..]))
  {
    if a.Length == 0 {
      return;
    }
    ghost var s := a[..];
    var maxVal := MaxOf(a[..]);
    var minVal := MinOf(a[..]);
    var range := maxVal - minVal + 1;
    var numBuckets: int := FloorSqrt(a.Length);
    if numBuckets == 0 {
      numBuckets := 1;
    }
    var key := Bucket(minVal, range, numBuckets);
    assert forall i :: 0 <= i < |s| ==> minVal <= s[i] <= maxVal by {
      forall i | 0 <= i < |s| ensures minVal <= s[i] <= maxVal {
        assert s[i] in s;
      }
    }
    assert KeysBelow(s, key, numBuckets) by {
      forall i | 0 <= i < |s| ensures 0 <= KeyOf(key, s[i]) < numBuckets {
        BucketIndexInRange(minVal, maxVal, numBuckets, s[i]);
      }
    }
    var buckets := DistributeBuckets(a[..], minVal, range, numBuckets);
    var sorted := SortBuckets(buckets);
    Concatenate(a, s, key, sorted);
  }
}

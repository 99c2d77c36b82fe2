/** `countingSortForRadix`, `lsdRadixSort`, `msdRadixSortHelper` and
    `msdRadixSort`: decimal radix sorts of non-negative integers. */
module RadixSort {
  import opened SortSpec
  import opened Utilities
  import opened Keyed
  import opened CountingSort

  /** The number base of the radix sorts: ten counts or buckets, one per digit. */
  const Base: Pos := 10

  /** Every element is non-negative: the radix sorts index their ten counts
      or buckets by the digit, and in C++ a negative element's digit is
      negative or zero; a non-zero negative digit would index outside the
      ten counts or buckets (see `NegativeDigit`). */
  predicate NonNegative(s: seq<int>)
  {
    forall i :: 0 <= i < |s| ==> 0 <= s[i]
  }

  /** On a non-negative value the program's digit `(v / exp) % 10` is the
      key the pass distributes by. */
  lemma RadixDigit(v: int, exp: Pos)
    requires v >= 0
    ensures 0 <= CppRem(CppDiv(v, exp), 10) < 10
    ensures CppRem(CppDiv(v, exp), 10) == KeyOf(Digit(exp), v)
  {
    TruncatedDigit(v, exp);
  }

  /** `countingSortForRadix`: the stable counting pass keyed by the digit
      selected by `exp`. */
  method CountingSortForRadix(a: array<int>, exp: Pos)
    requires NonNegative(a[..])
    modifies a
    ensures a[..] == Gather(old(a[..]), Digit(exp), Base)
    ensures multiset(a[..]) == multiset(old(a[..]))
  {
    ghost var s := a[..];
    assert KeysBelow(s, Digit(exp), Base);
    GatherPermutation(s, Digit(exp), Base);
    StableCountingPass(a, Digit(exp), Base);
  }

  /** A prefix sorted modulo `10 * e` whose digits at `e` lie below `c`,
      followed by a block sorted modulo `e` whose digits at `e` all equal
      `c`, is sorted modulo `10 * e`. */
  lemma BlockAppend(pre: seq<int>, blk: seq<int>, e: Pos, c: int)
    requires SortedMod(pre, 10 * e) && SortedMod(blk, e)
    requires forall i :: 0 <= i < |pre| ==> KeyOf(Digit(e), pre[i]) < c
    requires forall i :: 0 <= i < |blk| ==> KeyOf(Digit(e), blk[i]) == c
    ensures SortedMod(pre + blk, 10 * e)
  {
    var r := pre + blk;
    forall i, j | 0 <= i < j < |r|
      ensures r[i] % (10 * e) <= r[j] % (10 * e)
    {
      if j < |pre| {
        assert r[i] == pre[i] && r[j] == pre[j];
      } else if i < |pre| {
        assert r[i] == pre[i] && r[j] == blk[j - |pre|];
        DigitOrder(r[i], r[j], e);
      } else {
        assert r[i] == blk[i - |pre|] && r[j] == blk[j - |pre|];
        DigitTie(r[i], r[j], e);
      }
    }
  }

  /** The radix pass invariant: a pass by the digit at `e` over a sequence
      sorted modulo `e` leaves it sorted modulo `10 * e`. */
  lemma {:induction false} GatherDigitSorted(s: seq<int>, e: Pos, k: nat)
    requires SortedMod(s, e)
    ensures SortedMod(Gather(s, Digit(e), k), 10 * e)
  {
    if k > 0 {
      var g, f := Gather(s, Digit(e), k - 1), Filter(s, Digit(e), k - 1);
      assert Gather(s, Digit(e), k) == g + f;
      assert SortedMod(g, 10 * e) by {
        GatherDigitSorted(s, e, k - 1);
      }
      assert forall i :: 0 <= i < |g| ==> KeyOf(Digit(e), g[i]) < k - 1 by {
        GatherMembers(s, Digit(e), k - 1);
      }
      assert forall i :: 0 <= i < |f| ==> KeyOf(Digit(e), f[i]) == k - 1 by {
        FilterMembers(s, Digit(e), k - 1);
      }
      assert SortedMod(f, e) by {
        FilterSortedMod(s, Digit(e), k - 1, e);
      }
      BlockAppend(g, f, e, k - 1);
    }
  }

  /** A permutation keeps every element within the same bounds. */
  lemma PermutationBounds(s: seq<int>, r: seq<int>, lo: int, hi: int)
    requires multiset(r) == multiset(s)
    requires forall i :: 0 <= i < |s| ==> lo <= s[i] <= hi
    ensures forall i :: 0 <= i < |r| ==> lo <= r[i] <= hi
  {
    forall i | 0 <= i < |r|
      ensures lo <= r[i] <= hi
    {
      assert r[i] in multiset(r);
      var j :| 0 <= j < |s| && s[j] == r[i];
    }
  }

  /** Below the modulus, order modulo `m` is plain order. */
  lemma SortedModSmall(s: seq<int>, m: Pos)
    requires SortedMod(s, m)
    requires forall i :: 0 <= i < |s| ==> 0 <= s[i] < m
    ensures Sorted(s)
  {
    forall i, j | 0 <= i < j < |s|
      ensures s[i] <= s[j]
    {
      ModSmall(s[i], m);
      ModSmall(s[j], m);
    }
  }

  lemma QuotientBounds(v: int, e: Pos)
    requires v >= 0
    ensures v / e > 0 ==> e <= v
    ensures v / e == 0 ==> v < e
  {
    DivNonNegative(v, e);
    if v / e > 0 {
      MulLe(1, v / e, e);
    }
  }

  /** The elements of a non-negative sequence lie between 0 and its maximum. */
  lemma MaxBounds(s: seq<int>)
    requires |s| > 0 && NonNegative(s)
    ensures forall i :: 0 <= i < |s| ==> 0 <= s[i] <= MaxOf(s)
  {
    forall i | 0 <= i < |s|
      ensures 0 <= s[i] <= MaxOf(s)
    {
      assert s[i] in s;
    }
  }

  /** The state of the LSD loop before the pass at `exp`: a permutation of
      the input `s`, within `[0, maxVal]`, sorted modulo `exp`. */
  ghost predicate LsdProgress(s: seq<int>, r: seq<int>, exp: Pos, maxVal: int)
  {
    multiset(r) == multiset(s) &&
    (forall i :: 0 <= i < |r| ==> 0 <= r[i] <= maxVal) &&
    SortedMod(r, exp)
  }

  /** One pass of the LSD loop keeps the elements and their bounds, and takes
      the order modulo `exp` to the order modulo `10 * exp`. */
  lemma LsdStep(s: seq<int>, before: seq<int>, after: seq<int>, exp: Pos, maxVal: int)
    requires LsdProgress(s, before, exp, maxVal)
    requires after == Gather(before, Digit(exp), Base)
    requires multiset(after) == multiset(before)
    ensures LsdProgress(s, after, 10 * exp, maxVal)
  {
    GatherDigitSorted(before, exp, Base);
    PermutationBounds(before, after, 0, maxVal);
  }

  /** Once `exp` exceeds the maximum, order modulo `exp` is plain order. */
  lemma LsdDone(s: seq<int>, r: seq<int>, exp: Pos, maxVal: int)
    requires LsdProgress(s, r, exp, maxVal) && maxVal < exp
    ensures Sorted(r) && multiset(r) == multiset(s)
  {
    SortedModSmall(r, exp);
  }

  /** `lsdRadixSort`: one stable pass per decimal digit of the maximum, from
      the least significant. After the pass with `exp = 10^k` the array is
      sorted modulo `10^(k+1)`; once `exp` exceeds the maximum that order is
      plain order. */
  method LsdRadixSort(a: array<int>)
    requires NonNegative(a[..])
    modifies a
    ensures Sorted(a[..])
    ensures multiset(a[..]) == multiset(old(a[..]))
  {
    if a.Length == 0 {
      return;
    }
    ghost var s := a[..];
    var maxVal := MaxOf(a[..]);
    MaxBounds(s);
    DigitPasses(a, maxVal, s);
  }

  /** The loop of `lsdRadixSort`: passes with `exp = 1, 10, 100, ...` while
      `maxVal / exp > 0`. */
  method DigitPasses(a: array<int>, maxVal: int, ghost s: seq<int>)
    requires maxVal >= 0 && LsdProgress(s, a[..], 1, maxVal)
    modifies a
    ensures Sorted(a[..]) && multiset(a[..]) == multiset(s)
  {
    var exp := 1;
    ghost var k := 0;
    while maxVal / exp > 0
      invariant exp == Pow10(k)
      invariant LsdProgress(s, a[..], exp, maxVal)
      decreases maxVal + 1 - exp
    {
      QuotientBounds(maxVal, exp);
      ghost var before := a[..];
      CountingSortForRadix(a, exp);
      LsdStep(s, before, a[..], exp, maxVal);
      exp := 10 * exp;
      k := k + 1;
    }
    QuotientBounds(maxVal, exp);
    LsdDone(s, a[..], exp, maxVal);
  }

  /** A filter of a non-negative sequence is non-negative. */
  lemma {:induction false} FilterNonNegative(s: seq<int>, key: Key, c: int)
    requires NonNegative(s)
    ensures NonNegative(Filter(s, key, c))
  {
    if s != [] {
      var init := s[..|s| - 1];
      assert NonNegative(init) by {
        forall i | 0 <= i < |init| ensures 0 <= init[i] {
          assert init[i] == s[i];
        }
      }
      FilterNonNegative(init, key, c);
    }
  }

  /** Every element is non-negative and has digit `c` at `e`. */
  ghost predicate DigitBlock(r: seq<int>, e: Pos, c: int)
  {
    forall p :: 0 <= p < |r| ==> 0 <= r[p] && KeyOf(Digit(e), r[p]) == c
  }

  /** A permutation of a digit block is a digit block. */
  lemma DigitBlockPermutation(f: seq<int>, r: seq<int>, e: Pos, c: int)
    requires DigitBlock(f, e, c) && multiset(r) == multiset(f)
    ensures DigitBlock(r, e, c)
  {
    forall p | 0 <= p < |r|
      ensures 0 <= r[p] && KeyOf(Digit(e), r[p]) == c
    {
      assert r[p] in multiset(r);
      var q :| 0 <= q < |f| && f[q] == r[p];
    }
  }

  /** The elements of a non-negative sequence with digit `c` form a digit block. */
  lemma FilterDigitBlock(s: seq<int>, e: Pos, c: int)
    requires NonNegative(s)
    ensures DigitBlock(Filter(s, Digit(e), c), e, c)
  {
    FilterNonNegative(s, Digit(e), c);
    FilterMembers(s, Digit(e), c);
  }

  /** `getDigit` picks the bucket of each element. The distribution loop of
      `msdRadixSortHelper`: afterwards bucket `c` holds the elements of
      `a[left..right]` whose digit at position `digit` is `c`, in order. */
  method Distribute(a: array<int>, left: int, right: int, digit: nat) returns (buckets: seq<seq<int>>)
    requires 0 <= left <= right < a.Length && NonNegative(a[left..right + 1])
    ensures |buckets| == Base
    ensures forall c :: 0 <= c < Base ==> buckets[c] == Filter(a[left..right + 1], Digit(Pow10(digit)), c)
  {
    ghost var key := Digit(Pow10(digit));
    buckets := seq(Base, _ => []);
    var i := left;
    while i <= right
      invariant left <= i <= right + 1
      invariant |buckets| == Base
      invariant forall c :: 0 <= c < Base ==> buckets[c] == Filter(a[left..i], key, c)
    {
      assert a[i] == a[left..right + 1][i - left];
      var d := GetDigit(a[i], digit);
      assert a[left..i + 1] == a[left..i] + [a[i]];
      forall c | 0 <= c < Base
        ensures Filter(a[left..i + 1], key, c) == Filter(a[left..i], key, c) + (if c == d then [a[i]] else [])
      {
        FilterSnoc(a[left..i], a[i], key, c);
      }
      buckets := buckets[d := buckets[d] + [a[i]]];
      i := i + 1;
    }
  }

  /** The state of the placement loop of `msdRadixSortHelper` after the
      buckets below `i`: the written part `r` is a permutation of their
      elements, sorted modulo `10 * e`, with digits at `e` below `i`. */
  ghost predicate MsdProgress(sub: seq<int>, r: seq<int>, e: Pos, i: nat)
  {
    multiset(r) == multiset(Gather(sub, Digit(e), i)) &&
    SortedMod(r, 10 * e) &&
    forall p :: 0 <= p < |r| ==> 0 <= r[p] && KeyOf(Digit(e), r[p]) < i
  }

  /** Appending bucket `i`, sorted modulo `e`, extends the progress. */
  lemma MsdStep(sub: seq<int>, pre: seq<int>, blk: seq<int>, e: Pos, i: nat)
    requires NonNegative(sub) && MsdProgress(sub, pre, e, i)
    requires multiset(blk) == multiset(Filter(sub, Digit(e), i)) && SortedMod(blk, e)
    ensures MsdProgress(sub, pre + blk, e, i + 1)
  {
    FilterDigitBlock(sub, e, i);
    DigitBlockPermutation(Filter(sub, Digit(e), i), blk, e, i);
    BlockAppend(pre, blk, e, i);
    var r := pre + blk;
    forall p | 0 <= p < |r|
      ensures 0 <= r[p] && KeyOf(Digit(e), r[p]) < i + 1
    {
      if p < |pre| { assert r[p] == pre[p]; } else { assert r[p] == blk[p - |pre|]; }
    }
  }

  /** After the last bucket the written part is a permutation of the range. */
  lemma MsdDone(sub: seq<int>, r: seq<int>, e: Pos)
    requires NonNegative(sub) && MsdProgress(sub, r, e, Base)
    ensures multiset(r) == multiset(sub) && |r| == |sub|
    ensures SortedMod(r, 10 * e)
  {
    GatherPermutation(sub, Digit(e), Base);
    assert |multiset(r)| == |r|;
  }

  /** At most one element is always sorted. */
  lemma ShortSortedMod(r: seq<int>, m: Pos)
    requires |r| <= 1
    ensures SortedMod(r, m)
  {
  }

  /** `msdRadixSortHelper`: distribute `a[left..right]` into ten buckets by
      the digit at position `digit`, write the buckets back in digit order
      and sort each bucket of two or more elements by the next lower digit.
      The range ends up a permutation of itself, sorted modulo
      `10^(digit+1)`; nothing outside it changes. */
  method MsdRadixSortHelper(a: array<int>, left: int, right: int, digit: int)
    requires left < right && digit >= 0 ==>
      0 <= left && right < a.Length && NonNegative(a[left..right + 1])
    modifies a
    decreases if digit < 0 then 0 else digit + 1, 3
    ensures left >= right || digit < 0 ==> a[..] == old(a[..])
    ensures SameOutside(old(a[..]), a[..], left, right)
    ensures left < right && digit >= 0 ==>
      multiset(a[left..right + 1]) == multiset(old(a[left..right + 1])) &&
      SortedMod(a[left..right + 1], Pow10(digit + 1))
  {
    if left >= right || digit < 0 {
      return;
    }
    ghost var sub := a[left..right + 1];
    var buckets := Distribute(a, left, right, digit);
    PlaceBuckets(a, sub, left, right, buckets, digit);
    MsdDone(sub, a[left..right + 1], Pow10(digit));
  }

  /** The placement loop of `msdRadixSortHelper`: write the ten buckets back
      into `a[left..right]` in digit order, each sorted by the lower digits. */
  method PlaceBuckets(a: array<int>, ghost sub: seq<int>, left: int, right: int,
                      buckets: seq<seq<int>>, digit: nat)
    requires 0 <= left <= right < a.Length && |sub| == right + 1 - left && NonNegative(sub)
    requires |buckets| == Base
    requires forall c :: 0 <= c < Base ==> buckets[c] == Filter(sub, Digit(Pow10(digit)), c)
    modifies a
    decreases digit + 1, 2
    ensures SameOutside(old(a[..]), a[..], left, right)
    ensures MsdProgress(sub, a[left..right + 1], Pow10(digit), Base)
  {
    ghost var e := Pow10(digit);
    ghost var orig := a[..];
    var idx := left;
    var i := 0;
    while i < Base
      invariant 0 <= i <= Base
      invariant idx == left + |Gather(sub, Digit(e), i)| && idx <= right + 1
      invariant SameOutside(orig, a[..], left, right)
      invariant MsdProgress(sub, a[left..idx], e, i)
    {
      idx := PlaceNext(a, sub, left, right, idx, buckets, digit, i, orig);
      i := i + 1;
    }
    assert idx == right + 1 by {
      GatherPermutation(sub, Digit(e), Base);
    }
  }

  /** One round of the placement loop, seen from the whole range: bucket
      `i` goes right after the buckets below it, inside `left .. right`. */
  method PlaceNext(a: array<int>, ghost sub: seq<int>, left: int, right: int, idx: int,
                   buckets: seq<seq<int>>, digit: nat, i: nat, ghost orig: seq<int>) returns (next: int)
    requires 0 <= left <= right < a.Length && |sub| == right + 1 - left && NonNegative(sub)
    requires |buckets| == Base && i < Base
    requires buckets[i] == Filter(sub, Digit(Pow10(digit)), i)
    requires idx == left + |Gather(sub, Digit(Pow10(digit)), i)| && idx <= right + 1
    requires SameOutside(orig, a[..], left, right)
    requires MsdProgress(sub, a[left..idx], Pow10(digit), i)
    modifies a
    decreases digit + 1, 1
    ensures next == left + |Gather(sub, Digit(Pow10(digit)), i + 1)| && next <= right + 1
    ensures SameOutside(orig, a[..], left, right)
    ensures MsdProgress(sub, a[left..next], Pow10(digit), i + 1)
    ensures SameOutside(old(a[..]), a[..], idx, next - 1)
  {
    ghost var e := Pow10(digit);
    assert |Gather(sub, Digit(e), i)| + |buckets[i]| == |Gather(sub, Digit(e), i + 1)| <= |sub| by {
      assert Gather(sub, Digit(e), i + 1) == Gather(sub, Digit(e), i) + Filter(sub, Digit(e), i);
      GatherPrefix(sub, Digit(e), i + 1, Base);
      GatherPermutation(sub, Digit(e), Base);
    }
    ghost var before := a[..];
    next := PlaceBucket(a, sub, left, right, idx, buckets[i], digit, i);
    SameOutsideTrans(orig, before, a[..], left, right, idx, next - 1);
  }

  /** One round of the placement loop of `msdRadixSortHelper`: write bucket
      `i` back from `start` on and, when it holds two or more elements, sort
      it by the next lower digit. */
  method PlaceBucket(a: array<int>, ghost sub: seq<int>, left: int, right: int, start: int,
                     bucket: seq<int>, digit: nat, i: nat) returns (next: int)
    requires 0 <= left <= start && start + |bucket| <= right + 1 && right < a.Length
    requires NonNegative(sub) && i < Base && bucket == Filter(sub, Digit(Pow10(digit)), i)
    requires MsdProgress(sub, a[left..start], Pow10(digit), i)
    modifies a
    decreases digit + 1, 0
    ensures next == start + |bucket|
    ensures SameOutside(old(a[..]), a[..], start, next - 1)
    ensures MsdProgress(sub, a[left..next], Pow10(digit), i + 1)
  {
    ghost var before := a[..];
    next := CopyBucket(a, bucket, start);
    var end := next - 1;
    ghost var copied := a[..];
    assert SameOutside(before, copied, start, end);
    if start < end {
      FilterNonNegative(sub, Digit(Pow10(digit)), i);
      MsdRadixSortHelper(a, start, end, digit - 1);
    } else {
      ShortSortedMod(a[start..next], Pow10(digit));
    }
    ghost var after := a[..];
    SameOutsideTrans(before, copied, after, start, end, start, end);
    Splice(before, after, left, start, next);
    MsdStep(sub, before[left..start], after[start..next], Pow10(digit), i);
  }

  /** Changes confined to `lo2 .. hi2`, inside `lo .. hi`, stay inside `lo .. hi`. */
  lemma SameOutsideTrans(x: seq<int>, y: seq<int>, z: seq<int>, lo: int, hi: int, lo2: int, hi2: int)
    requires SameOutside(x, y, lo, hi) && SameOutside(y, z, lo2, hi2)
    requires lo <= lo2 && hi2 <= hi
    ensures SameOutside(x, z, lo, hi)
  {
  }

  /** `msdRadixSort`: the helper over the whole array, from the most
      significant digit of the maximum. */
  method MsdRadixSort(a: array<int>)
    requires NonNegative(a[..])
    modifies a
    ensures Sorted(a[..])
    ensures multiset(a[..]) == multiset(old(a[..]))
  {
    if a.Length == 0 {
      return;
    }
    ghost var s := a[..];
    var maxDigits: int := GetMaxDigits(a[..]);
    MsdRadixSortHelper(a, 0, a.Length - 1, maxDigits - 1);
    assert a[0..a.Length] == a[..] && s[0..a.Length] == s;
    PermutationBounds(s, a[..], 0, Pow10(maxDigits) - 1);
    if a.Length == 1 {
      ShortSortedMod(a[..], Pow10(maxDigits));
    }
    SortedModSmall(a[..], Pow10(maxDigits));
  }
}

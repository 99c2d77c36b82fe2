/** `countingSortNonStable` and `countingSortStable`, and the stable
    counting pass the second one shares with the radix sort helper. */
module CountingSort {
  import opened SortSpec
  import opened Utilities
  import opened Keyed

  /** `n` copies of `v`: what the non-stable sort writes for one value. */
  function Repeat(v: int, n: nat): (r: seq<int>)
    ensures |r| == n
  {
    if n == 0 then [] else Repeat(v, n - 1) + [v]
  }

  /** Every element of `s` lies in `[minVal, minVal + range)`, so its shifted
      value is an index of the `count` array. */
  lemma ShiftKeysBelow(s: seq<int>)
    requires |s| > 0
    ensures KeysBelow(s, Shift(MinOf(s)), MaxOf(s) - MinOf(s) + 1)
  {
    forall i | 0 <= i < |s|
      ensures 0 <= KeyOf(Shift(MinOf(s)), s[i]) < MaxOf(s) - MinOf(s) + 1
    {
      assert s[i] in s;
    }
  }

  /** The elements with shifted value `k` are all equal to `k + minVal`, so
      writing `k + minVal` as often as they occur reproduces them. */
  lemma {:induction false} ShiftFilterRepeat(s: seq<int>, minVal: int, k: int)
    ensures Filter(s, Shift(minVal), k) == Repeat(k + minVal, |Filter(s, Shift(minVal), k)|)
  {
    if s != [] {
      ShiftFilterRepeat(s[..|s| - 1], minVal, k);
    }
  }

  /** Gathering by shifted value sorts. */
  lemma ShiftGatherSorted(s: seq<int>, minVal: int, k: nat)
    ensures Sorted(Gather(s, Shift(minVal), k))
  {
    GatherOrdered(s, Shift(minVal), k);
  }

  /** The order both counting sorts produce: the elements grouped by their
      offset from the minimum, offsets in increasing order. The counting
      array has one slot per value from the minimum to the maximum. */
  function CountingOrder(s: seq<int>): (r: seq<int>)
    requires |s| > 0
    ensures Sorted(r)
    ensures multiset(r) == multiset(s)
  {
    ShiftKeysBelow(s);
    GatherPermutation(s, Shift(MinOf(s)), MaxOf(s) - MinOf(s) + 1);
    ShiftGatherSorted(s, MinOf(s), MaxOf(s) - MinOf(s) + 1);
    Gather(s, Shift(MinOf(s)), MaxOf(s) - MinOf(s) + 1)
  }

  /** The count loop both counting sorts (and the radix pass) open with:
      afterwards `count[k]` is the number of elements whose key is `k`. */
  method CountKeys(a: array<int>, key: Key, bound: Pos) returns (count: array<int>)
    requires KeysBelow(a[..], key, bound)
    ensures fresh(count) && count.Length == bound
    ensures forall k :: 0 <= k < bound ==> count[k] == |Filter(a[..], key, k)|
  {
    count := new int[bound](_ => 0);
    var i := 0;
    while i < a.Length
      invariant 0 <= i <= a.Length
      invariant forall k :: 0 <= k < bound ==> count[k] == |Filter(a[..i], key, k)|
    {
      var c := KeyOf(key, a[i]);
      assert a[..i + 1] == a[..i] + [a[i]];
      forall k | 0 <= k < bound
        ensures |Filter(a[..i + 1], key, k)| == |Filter(a[..i], key, k)| + (if k == c then 1 else 0)
      {
        FilterSnoc(a[..i], a[i], key, k);
      }
      count[c] := count[c] + 1;
      i := i + 1;
    }
    assert a[..a.Length] == a[..];
  }

  /** `countingSortNonStable`: count each value, then write every value of
      the range as many times as it was counted. */
  method CountingSortNonStable(a: array<int>)
    modifies a
    ensures Sorted(a[..])
    ensures multiset(a[..]) == multiset(old(a[..]))
    ensures a.Length > 0 ==> a[..] == CountingOrder(old(a[..]))
  {
    if a.Length == 0 {
      return;
    }
    ghost var s := a[..];
    var maxVal := MaxOf(a[..]);
    var minVal := MinOf(a[..]);
    var range := maxVal - minVal + 1;
    var key := Shift(minVal);
    ShiftKeysBelow(s);
    var count := CountKeys(a, key, range);
    WriteCounts(a, count, s, minVal);
    assert minVal == MinOf(s) && maxVal == MaxOf(s) && count.Length == range;
    assert a[..] == CountingOrder(s);
  }

  /** The placement loop of `countingSortNonStable`: for each offset `i` of
      the range, in increasing order, write `i + minVal` as often as it was
      counted. */
  method WriteCounts(a: array<int>, count: array<int>, ghost s: seq<int>, minVal: int)
    requires a != count && count.Length > 0 && a.Length == |s|
    requires KeysBelow(s, Shift(minVal), count.Length)
    requires forall k :: 0 <= k < count.Length ==> count[k] == |Filter(s, Shift(minVal), k)|
    modifies a, count
    ensures a[..] == Gather(s, Shift(minVal), count.Length)
  {
    ghost var key := Shift(minVal);
    var range := count.Length;
    assert |Gather(s, key, range)| == |s| by {
      GatherPermutation(s, key, range);
    }
    var idx := 0;
    var i := 0;
    while i < range
      invariant 0 <= i <= range
      invariant idx == |Gather(s, key, i)| <= a.Length
      invariant a[..idx] == Gather(s, key, i)
      invariant forall k :: i <= k < range ==> count[k] == |Filter(s, key, k)|
    {
      assert |Gather(s, key, i + 1)| <= |Gather(s, key, range)| by {
        GatherPrefix(s, key, i + 1, range);
      }
      ghost var f := Filter(s, key, i);
      idx := WriteRun(a, count, i, idx, i + minVal);
      assert a[..idx] == Gather(s, key, i) + f by {
        ShiftFilterRepeat(s, minVal, i);
      }
      i := i + 1;
    }
    assert a[..] == a[..idx];
  }

  /** The inner loop of the placement: write `v` while the count of slot `i`
      is positive, counting it down. */
  method WriteRun(a: array<int>, count: array<int>, i: nat, idx: nat, v: int) returns (next: nat)
    requires a != count && i < count.Length && count[i] >= 0 && idx + count[i] <= a.Length
    modifies a, count
    ensures next == idx + old(count[i])
    ensures a[..next] == old(a[..idx]) + Repeat(v, old(count[i]))
    ensures count[i] == 0
    ensures forall k :: 0 <= k < count.Length && k != i ==> count[k] == old(count[k])
    ensures a[next..] == old(a[next..])
  {
    next := idx;
    while count[i] > 0
      invariant 0 <= count[i] <= old(count[i])
      invariant next == idx + old(count[i]) - count[i]
      invariant a[..next] == old(a[..idx]) + Repeat(v, old(count[i]) - count[i])
      invariant forall k :: 0 <= k < count.Length && k != i ==> count[k] == old(count[k])
      invariant a[next..] == old(a[next..])
    {
      a[next] := v;
      next := next + 1;
      count[i] := count[i] - 1;
      assert a[..next] == a[..next - 1] + [v];
    }
  }

  /** The prefix-sum loop: afterwards `count[k]` is the number of elements
      whose key is at most `k`, which is where the block of key `k` ends. */
  method PrefixSums(count: array<int>, ghost s: seq<int>, ghost key: Key)
    requires count.Length > 0
    requires forall k :: 0 <= k < count.Length ==> count[k] == |Filter(s, key, k)|
    modifies count
    ensures forall k :: 0 <= k < count.Length ==> count[k] == |Gather(s, key, k + 1)|
  {
    assert Gather(s, key, 1) == [] + Filter(s, key, 0);
    var i := 1;
    while i < count.Length
      invariant 1 <= i <= count.Length
      invariant forall k :: 0 <= k < i ==> count[k] == |Gather(s, key, k + 1)|
      invariant forall k :: i <= k < count.Length ==> count[k] == |Filter(s, key, k)|
    {
      assert Gather(s, key, i + 1) == Gather(s, key, i) + Filter(s, key, i);
      count[i] := count[i] + count[i - 1];
      i := i + 1;
    }
  }

  /** The stable counting pass: count the keys, turn the counts into block
      ends, scan the input from the right writing each element to the last
      free slot of its key's block, and copy the output back. It is the body
      of `countingSortStable` and of `countingSortForRadix`. */
  method StableCountingPass(a: array<int>, key: Key, bound: Pos)
    requires KeysBelow(a[..], key, bound)
    modifies a
    ensures a[..] == Gather(old(a[..]), key, bound)
  {
    ghost var s := a[..];
    var count := CountKeys(a, key, bound);
    PrefixSums(count, s, key);
    var output := new int[a.Length];
    ScatterFromRight(a, count, output, s, key, bound);
    forall j | 0 <= j < a.Length {
      a[j] := output[j];
    }
    assert a[..] == output[..];
  }

  /** The right-to-left scan: element `i` goes to the slot just below its
      key's current block end, which then moves down by one. That slot is
      `Dest(s, key, i)`, so the output is `Gather(s, key, bound)`. */
  method ScatterFromRight(a: array<int>, count: array<int>, output: array<int>,
                          ghost s: seq<int>, key: Key, bound: Pos)
    requires a != count && count != output && a != output
    requires a[..] == s && output.Length == a.Length && count.Length == bound
    requires KeysBelow(s, key, bound)
    requires forall k :: 0 <= k < bound ==> count[k] == |Gather(s, key, k + 1)|
    modifies count, output
    ensures output[..] == Gather(s, key, bound)
  {
    ghost var t := Gather(s, key, bound);
    var i := a.Length - 1;
    ScatterStart(s, key, bound, count[..], output[..]);
    while i >= 0
      invariant -1 <= i < a.Length && count.Length == bound && output.Length == a.Length
      invariant Counted(s, key, bound, count[..], i)
      invariant Placed(key, count[..], output[..], t)
    {
      PlaceOne(a, count, output, s, key, bound, i);
      i := i - 1;
    }
    ScatterDone(s, key, bound, count[..], output[..]);
  }

  /** One step of the scan: write `a[i]` to the slot below its key's count
      and lower that count. */
  method PlaceOne(a: array<int>, count: array<int>, output: array<int>,
                  ghost s: seq<int>, key: Key, bound: Pos, i: nat)
    requires a != count && count != output && a != output
    requires a[..] == s && output.Length == a.Length && count.Length == bound
    requires KeysBelow(s, key, bound) && i < a.Length
    requires Counted(s, key, bound, count[..], i)
    requires Placed(key, count[..], output[..], Gather(s, key, bound))
    modifies count, output
    ensures Counted(s, key, bound, count[..], i - 1)
    ensures Placed(key, count[..], output[..], Gather(s, key, bound))
    ensures 0 <= KeyOf(key, s[i]) < bound && 0 <= Dest(s, key, i) < output.Length
    ensures output[..] == old(output[..])[Dest(s, key, i) := s[i]]
    ensures count[..] == old(count[..])[KeyOf(key, s[i]) := Dest(s, key, i)]
  {
    var val := a[i];
    var c := KeyOf(key, val);
    ghost var cnt, out := count[..], output[..];
    assert val == s[i];
    ScatterCounts(s, key, bound, cnt, i);
    ScatterPlaced(s, key, bound, cnt, out, i);
    var pos := count[c] - 1;
    output[pos] := val;
    count[c] := pos;
    assert output[..] == out[pos := val] && count[..] == cnt[c := pos];
  }

  /** The counts during the scan, once every element after position `i` has
      been placed: the start of each key's block plus the number of
      elements with that key up to and including position `i`. */
  ghost predicate Counted(s: seq<int>, key: Key, bound: nat, cnt: seq<int>, i: int)
  {
    -1 <= i < |s| && |cnt| == bound &&
    forall k :: 0 <= k < bound ==> cnt[k] == |Gather(s, key, k)| + |Filter(s[..i + 1], key, k)|
  }

  /** The slots already written hold the final output `t`: those at or above
      the current count of the key of the element `t` has there. */
  ghost predicate Placed(key: Key, cnt: seq<int>, out: seq<int>, t: seq<int>)
  {
    |out| == |t| &&
    forall p :: 0 <= p < |t| && 0 <= KeyOf(key, t[p]) < |cnt| && cnt[KeyOf(key, t[p])] <= p ==>
      out[p] == t[p]
  }

  /** Before the scan the counts are the block ends: no slot is written yet,
      and the counts already take every element into account. */
  lemma ScatterStart(s: seq<int>, key: Key, bound: nat, cnt: seq<int>, out: seq<int>)
    requires KeysBelow(s, key, bound) && |out| == |s| && |cnt| == bound
    requires forall k :: 0 <= k < bound ==> cnt[k] == |Gather(s, key, k + 1)|
    ensures Counted(s, key, bound, cnt, |s| - 1)
    ensures Placed(key, cnt, out, Gather(s, key, bound))
  {
    var t := Gather(s, key, bound);
    GatherPermutation(s, key, bound);
    assert s[..|s|] == s;
    forall p | 0 <= p < |t| && 0 <= KeyOf(key, t[p]) < |cnt| && cnt[KeyOf(key, t[p])] <= p
      ensures false
    {
      SlotBlock(s, key, bound, p);
    }
  }

  /** One step of the scan: the element at `i` goes to `Dest(s, key, i)`, one
      below its key's count, and the counts move on to position `i - 1`. */
  lemma ScatterCounts(s: seq<int>, key: Key, bound: nat, cnt: seq<int>, i: nat)
    requires KeysBelow(s, key, bound)
    requires i < |s| && Counted(s, key, bound, cnt, i)
    ensures 0 <= KeyOf(key, s[i]) < bound
    ensures cnt[KeyOf(key, s[i])] - 1 == Dest(s, key, i)
    ensures 0 <= Dest(s, key, i) < |s|
    ensures Counted(s, key, bound, cnt[KeyOf(key, s[i]) := Dest(s, key, i)], i - 1)
  {
    var c := KeyOf(key, s[i]);
    DestCorrect(s, key, bound, i);
    var cnt' := cnt[c := Dest(s, key, i)];
    assert s[..i + 1] == s[..i] + [s[i]];
    forall k | 0 <= k < bound
      ensures cnt'[k] == |Gather(s, key, k)| + |Filter(s[..i], key, k)|
    {
      FilterSnoc(s[..i], s[i], key, k);
    }
  }

  /** Writing `s[i]` to `Dest(s, key, i)` and lowering its key's count to
      that slot keeps the written slots right. */
  lemma ScatterPlaced(s: seq<int>, key: Key, bound: nat, cnt: seq<int>, out: seq<int>, i: nat)
    requires KeysBelow(s, key, bound) && |out| == |s|
    requires i < |s| && Counted(s, key, bound, cnt, i)
    requires Placed(key, cnt, out, Gather(s, key, bound))
    requires 0 <= KeyOf(key, s[i]) < bound && cnt[KeyOf(key, s[i])] - 1 == Dest(s, key, i)
    requires 0 <= Dest(s, key, i) < |s|
    ensures Placed(key, cnt[KeyOf(key, s[i]) := Dest(s, key, i)], out[Dest(s, key, i) := s[i]],
                   Gather(s, key, bound))
  {
    var t := Gather(s, key, bound);
    var c, pos := KeyOf(key, s[i]), Dest(s, key, i);
    DestCorrect(s, key, bound, i);
    assert KeyOf(key, t[pos]) == c;
  }

  /** When the scan is over every slot is written. */
  lemma ScatterDone(s: seq<int>, key: Key, bound: nat, cnt: seq<int>, out: seq<int>)
    requires KeysBelow(s, key, bound)
    requires Counted(s, key, bound, cnt, -1) && Placed(key, cnt, out, Gather(s, key, bound))
    ensures out == Gather(s, key, bound)
  {
    var t := Gather(s, key, bound);
    assert s[..0] == [];
    forall p | 0 <= p < |t|
      ensures out[p] == t[p]
    {
      SlotBlock(s, key, bound, p);
    }
  }

  /** `countingSortStable`: the stable counting pass keyed by the value minus
      the minimum. */
  method CountingSortStable(a: array<int>)
    modifies a
    ensures Sorted(a[..])
    ensures multiset(a[..]) == multiset(old(a[..]))
    ensures a.Length > 0 ==> a[..] == CountingOrder(old(a[..]))
  {
    if a.Length == 0 {
      return;
    }
    ghost var s := a[..];
    var maxVal := MaxOf(a[..]);
    var minVal := MinOf(a[..]);
    var range := maxVal - minVal + 1;
    ShiftKeysBelow(s);
    StableCountingPass(a, Shift(minVal), range);
    assert a[..] == CountingOrder(s);
  }
}

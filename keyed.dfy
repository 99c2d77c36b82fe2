/** The order every distribution pass of the program produces. Each pass
    assigns its elements a small integer key (a shifted value, a decimal
    digit, a bucket index) and emits, key by key in increasing order, the
    elements with that key in their input order. `Gather` is that output;
    the lemmas here say it is a permutation, ordered by key, stable, and
    where each input element lands. */
module Keyed {
  import opened Utilities

  /** The keys the program distributes by. */
  datatype Key =
    | Shift(minVal: int)                            // counting sorts
    | Digit(exp: Pos)                               // radix sorts
    | Bucket(minVal: int, range: Pos, count: Pos)   // bucket sort

  /** The key of value `v`: the value shifted by the minimum; the decimal
      digit selected by `exp`; or the value's share of the range scaled to
      `count` buckets and clamped to the last one. */
  function KeyOf(key: Key, v: int): int
  {
    match key
    case Shift(m) => v - m
    case Digit(e) => DigitAt(v, e)
    case Bucket(m, range, k) => BucketIndex(v, m, range, k)
  }

  /** The decimal digit of `v` selected by the power of ten `e`. */
  function DigitAt(v: int, e: Pos): int
  {
    (v / e) % 10
  }

  /** The bucket of `v`: its offset from `minVal` scaled from `range` to
      `count` buckets, clamped to the last one. */
  function BucketIndex(v: int, minVal: int, range: Pos, count: Pos): (r: int)
    ensures r < count
    ensures minVal <= v ==> 0 <= r
  {
    var b := ((v - minVal) * count) / range;
    var clamped := if b >= count then count - 1 else b;
    if minVal <= v then
      MulLe(0, v - minVal, count);
      DivNonNegative((v - minVal) * count, range);
      clamped
    else clamped
  }

  /** Every element of `s` has a key in `[0, bound)`. */
  ghost predicate KeysBelow(s: seq<int>, key: Key, bound: int)
  {
    forall i :: 0 <= i < |s| ==> 0 <= KeyOf(key, s[i]) < bound
  }

  /** The elements of `s` whose key is `k`, in their order in `s`. */
  function Filter(s: seq<int>, key: Key, k: int): (r: seq<int>)
    ensures |r| <= |s|
  {
    if s == [] then []
    else
      var init := Filter(s[..|s| - 1], key, k);
      if KeyOf(key, s[|s| - 1]) == k then init + [s[|s| - 1]] else init
  }

  /** The elements with keys `0 .. k-1`, key by key: the output of a stable
      counting pass that uses `k` keys. */
  function Gather(s: seq<int>, key: Key, k: nat): seq<int>
  {
    if k == 0 then [] else Gather(s, key, k - 1) + Filter(s, key, k - 1)
  }

  /** A filter keeps elements of the input that have the filtered key. */
  lemma {:induction false} FilterMembers(s: seq<int>, key: Key, k: int)
    ensures forall p :: 0 <= p < |Filter(s, key, k)| ==>
      Filter(s, key, k)[p] in s && KeyOf(key, Filter(s, key, k)[p]) == k
  {
    if s != [] {
      var init := s[..|s| - 1];
      FilterMembers(init, key, k);
      var f := Filter(init, key, k);
      forall p | 0 <= p < |f| ensures f[p] in s {
        assert f[p] in init;
      }
    }
  }

  /** Gathering keeps elements of the input whose keys are gathered. */
  lemma {:induction false} GatherMembers(s: seq<int>, key: Key, k: nat)
    ensures forall p :: 0 <= p < |Gather(s, key, k)| ==>
      Gather(s, key, k)[p] in s && 0 <= KeyOf(key, Gather(s, key, k)[p]) < k
  {
    if k > 0 {
      GatherMembers(s, key, k - 1);
      FilterMembers(s, key, k - 1);
      var g, f := Gather(s, key, k - 1), Filter(s, key, k - 1);
      forall p | 0 <= p < |g + f|
        ensures (g + f)[p] in s && 0 <= KeyOf(key, (g + f)[p]) < k
      {
        if p < |g| { assert (g + f)[p] == g[p]; } else { assert (g + f)[p] == f[p - |g|]; }
      }
    }
  }

  /** Filtering one more element. */
  lemma FilterSnoc(s: seq<int>, x: int, key: Key, k: int)
    ensures Filter(s + [x], key, k) == Filter(s, key, k) + (if KeyOf(key, x) == k then [x] else [])
  {
    assert (s + [x])[..|s + [x]| - 1] == s;
  }

  /** Filtering distributes over concatenation. */
  lemma {:induction false} FilterAppend(a: seq<int>, b: seq<int>, key: Key, k: int)
    ensures Filter(a + b, key, k) == Filter(a, key, k) + Filter(b, key, k)
    decreases |b|
  {
    if b == [] {
      assert a + b == a;
    } else {
      var init, last := b[..|b| - 1], b[|b| - 1];
      assert b == init + [last];
      assert a + b == (a + init) + [last];
      FilterAppend(a, init, key, k);
      FilterSnoc(a + init, last, key, k);
      FilterSnoc(init, last, key, k);
      var fa, fi, tail := Filter(a, key, k), Filter(init, key, k), if KeyOf(key, last) == k then [last] else [];
      assert (fa + fi) + tail == fa + (fi + tail);
    }
  }

  /** Filtering a filter by another key empties it. */
  lemma {:induction false} FilterOfFilter(s: seq<int>, key: Key, k: int, c: int)
    requires k != c
    ensures Filter(Filter(s, key, k), key, c) == []
  {
    if s != [] {
      var init, last := s[..|s| - 1], s[|s| - 1];
      FilterOfFilter(init, key, k, c);
      if KeyOf(key, last) == k {
        FilterSnoc(Filter(init, key, k), last, key, c);
      }
    }
  }

  /** Filtering a filter by the same key keeps it whole. */
  lemma {:induction false} FilterOfFilterSame(s: seq<int>, key: Key, k: int)
    ensures Filter(Filter(s, key, k), key, k) == Filter(s, key, k)
  {
    if s != [] {
      var init, last := s[..|s| - 1], s[|s| - 1];
      FilterOfFilterSame(init, key, k);
      if KeyOf(key, last) == k {
        FilterSnoc(Filter(init, key, k), last, key, k);
      }
    }
  }

  /** Keys at or above `k` are absent from what `Gather` collects for keys below `k`. */
  lemma {:induction false} FilterOfGather(s: seq<int>, key: Key, k: nat, c: int)
    requires c >= k
    ensures Filter(Gather(s, key, k), key, c) == []
  {
    if k > 0 {
      var g, f := Gather(s, key, k - 1), Filter(s, key, k - 1);
      assert Gather(s, key, k) == g + f;
      FilterAppend(g, f, key, c);
      FilterOfGather(s, key, k - 1, c);
      FilterOfFilter(s, key, k - 1, c);
      var e: seq<int> := [];
      assert e + e == e;
    } else {
      assert Gather(s, key, k) == [];
    }
  }

  /** A filter keeps the order of a sequence sorted modulo `m`. */
  lemma {:induction false} FilterSortedMod(s: seq<int>, key: Key, k: int, m: Pos)
    requires forall i, j :: 0 <= i < j < |s| ==> s[i] % m <= s[j] % m
    ensures forall i, j :: 0 <= i < j < |Filter(s, key, k)| ==>
      Filter(s, key, k)[i] % m <= Filter(s, key, k)[j] % m
  {
    if s != [] {
      var init, last := s[..|s| - 1], s[|s| - 1];
      FilterSortedMod(init, key, k, m);
      var f := Filter(init, key, k);
      FilterMembers(init, key, k);
      if KeyOf(key, last) == k {
        forall i, j | 0 <= i < j < |f + [last]|
          ensures (f + [last])[i] % m <= (f + [last])[j] % m
        {
          if j == |f| {
            assert f[i] in init;
            var p :| 0 <= p < |init| && init[p] == f[i];
            assert s[p] == f[i];
          } else {
            assert (f + [last])[i] == f[i] && (f + [last])[j] == f[j];
          }
        }
      }
    }
  }

  /** The elements of `s` whose keys lie in `[0, k)`, in their order in `s`. */
  function KeyedBelow(s: seq<int>, key: Key, k: int): seq<int>
  {
    if s == [] then []
    else
      var init := KeyedBelow(s[..|s| - 1], key, k);
      if 0 <= KeyOf(key, s[|s| - 1]) < k then init + [s[|s| - 1]] else init
  }

  /** Admitting key `k - 1` adds the elements with that key. */
  lemma {:induction false} KeyedBelowStep(s: seq<int>, key: Key, k: int)
    requires k > 0
    ensures multiset(KeyedBelow(s, key, k)) ==
      multiset(KeyedBelow(s, key, k - 1)) + multiset(Filter(s, key, k - 1))
  {
    if s != [] {
      var init, last := s[..|s| - 1], s[|s| - 1];
      KeyedBelowStep(init, key, k);
      var b, b', f := KeyedBelow(init, key, k), KeyedBelow(init, key, k - 1), Filter(init, key, k - 1);
      var c := KeyOf(key, last);
      if c == k - 1 {
        assert KeyedBelow(s, key, k) == b + [last];
        assert Filter(s, key, k - 1) == f + [last];
        assert KeyedBelow(s, key, k - 1) == b';
      } else if 0 <= c < k - 1 {
        assert KeyedBelow(s, key, k) == b + [last];
        assert Filter(s, key, k - 1) == f;
        assert KeyedBelow(s, key, k - 1) == b' + [last];
      } else {
        assert KeyedBelow(s, key, k) == b;
        assert Filter(s, key, k - 1) == f;
        assert KeyedBelow(s, key, k - 1) == b';
      }
    }
  }

  /** When every key is below `k`, nothing is dropped. */
  lemma {:induction false} KeyedBelowAll(s: seq<int>, key: Key, k: int)
    requires KeysBelow(s, key, k)
    ensures KeyedBelow(s, key, k) == s
  {
    if s != [] {
      var init := s[..|s| - 1];
      assert KeysBelow(init, key, k) by {
        forall i | 0 <= i < |init| ensures 0 <= KeyOf(key, init[i]) < k {
          assert init[i] == s[i];
        }
      }
      KeyedBelowAll(init, key, k);
      assert s == init + [s[|s| - 1]];
    }
  }

  /** Gathering `k` keys permutes the elements with keys below `k`. */
  lemma {:induction false} GatherBelow(s: seq<int>, key: Key, k: nat)
    ensures multiset(Gather(s, key, k)) == multiset(KeyedBelow(s, key, k))
  {
    if k > 0 {
      GatherBelow(s, key, k - 1);
      KeyedBelowStep(s, key, k);
    } else {
      KeyedBelowNone(s, key);
    }
  }

  lemma {:induction false} KeyedBelowNone(s: seq<int>, key: Key)
    ensures KeyedBelow(s, key, 0) == []
  {
    if s != [] {
      KeyedBelowNone(s[..|s| - 1], key);
    }
  }

  /** The number of elements gathered for the keys below `k` is the number
      of elements whose key lies in `[0, k)`. */
  lemma GatherSize(s: seq<int>, key: Key, k: nat)
    ensures |Gather(s, key, k)| == |KeyedBelow(s, key, k)|
  {
    GatherBelow(s, key, k);
    assert |multiset(Gather(s, key, k))| == |multiset(KeyedBelow(s, key, k))|;
  }

  /** When every key is below `k`, gathering is a permutation. */
  lemma GatherPermutation(s: seq<int>, key: Key, k: nat)
    requires KeysBelow(s, key, k)
    ensures multiset(Gather(s, key, k)) == multiset(s)
    ensures |Gather(s, key, k)| == |s|
  {
    GatherBelow(s, key, k);
    KeyedBelowAll(s, key, k);
    assert |multiset(Gather(s, key, k))| == |Gather(s, key, k)|;
  }

  /** Gathering fewer keys yields a prefix. */
  lemma {:induction false} GatherPrefix(s: seq<int>, key: Key, k: nat, m: nat)
    requires k <= m
    ensures |Gather(s, key, k)| <= |Gather(s, key, m)|
    ensures Gather(s, key, m)[..|Gather(s, key, k)|] == Gather(s, key, k)
  {
    if k < m {
      GatherPrefix(s, key, k, m - 1);
      var g, h := Gather(s, key, k), Gather(s, key, m - 1);
      assert Gather(s, key, m) == h + Filter(s, key, m - 1);
      assert (h + Filter(s, key, m - 1))[..|g|] == h[..|g|];
    }
  }

  /** The elements with key `k` occupy a block of the gathered output that
      starts at the number of elements with smaller keys. */
  lemma GatherAt(s: seq<int>, key: Key, k: nat, m: nat, j: nat)
    requires k < m && j < |Filter(s, key, k)|
    ensures |Gather(s, key, k)| + j < |Gather(s, key, m)|
    ensures Gather(s, key, m)[|Gather(s, key, k)| + j] == Filter(s, key, k)[j]
  {
    GatherPrefix(s, key, k + 1, m);
    GatherBlock(Gather(s, key, m), Gather(s, key, k), Filter(s, key, k), j);
  }

  /** A sequence that starts with `g + f` holds `f[j]` at `|g| + j`. */
  lemma GatherBlock(t: seq<int>, g: seq<int>, f: seq<int>, j: nat)
    requires j < |f| && |g + f| <= |t| && t[..|g + f|] == g + f
    ensures |g| + j < |t| && t[|g| + j] == f[j]
  {
    assert t[|g| + j] == t[..|g + f|][|g| + j];
  }

  /** The gathered output is ordered by key. */
  lemma {:induction false} GatherOrdered(s: seq<int>, key: Key, k: nat)
    ensures forall i, j :: 0 <= i < j < |Gather(s, key, k)| ==>
      KeyOf(key, Gather(s, key, k)[i]) <= KeyOf(key, Gather(s, key, k)[j])
  {
    if k > 0 {
      GatherOrdered(s, key, k - 1);
      var g, f := Gather(s, key, k - 1), Filter(s, key, k - 1);
      GatherMembers(s, key, k - 1);
      FilterMembers(s, key, k - 1);
      forall i, j | 0 <= i < j < |g + f|
        ensures KeyOf(key, (g + f)[i]) <= KeyOf(key, (g + f)[j])
      {
        if j < |g| {
          assert (g + f)[i] == g[i] && (g + f)[j] == g[j];
        } else if i < |g| {
          assert (g + f)[i] == g[i] && (g + f)[j] == f[j - |g|];
        } else {
          assert (g + f)[i] == f[i - |g|] && (g + f)[j] == f[j - |g|];
        }
      }
    }
  }

  /** Stability: the elements with any one key leave the pass in the order
      they entered it. */
  lemma {:induction false} GatherStable(s: seq<int>, key: Key, k: nat, c: nat)
    requires c < k
    ensures Filter(Gather(s, key, k), key, c) == Filter(s, key, c)
    decreases k, 1
  {
    if c < k - 1 {
      GatherStableBelow(s, key, k - 1, c);
    } else {
      GatherStableTop(s, key, c);
    }
  }

  lemma {:induction false} GatherStableBelow(s: seq<int>, key: Key, m: nat, c: nat)
    requires c < m
    ensures Filter(Gather(s, key, m + 1), key, c) == Filter(s, key, c)
    decreases m + 1, 0
  {
    var g, f := Gather(s, key, m), Filter(s, key, m);
    assert Gather(s, key, m + 1) == g + f;
    FilterAppend(g, f, key, c);
    GatherStable(s, key, m, c);
    FilterOfFilter(s, key, m, c);
    assert Filter(s, key, c) + [] == Filter(s, key, c);
  }

  lemma GatherStableTop(s: seq<int>, key: Key, c: nat)
    ensures Filter(Gather(s, key, c + 1), key, c) == Filter(s, key, c)
  {
    var g, f := Gather(s, key, c), Filter(s, key, c);
    assert Gather(s, key, c + 1) == g + f;
    FilterAppend(g, f, key, c);
    FilterOfGather(s, key, c, c);
    FilterOfFilterSame(s, key, c);
    assert [] + f == f;
  }

  /** Where the element at position `i` lands: after every element with a
      smaller key and after the earlier elements with its own key. */
  function Dest(s: seq<int>, key: Key, i: nat): int
    requires i < |s| && 0 <= KeyOf(key, s[i])
  {
    var c := KeyOf(key, s[i]);
    |Gather(s, key, c)| + |Filter(s[..i], key, c)|
  }

  /** An element is the next one with its key after the part of the input
      before it. */
  lemma FilterSplit(pre: seq<int>, x: int, post: seq<int>, key: Key)
    ensures Filter(pre + [x] + post, key, KeyOf(key, x)) ==
      Filter(pre, key, KeyOf(key, x)) + [x] + Filter(post, key, KeyOf(key, x))
  {
    FilterAppend(pre + [x], post, key, KeyOf(key, x));
    FilterSnoc(pre, x, key, KeyOf(key, x));
  }

  /** Each element lands inside the output, inside its key's block, on a slot
      holding that very element. */
  lemma DestCorrect(s: seq<int>, key: Key, k: nat, i: nat)
    requires KeysBelow(s, key, k) && i < |s|
    ensures 0 <= KeyOf(key, s[i]) < k
    ensures |Gather(s, key, k)| == |s|
    ensures |Gather(s, key, KeyOf(key, s[i]))| <= Dest(s, key, i) < |Gather(s, key, KeyOf(key, s[i]) + 1)|
    ensures Dest(s, key, i) < |s|
    ensures Gather(s, key, k)[Dest(s, key, i)] == s[i]
  {
    var c := KeyOf(key, s[i]);
    assert s == s[..i] + [s[i]] + s[i + 1..];
    FilterSplit(s[..i], s[i], s[i + 1..], key);
    GatherAt(s, key, c, k, |Filter(s[..i], key, c)|);
    GatherPermutation(s, key, k);
  }

  /** Elements with the same key keep their relative order. */
  lemma DestStable(s: seq<int>, key: Key, i: nat, j: nat)
    requires i < j < |s| && 0 <= KeyOf(key, s[i]) && KeyOf(key, s[i]) == KeyOf(key, s[j])
    ensures Dest(s, key, i) < Dest(s, key, j)
  {
    var c := KeyOf(key, s[i]);
    assert s[..j] == s[..i + 1] + s[i + 1..j];
    FilterAppend(s[..i + 1], s[i + 1..j], key, c);
    assert s[..i + 1] == s[..i] + [s[i]];
    FilterSnoc(s[..i], s[i], key, c);
  }

  /** No two elements land on the same slot, so each of the `|s|` slots is
      written exactly once. */
  lemma DestInjective(s: seq<int>, key: Key, k: nat, i: nat, j: nat)
    requires KeysBelow(s, key, k) && i < |s| && j < |s| && i != j
    ensures Dest(s, key, i) != Dest(s, key, j)
  {
    DestCorrect(s, key, k, i);
    DestCorrect(s, key, k, j);
    var ci, cj := KeyOf(key, s[i]), KeyOf(key, s[j]);
    if ci == cj {
      if i < j { DestStable(s, key, i, j); } else { DestStable(s, key, j, i); }
    } else if ci < cj {
      GatherPrefix(s, key, ci + 1, cj);
    } else {
      GatherPrefix(s, key, cj + 1, ci);
    }
  }

  /** Every slot of the output belongs to the block of some key. */
  lemma {:induction false} BlockOf(s: seq<int>, key: Key, k: nat, p: nat)
    requires p < |Gather(s, key, k)|
    ensures exists c :: 0 <= c < k && |Gather(s, key, c)| <= p < |Gather(s, key, c + 1)|
  {
    if p >= |Gather(s, key, k - 1)| {
      assert |Gather(s, key, k - 1)| <= p < |Gather(s, key, k)|;
    } else {
      BlockOf(s, key, k - 1, p);
    }
  }

  /** The slot `p` of the output lies in the block of the key of the element
      it holds. */
  lemma SlotBlock(s: seq<int>, key: Key, k: nat, p: nat)
    requires p < |Gather(s, key, k)|
    ensures 0 <= KeyOf(key, Gather(s, key, k)[p]) < k
    ensures |Gather(s, key, KeyOf(key, Gather(s, key, k)[p]))| <= p
    ensures p < |Gather(s, key, KeyOf(key, Gather(s, key, k)[p]) + 1)|
  {
    BlockOf(s, key, k, p);
    var c :| 0 <= c < k && |Gather(s, key, c)| <= p < |Gather(s, key, c + 1)|;
    var j := p - |Gather(s, key, c)|;
    assert j < |Filter(s, key, c)|;
    GatherAt(s, key, c, k, j);
    FilterMembers(s, key, c);
  }
}

/** What every sort in the program promises: the result is non-decreasing and
    holds the same values as the input, counted with multiplicity. */
module SortSpec {

  /** Non-decreasing order, for every pair of positions. */
  predicate Sorted(s: seq<int>)
  {
    forall i, j :: 0 <= i < j < |s| ==> s[i] <= s[j]
  }

  /** Non-decreasing order of the remainders modulo `m`: the order a radix
      sort has reached once it has handled the digits below `m`. */
  predicate SortedMod(s: seq<int>, m: int)
    requires m > 0
  {
    forall i, j :: 0 <= i < j < |s| ==> s[i] % m <= s[j] % m
  }

  /** The sortedness check the benchmark applies to each result: it compares
      every element with its predecessor. */
  method IsSorted(arr: seq<int>) returns (ok: bool)
    ensures ok == Sorted(arr)
  {
    var i := 1;
    while i < |arr|
      invariant i >= 1
      invariant forall p, q :: 0 <= p < q < i && q < |arr| ==> arr[p] <= arr[q]
    {
      if arr[i] < arr[i - 1] {
        return false;
      }
      i := i + 1;
    }
    return true;
  }

  /** A sorted permutation is unique: any two sorts of the same input agree,
      and sorting an already sorted sequence leaves it as it is. */
  lemma {:induction false} SortedUnique(a: seq<int>, b: seq<int>)
    requires Sorted(a) && Sorted(b)
    requires multiset(a) == multiset(b)
    ensures a == b
  {
    assert |a| == |multiset(a)| == |multiset(b)| == |b|;
    if a != [] {
      assert a[0] == b[0] by {
        HeadIsMinimum(a, b);
        HeadIsMinimum(b, a);
      }
      var ta, tb := a[1..], b[1..];
      assert multiset(ta) == multiset(tb) by {
        TailMultiset(a);
        TailMultiset(b);
      }
      assert Sorted(ta) && Sorted(tb) by {
        SortedTail(a);
        SortedTail(b);
      }
      SortedUnique(ta, tb);
    }
  }

  /** Dropping the head drops one occurrence of it. */
  lemma TailMultiset(a: seq<int>)
    requires a != []
    ensures multiset(a[1..]) == multiset(a) - multiset{a[0]}
  {
    assert a == [a[0]] + a[1..];
  }

  /** The tail of a sorted sequence is sorted. */
  lemma SortedTail(a: seq<int>)
    requires Sorted(a) && a != []
    ensures Sorted(a[1..])
  {
  }

  /** The head of a sorted sequence is at most every element of a permutation of it. */
  lemma HeadIsMinimum(a: seq<int>, b: seq<int>)
    requires Sorted(a) && a != [] && multiset(a) == multiset(b) && b != []
    ensures a[0] <= b[0]
  {
    assert b[0] in multiset(a);
    var l :| 0 <= l < |a| && a[l] == b[0];
  }

  /** The result every sort must give on the program's sample array: the
      only sorted permutation of it. */
  lemma SampleResult(r: seq<int>)
    requires Sorted(r)
    requires multiset(r) == multiset([64, 34, 25, 12, 22, 11, 90, 88, 45, 50])
    ensures r == [11, 12, 22, 25, 34, 45, 50, 64, 88, 90]
  {
    SampleSorted();
    SamplePermutation();
    SortedUnique(r, [11, 12, 22, 25, 34, 45, 50, 64, 88, 90]);
  }

  /** The sample array's values in ascending order are sorted. */
  lemma SampleSorted()
    ensures Sorted([11, 12, 22, 25, 34, 45, 50, 64, 88, 90])
  {
  }

  /** The sample array's values in ascending order are a permutation of it. */
  lemma SamplePermutation()
    ensures multiset([11, 12, 22, 25, 34, 45, 50, 64, 88, 90]) ==
      multiset([64, 34, 25, 12, 22, 11, 90, 88, 45, 50])
  {
    SampleInputValues();
    SampleOutputValues();
    SampleSameValues();
  }

  lemma SampleInputValues()
    ensures multiset([64, 34, 25, 12, 22, 11, 90, 88, 45, 50]) ==
      multiset{64, 34, 25, 12, 22, 11, 90, 88, 45, 50}
  {
  }

  lemma SampleOutputValues()
    ensures multiset([11, 12, 22, 25, 34, 45, 50, 64, 88, 90]) ==
      multiset{11, 12, 22, 25, 34, 45, 50, 64, 88, 90}
  {
  }

  lemma SampleSameValues()
    ensures multiset{64, 34, 25, 12, 22, 11, 90, 88, 45, 50} ==
      multiset{11, 12, 22, 25, 34, 45, 50, 64, 88, 90}
  {
  }


}

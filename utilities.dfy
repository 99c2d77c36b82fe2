/** The small helpers the sorts share: the extreme values of the input
    (the `max_element` / `min_element` the program calls), powers of ten,
    C++ integer division, decimal digit extraction and digit counting. */
module Utilities {

  type Pos = x: int | x > 0 witness 1

  /** The largest element of a non-empty sequence. */
  function MaxOf(s: seq<int>): (m: int)
    requires |s| > 0
    ensures m in s
    ensures forall x :: x in s ==> x <= m
  {
    if |s| == 1 then s[0]
    else
      var rest := MaxOf(s[1..]);
      assert s == [s[0]] + s[1..];
      if s[0] >= rest then s[0] else rest
  }

  /** The smallest element of a non-empty sequence. */
  function MinOf(s: seq<int>): (m: int)
    requires |s| > 0
    ensures m in s
    ensures forall x :: x in s ==> m <= x
  {
    if |s| == 1 then s[0]
    else
      var rest := MinOf(s[1..]);
      assert s == [s[0]] + s[1..];
      if s[0] <= rest then s[0] else rest
  }

  /** 10 to the power `k`, computed exactly (the program uses floating-point `pow`). */
  function Pow10(k: nat): Pos
  {
    if k == 0 then 1 else 10 * Pow10(k - 1)
  }

  /** C++ integer division by a positive divisor (every divisor in the
      program is positive): the quotient is truncated toward zero. */
  function CppDiv(a: int, b: Pos): int
  {
    if a >= 0 then a / b else -((-a) / b)
  }

  /** C++ remainder by a positive divisor: it takes the sign of the dividend. */
  function CppRem(a: int, b: Pos): int
  {
    if a >= 0 then a % b else -((-a) % b)
  }

  /** `getDigit`: the decimal digit of `num` at position `digit`, with C++'s
      truncating `/` and `%`. For a non-negative number it is the digit in
      `[0, 10)`; for a negative one it is negative or zero. */
  function GetDigit(num: int, digit: nat): (r: int)
    ensures -10 < r < 10
    ensures num >= 0 ==> r == (num / Pow10(digit)) % 10
    ensures num < 0 ==> r <= 0
  {
    TruncatedDigit(num, Pow10(digit));
    CppRem(CppDiv(num, Pow10(digit)), 10)
  }

  /** The digit `(num / p) % 10` in C++ arithmetic, case by case on the sign. */
  lemma TruncatedDigit(num: int, p: Pos)
    ensures -10 < CppRem(CppDiv(num, p), 10) < 10
    ensures num >= 0 ==> CppRem(CppDiv(num, p), 10) == (num / p) % 10
    ensures num < 0 ==> CppRem(CppDiv(num, p), 10) <= 0
  {
    if num >= 0 {
      DivNonNegative(num, p);
    } else {
      DivNonNegative(-num, p);
    }
  }

  lemma DivNonNegative(a: int, b: Pos)
    requires a >= 0
    ensures a / b >= 0
  {
    if a / b < 0 {
      MulLe(a / b, -1, b);
      assert false;
    }
  }

  /** The digit of a negative element is negative or zero. A non-zero one,
      such as that of -7 at position 0, would index outside the ten counts or
      buckets of the radix sorts; a zero one, such as that of -10 at position
      0 or of -7 at position 1, selects bucket 0. */
  lemma NegativeDigit()
    ensures GetDigit(-7, 0) == -7
    ensures GetDigit(-10, 0) == 0
    ensures GetDigit(-7, 1) == 0
  {
  }

  /** The number of decimal digits of `v`: 0 for `v <= 0`. */
  function NumDigits(v: int): nat
    decreases if v > 0 then v else 0
  {
    if v <= 0 then 0 else 1 + NumDigits(v / 10)
  }

  /** `NumDigits` is the least exponent whose power of ten exceeds `v`. */
  lemma {:induction false} NumDigitsBounds(v: int)
    requires v >= 0
    ensures v < Pow10(NumDigits(v))
    ensures v > 0 ==> Pow10(NumDigits(v) - 1) <= v
    decreases v
  {
    if v > 0 {
      NumDigitsBounds(v / 10);
      assert v == 10 * (v / 10) + v % 10;
    }
  }

  /** `getMaxDigits`: the number of decimal digits of the largest element, 0
      for an empty sequence or when the largest element is at most zero. */
  method GetMaxDigits(arr: seq<int>) returns (digits: nat)
    ensures |arr| == 0 ==> digits == 0
    ensures |arr| > 0 ==> digits == NumDigits(MaxOf(arr))
    ensures forall i :: 0 <= i < |arr| ==> arr[i] < Pow10(digits)
    ensures digits > 0 ==> exists i :: 0 <= i < |arr| && Pow10(digits - 1) <= arr[i]
  {
    if |arr| == 0 {
      return 0;
    }
    var maxVal := MaxOf(arr);
    ghost var top := maxVal;
    digits := 0;
    while maxVal > 0
      invariant digits + NumDigits(maxVal) == NumDigits(top)
      invariant top <= 0 ==> maxVal == top
      invariant top > 0 ==> maxVal >= 0
      decreases if maxVal > 0 then maxVal else 0
    {
      digits := digits + 1;
      maxVal := maxVal / 10;
    }
    if top > 0 {
      NumDigitsBounds(top);
    }
    forall i | 0 <= i < |arr|
      ensures arr[i] < Pow10(digits)
    {
      assert arr[i] in arr;
    }
    assert top in arr;
  }

  /** Division with remainder is unique. */
  lemma DivModUnique(x: int, m: Pos, q: int, r: int)
    requires x == q * m + r && 0 <= r < m
    ensures x / m == q && x % m == r
  {
    var q0, r0 := x / m, x % m;
    assert x == q0 * m + r0;
    if q > q0 {
      MulLe(q0 + 1, q, m);
      assert false;
    } else if q < q0 {
      MulLe(q + 1, q0, m);
      assert false;
    }
  }

  lemma MulLe(a: int, b: int, m: int)
    requires a <= b && m >= 0
    ensures a * m <= b * m
  {
    assert b * m - a * m == (b - a) * m;
  }

  /** The remainder modulo `10 * e` splits into the digit at `e` and the
      remainder modulo `e`. */
  lemma ModSplit(v: int, e: Pos)
    ensures v % (10 * e) == ((v / e) % 10) * e + v % e
  {
    var q, r := v / e, v % e;
    var hi, d := q / 10, q % 10;
    assert v == q * e + r;
    assert q == hi * 10 + d;
    assert q * e == hi * (10 * e) + d * e;
    MulLe(d, 9, e);
    DivModUnique(v, 10 * e, hi, d * e + r);
  }

  /** A smaller digit at `e` means a smaller remainder modulo `10 * e`. */
  lemma DigitOrder(x: int, y: int, e: Pos)
    requires (x / e) % 10 < (y / e) % 10
    ensures x % (10 * e) < y % (10 * e)
  {
    var dx, dy := (x / e) % 10, (y / e) % 10;
    ModSplit(x, e);
    ModSplit(y, e);
    MulLe(dx + 1, dy, e);
    assert (dx + 1) * e == dx * e + e;
    assert x % (10 * e) == dx * e + x % e;
    assert y % (10 * e) == dy * e + y % e;
  }

  /** With equal digits at `e`, the remainders modulo `10 * e` compare as the
      remainders modulo `e` do. */
  lemma DigitTie(x: int, y: int, e: Pos)
    requires (x / e) % 10 == (y / e) % 10
    requires x % e <= y % e
    ensures x % (10 * e) <= y % (10 * e)
  {
    ModSplit(x, e);
    ModSplit(y, e);
  }

  /** Below the modulus a remainder is the value itself. */
  lemma ModSmall(v: int, m: Pos)
    requires 0 <= v < m
    ensures v % m == v
  {
    DivModUnique(v, m, 0, v);
  }

  /** The copy loop with which `msdRadixSortHelper` and `bucketSort` write a
      bucket back: `bucket` lands in `a` from `start` on, nothing else changes. */
  method CopyBucket(a: array<int>, bucket: seq<int>, start: nat) returns (next: nat)
    requires start + |bucket| <= a.Length
    modifies a
    ensures next == start + |bucket|
    ensures a[start..next] == bucket
    ensures SameOutside(old(a[..]), a[..], start, next - 1)
  {
    next := start;
    var j := 0;
    while j < |bucket|
      invariant 0 <= j <= |bucket| && next == start + j
      invariant a[start..next] == bucket[..j]
      invariant forall q :: 0 <= q < a.Length && !(start <= q < next) ==> a[q] == old(a[q])
    {
      a[next] := bucket[j];
      next := next + 1;
      j := j + 1;
      assert a[start..next] == a[start..next - 1] + [bucket[j - 1]];
    }
  }

  /** `x` and `y` agree outside positions `lo .. hi`. */
  ghost predicate SameOutside(x: seq<int>, y: seq<int>, lo: int, hi: int)
  {
    |x| == |y| && forall j :: 0 <= j < |x| && !(lo <= j <= hi) ==> x[j] == y[j]
  }

  /** With the positions below `start` unchanged, the range from `left` is
      the old prefix followed by the new range from `start`. */
  lemma Splice(before: seq<int>, after: seq<int>, left: int, start: int, next: int)
    requires 0 <= left <= start <= next <= |before|
    requires SameOutside(before, after, start, next - 1)
    ensures after[left..next] == before[left..start] + after[start..next]
  {
  }
}

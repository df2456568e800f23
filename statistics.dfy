/**
 * The extension methods `Median` and `Dispersion` on `int[]`. Both are pure:
 * they read their input and never change it, so they are modelled as
 * functions on a sequence of C# `int` values.
 */
module Statistics {

  import opened CSharpInt

  // ---------------------------------------------------------------------
  // Ordering: the specification of `OrderBy(salary => salary)`
  // ---------------------------------------------------------------------

  predicate SortedAsc(s: seq<int>) {
    forall i, j :: 0 <= i < j < |s| ==> s[i] <= s[j]
  }

  predicate LowerBound(h: int, s: seq<int>) {
    forall i :: 0 <= i < |s| ==> h <= s[i]
  }

  lemma SortedCons(h: int, s: seq<int>)
    requires SortedAsc(s) && LowerBound(h, s)
    ensures SortedAsc([h] + s)
  {
  }

  lemma LowerBoundPermutation(h: int, s: seq<int>, t: seq<int>)
    requires LowerBound(h, s) && multiset(t) == multiset(s)
    ensures LowerBound(h, t)
  {
    forall i | 0 <= i < |t| ensures h <= t[i] {
      assert t[i] in multiset(s);
    }
  }

  /** Inserts `x` into the ascending sequence `s`. */
  function Insert(x: Int32, s: seq<Int32>): (r: seq<Int32>)
    requires SortedAsc(s)
    ensures SortedAsc(r)
    ensures multiset(r) == multiset(s) + multiset{x}
  {
    if s == [] || x <= s[0] then
      SortedCons(x, s);
      [x] + s
    else
      var t := Insert(x, s[1..]);
      assert s == [s[0]] + s[1..];
      assert multiset(t) == multiset(s[1..] + [x]);
      LowerBoundPermutation(s[0], s[1..] + [x], t);
      SortedCons(s[0], t);
      [s[0]] + t
  }

  /** The ascending copy made by `OrderBy(salary => salary)`. For `int`
      keys every ordering `OrderBy` could produce is this one
      (SortedUnique). */
  function SortAsc(s: seq<Int32>): (r: seq<Int32>)
    ensures SortedAsc(r)
    ensures multiset(r) == multiset(s)
    ensures |r| == |s|
  {
    if s == [] then
      []
    else
      assert s == [s[0]] + s[1..];
      Insert(s[0], SortAsc(s[1..]))
  }

  /** Two ascending arrangements of the same values start with the same,
      least, value. */
  lemma SortedSameHead(a: seq<int>, b: seq<int>)
    requires |a| > 0 && |b| > 0
    requires SortedAsc(a) && SortedAsc(b)
    requires multiset(a) == multiset(b)
    ensures a[0] == b[0]
  {
    assert a[0] in multiset(b);
    assert b[0] in multiset(a);
    var i :| 0 <= i < |b| && b[i] == a[0];
    var j :| 0 <= j < |a| && a[j] == b[0];
  }

  lemma SameTail(a: seq<int>, b: seq<int>)
    requires |a| > 0 && |b| > 0 && a[0] == b[0]
    requires multiset(a) == multiset(b)
    ensures multiset(a[1..]) == multiset(b[1..])
  {
    assert a == [a[0]] + a[1..];
    assert b == [b[0]] + b[1..];
    assert multiset(a[1..]) == multiset(a) - multiset{a[0]};
    assert multiset(b[1..]) == multiset(b) - multiset{b[0]};
  }

  /** Every ascending arrangement of the same values is the same sequence. */
  lemma {:induction false} SortedUnique(a: seq<int>, b: seq<int>)
    requires SortedAsc(a) && SortedAsc(b)
    requires multiset(a) == multiset(b)
    ensures a == b
  {
    assert |b| == |a| by { assert |multiset(b)| == |multiset(a)|; }
    if a != [] {
      SortedSameHead(a, b);
      SameTail(a, b);
      SortedUnique(a[1..], b[1..]);
      assert a == [a[0]] + a[1..];
      assert b == [b[0]] + b[1..];
    }
  }

  /** Every element of the sorted copy is an element of the input. */
  lemma SortedElementIn(s: seq<Int32>, k: int)
    requires 0 <= k < |s|
    ensures SortAsc(s)[k] in s
  {
    var r := SortAsc(s);
    assert r[k] in multiset(r);
  }

  // ---------------------------------------------------------------------
  // Max and Min (LINQ `Max()` and `Min()` on a non-empty array)
  // ---------------------------------------------------------------------

  function Max(s: seq<int>): (r: int)
    requires |s| > 0
    ensures r in s
    ensures forall i :: 0 <= i < |s| ==> s[i] <= r
  {
    if |s| == 1 then
      s[0]
    else
      var m := Max(s[1..]);
      assert s == [s[0]] + s[1..];
      if s[0] >= m then s[0] else m
  }

  function Min(s: seq<int>): (r: int)
    requires |s| > 0
    ensures r in s
    ensures forall i :: 0 <= i < |s| ==> r <= s[i]
  {
    if |s| == 1 then
      s[0]
    else
      var m := Min(s[1..]);
      assert s == [s[0]] + s[1..];
      if s[0] <= m then s[0] else m
  }

  // ---------------------------------------------------------------------
  // Dispersion
  // ---------------------------------------------------------------------

  /** `source.Max() - source.Min()`, a C# `int` subtraction that wraps. */
  function Dispersion(source: seq<Int32>): (r: Int32)
    requires |source| > 0
    ensures (r - (Max(source) - Min(source))) % Modulus == 0
  {
    Wrap(Max(source) - Min(source))
  }

  predicate AllEqual(s: seq<int>) {
    forall i, j :: 0 <= i < |s| && 0 <= j < |s| ==> s[i] == s[j]
  }

  predicate NonNegative(s: seq<int>) {
    forall i :: 0 <= i < |s| ==> s[i] >= 0
  }

  /** For salaries (never negative) the subtraction cannot wrap: the
      dispersion is the range of the values, and it is zero exactly when all
      salaries are equal. */
  lemma DispersionIsRange(source: seq<Int32>)
    requires |source| > 0 && NonNegative(source)
    ensures Dispersion(source) == Max(source) - Min(source)
    ensures Dispersion(source) >= 0
    ensures Dispersion(source) == 0 <==> AllEqual(source)
  {
    var hi, lo := Max(source), Min(source);
    assert 0 <= lo <= hi <= MaxValue;
    if AllEqual(source) {
      var i :| 0 <= i < |source| && source[i] == hi;
      var j :| 0 <= j < |source| && source[j] == lo;
    }
  }

  /** Dispersion does not depend on the order of the values. */
  lemma {:induction false} DispersionPermutation(s: seq<Int32>, t: seq<Int32>)
    requires |s| > 0 && multiset(s) == multiset(t)
    ensures |t| > 0 && Dispersion(s) == Dispersion(t)
  {
    assert |t| == |s| by { assert |multiset(t)| == |multiset(s)|; }
    MaxMinPermutation(s, t);
  }

  lemma MaxMinPermutation(s: seq<int>, t: seq<int>)
    requires |s| > 0 && |t| > 0 && multiset(s) == multiset(t)
    ensures Max(s) == Max(t) && Min(s) == Min(t)
  {
    assert Max(s) in multiset(t) && Max(t) in multiset(s);
    assert Min(s) in multiset(t) && Min(t) in multiset(s);
  }

  // ---------------------------------------------------------------------
  // Median
  // ---------------------------------------------------------------------

  /** The index rule applied to the sorted copy: an odd count gives the
      middle element; an even count gives the two central elements added
      with a wrapping `int` addition and halved with truncation. */
  function Middle(sorted: seq<Int32>): (r: Int32)
    requires |sorted| > 0
    ensures |sorted| % 2 == 1 ==> r in sorted
    ensures (|sorted| % 2 == 0 &&
             InRange(sorted[|sorted| / 2 - 1] as int + sorted[|sorted| / 2] as int)) ==>
      r == HalfTowardZero(sorted[|sorted| / 2 - 1] as int + sorted[|sorted| / 2] as int)
  {
    var n := |sorted|;
    if n % 2 == 0 then
      var sum := Wrap(sorted[n / 2 - 1] as int + sorted[n / 2] as int);
      HalfInRange(sum);
      HalfTowardZero(sum)
    else
      sorted[n / 2]
  }

  /** `source.Median()`: the index rule on a sorted copy of the input. */
  function Median(source: seq<Int32>): (r: Int32)
    requires |source| > 0
    ensures |source| % 2 == 1 ==> r in source
  {
    SortedElementIn(source, |source| / 2);
    Middle(SortAsc(source))
  }

  /** The index rule the code evidently intends: the two central values are
      added without wrapping. On an ascending sequence the result lies
      between its first and its last element. */
  function MiddleExact(sorted: seq<Int32>): (r: Int32)
    requires |sorted| > 0 && SortedAsc(sorted)
    ensures sorted[0] <= r <= sorted[|sorted| - 1]
    ensures |sorted| % 2 == 0 ==> sorted[|sorted| / 2 - 1] <= r <= sorted[|sorted| / 2]
  {
    var n := |sorted|;
    if n % 2 == 0 then
      HalfOfSumBetween(sorted[n / 2 - 1], sorted[n / 2]);
      HalfTowardZero(sorted[n / 2 - 1] as int + sorted[n / 2] as int)
    else
      sorted[n / 2]
  }

  /** The corrected median; it lies between the least and the greatest
      value for every input. */
  function MedianExact(source: seq<Int32>): (r: Int32)
    requires |source| > 0
    ensures Min(source) <= r <= Max(source)
  {
    var sorted := SortAsc(source);
    SortedBetween(source, 0);
    SortedBetween(source, |sorted| - 1);
    MiddleExact(sorted)
  }

  lemma SortedBetween(s: seq<Int32>, k: int)
    requires 0 <= k < |s|
    ensures SortAsc(s)[k] in s
    ensures Min(s) <= SortAsc(s)[k] <= Max(s)
  {
    SortedElementIn(s, k);
  }

  /** Median computed from any ascending arrangement `t` of the input: for
      an odd count the element at `|t| / 2`, for an even count the truncated
      half of the wrapped sum of the two central elements. */
  lemma MedianFromSorted(source: seq<Int32>, t: seq<Int32>)
    requires |source| > 0
    requires SortedAsc(t) && multiset(t) == multiset(source)
    ensures |t| == |source|
    ensures |t| % 2 == 1 ==> Median(source) == t[|t| / 2]
    ensures |t| % 2 == 0 ==>
      Median(source) == HalfTowardZero(Wrap(t[|t| / 2 - 1] as int + t[|t| / 2] as int))
  {
    var sorted := SortAsc(source);
    SortedUnique(sorted, t);
    assert Median(source) == Middle(t);
  }

  /** The median depends only on the values, not on their order. */
  lemma MedianPermutation(s: seq<Int32>, t: seq<Int32>)
    requires |s| > 0 && multiset(s) == multiset(t)
    ensures |t| > 0
    ensures Median(s) == Median(t) && MedianExact(s) == MedianExact(t)
  {
    SortedUnique(SortAsc(s), SortAsc(t));
  }

  /** Without wrap-around the two index rules agree. */
  lemma MiddleAgrees(sorted: seq<Int32>)
    requires |sorted| > 0 && SortedAsc(sorted)
    requires |sorted| % 2 == 0 ==>
      InRange(sorted[|sorted| / 2 - 1] as int + sorted[|sorted| / 2] as int)
    ensures Middle(sorted) == MiddleExact(sorted)
  {
  }

  /** Adding any two values of `s` cannot overflow an `int`. */
  predicate PairwiseSumsFit(s: seq<int>) {
    forall i, j :: 0 <= i < |s| && 0 <= j < |s| ==> InRange(s[i] + s[j])
  }

  /** Two entries of the sorted copy are two entries of the input, so
      their sum fits when every pairwise sum of the input does. */
  lemma SortedPairFits(source: seq<Int32>, p: int, q: int)
    requires 0 <= p < |source| && 0 <= q < |source|
    requires PairwiseSumsFit(source)
    ensures InRange(SortAsc(source)[p] as int + SortAsc(source)[q] as int)
  {
    SortedElementIn(source, p);
    SortedElementIn(source, q);
    var i :| 0 <= i < |source| && source[i] == SortAsc(source)[p];
    var j :| 0 <= j < |source| && source[j] == SortAsc(source)[q];
    assert InRange(source[i] + source[j]);
  }

  /** When every pairwise sum of the input fits in an `int`, the C# median
      is the intended one; in particular it lies between the least and the
      greatest value. */
  lemma MedianWithinRange(source: seq<Int32>)
    requires |source| > 0
    requires PairwiseSumsFit(source)
    ensures Median(source) == MedianExact(source)
    ensures Min(source) <= Median(source) <= Max(source)
  {
    var sorted := SortAsc(source);
    var n := |sorted|;
    if n % 2 == 0 {
      SortedPairFits(source, n / 2 - 1, n / 2);
    }
    MiddleAgrees(sorted);
    assert Median(source) == Middle(sorted);
    assert MedianExact(source) == MiddleExact(sorted);
  }

  /** Central values 3 and 4 give 3, not 3.5 or 4. */
  lemma MedianTruncates()
    ensures Median([4, 3]) == 3
  {
    MedianFromSorted([4, 3], [3, 4]);
  }

  /** Two valid salaries of 1 500 000 000 wrap around when added: the
      median is negative, below every salary. */
  lemma MedianOverflows()
    ensures Median([1_500_000_000, 1_500_000_000]) == -647_483_648
    ensures Median([1_500_000_000, 1_500_000_000]) < Min([1_500_000_000, 1_500_000_000])
    ensures MedianExact([1_500_000_000, 1_500_000_000]) == 1_500_000_000
  {
    var s: seq<Int32> := [1_500_000_000, 1_500_000_000];
    SortedUnique(SortAsc(s), s);
    assert Wrap(3_000_000_000) == -1_294_967_296;
  }
}

/** The median computed once more on the array that the first call has left behind. */
module MedianAgain {
  import opened Numbers
  import opened Columns
  import opened Median
  import opened Separation
  import Permutations

  // ---------- how far the first call sorts the array ----------

  /** Position m separates the array. */
  ghost predicate Exact(t: seq<int>, m: nat) {
    m < |t| && (forall x :: 0 <= x < m ==> t[x] <= t[m]) && (forall x :: m < x < |t| ==> t[m] <= t[x])
  }

  /** Positions m and m + 1 are in the wrong order, and separate the rest. */
  ghost predicate InvertedRight(t: seq<int>, m: nat) {
    && m + 1 < |t| && t[m + 1] < t[m]
    && (forall x :: 0 <= x < m ==> t[x] <= t[m + 1])
    && (forall x :: m + 1 < x < |t| ==> t[m] <= t[x])
  }

  ghost predicate InvertedLeft(t: seq<int>, m: nat) {
    && 0 < m < |t| && t[m] < t[m - 1]
    && (forall x :: 0 <= x < m - 1 ==> t[x] <= t[m])
    && (forall x :: m < x < |t| ==> t[m - 1] <= t[x])
  }

  ghost predicate OneOff(t: seq<int>, m: nat) {
    Exact(t, m) || InvertedRight(t, m) || InvertedLeft(t, m)
  }

  /** What a caller can see: the entry at m is in order with its neighbours. */
  predicate InOrder(t: seq<int>, m: nat)
    requires m < |t|
  {
    (m > 0 ==> t[m - 1] <= t[m]) && (m + 1 < |t| ==> t[m] <= t[m + 1])
  }

  lemma ZonesClose(s: seq<int>, l: nat, r: int, m: nat, lo: int, hi: int)
    requires m < |s| && Zoned(s, l, r, lo, hi) && l >= r - 1
    requires l <= m <= r || (r < m < l && lo == hi)
    ensures OneOff(s, m)
  {
    if l <= m <= r && l < r {
      if s[r] < s[l] {
        assert m == l ==> InvertedRight(s, m);
        assert m == r ==> InvertedLeft(s, m);
      }
    }
  }

  lemma {:induction false} SelectOneOff(s: seq<int>, l: nat, r: int, m: nat, lo: int, hi: int)
    requires m < |s| && Zoned(s, l, r, lo, hi)
    requires l <= m <= r || (r < m < l && lo == hi)
    ensures OneOff(Select(s, l, r, m), m)
    decreases r - l
  {
    if l < r - 1 {
      var q := Cross(s, l, r, s[m]);
      CrossShrinks(s, l, r, m);
      NarrowingZones(s, l, r, m, lo, hi);
      SelectOneOff(q.s, if q.j < m then q.i else l, if q.i > m then q.j else r, m,
                   if q.j < m then s[m] else lo, if q.i > m then s[m] else hi);
    } else {
      ZonesClose(s, l, r, m, lo, hi);
    }
  }

  lemma ScrambledOneOff(s: seq<int>)
    requires |s| > 0
    ensures OneOff(Scrambled(s), MiddleIndex(|s|))
  {
    assert forall k :: 0 <= k < |s| ==> s[k] in s;
    SelectOneOff(s, 0, |s| - 1, MiddleIndex(|s|), MinOf(s), MaxOf(s));
  }

  // ---------- a pick that separates is kept ----------

  lemma SwapKeepsExact(s: seq<int>, i: nat, j: nat, m: nat)
    requires Exact(s, m) && i <= j < |s| && s[j] <= s[m] <= s[i]
    ensures Exact(Swap(s, i, j), m) && Swap(s, i, j)[m] == s[m]
  {
  }

  lemma {:induction false} CrossKeepsExact(s: seq<int>, i: nat, j: int, m: nat)
    requires Exact(s, m) && -1 <= j < |s|
    ensures Exact(Cross(s, i, j, s[m]).s, m) && Cross(s, i, j, s[m]).s[m] == s[m]
    decreases j
  {
    var i1, j1 := ScanUp(s, i, s[m]), ScanDown(s, j, s[m]);
    ScanUpStops(s, i, s[m]);
    ScanDownStops(s, j, s[m]);
    if i1 <= j1 {
      SwapKeepsExact(s, i1, j1, m);
      if i1 + 1 <= j1 - 1 { CrossKeepsExact(Swap(s, i1, j1), i1 + 1, j1 - 1, m); }
    }
  }

  lemma {:induction false} SelectKeepsExact(s: seq<int>, l: nat, r: int, m: nat)
    requires Exact(s, m) && r < |s| && (l < r - 1 ==> l <= m <= r)
    ensures Select(s, l, r, m)[m] == s[m]
    decreases r - l
  {
    if l < r - 1 {
      var q := Cross(s, l, r, s[m]);
      CrossShrinks(s, l, r, m);
      CrossKeepsExact(s, l, r, m);
      SelectKeepsExact(q.s, if q.j < m then q.i else l, if q.i > m then q.j else r, m);
    }
  }

  // ---------- a pair in the wrong order is exchanged ----------

  /** What the first exchange of a pass leaves to do. */
  lemma CrossFirst(s: seq<int>, i: nat, j: int, v: int, i1: nat, j1: nat)
    requires -1 <= j < |s| && i1 == ScanUp(s, i, v) && j1 == ScanDown(s, j, v) && i1 <= j1
    ensures Cross(s, i, j, v) ==
            if i1 + 1 <= j1 - 1 then Cross(Swap(s, i1, j1), i1 + 1, j1 - 1, v)
            else Split(Swap(s, i1, j1), i1 + 1, j1 - 1)
  {
  }

  lemma SwapBeyond(s: seq<int>, i: nat, j: nat, m: nat)
    requires InvertedRight(s, m) && m + 1 < i <= j < |s|
    ensures InvertedRight(Swap(s, i, j), m)
    ensures Swap(s, i, j)[m] == s[m] && Swap(s, i, j)[m + 1] == s[m + 1]
  {
  }

  lemma SwapBefore(s: seq<int>, i: nat, j: nat, m: nat)
    requires InvertedLeft(s, m) && i <= j < m - 1
    ensures InvertedLeft(Swap(s, i, j), m)
    ensures Swap(s, i, j)[m] == s[m] && Swap(s, i, j)[m - 1] == s[m - 1]
  {
  }

  /** Beyond the pair only larger entries are left to exchange. */
  lemma {:induction false} CrossBeyond(s: seq<int>, i: nat, j: int, m: nat)
    requires InvertedRight(s, m) && m + 1 <= i && m + 1 <= j < |s|
    ensures var q := Cross(s, i, j, s[m]);
      InvertedRight(q.s, m) && q.s[m] == s[m] && q.s[m + 1] == s[m + 1] && q.j >= m + 1 && q.i > m + 1
    decreases j
  {
    var i1, j1 := ScanUp(s, i, s[m]), ScanDown(s, j, s[m]);
    ScanUpStops(s, i, s[m]);
    ScanDownStops(s, j, s[m]);
    if i1 <= j1 {
      CrossFirst(s, i, j, s[m], i1, j1);
      SwapBeyond(s, i1, j1, m);
      if i1 + 1 <= j1 - 1 { CrossBeyond(Swap(s, i1, j1), i1 + 1, j1 - 1, m); }
    }
  }

  /** A pass either exchanges the pair, and ends there, or leaves it alone and keeps it in the window. */
  lemma CrossInvertedRight(s: seq<int>, l: nat, r: nat, m: nat)
    requires InvertedRight(s, m) && l <= m && m + 1 <= r < |s|
    ensures var q := Cross(s, l, r, s[m]);
      || (Exact(q.s, m) && q.s[m] == s[m + 1] && q.j == m && q.i == m + 1)
      || (InvertedRight(q.s, m) && q.s[m + 1] == s[m + 1] && q.j >= m + 1 && q.i > m)
  {
    PairRightStops(s, l, r, m);
    if ScanDown(s, r, s[m]) > m + 1 { PairRightKept(s, l, r, m); } else { PairRightExchanged(s, l, r, m); }
  }

  lemma PairRightExchanged(s: seq<int>, l: nat, r: nat, m: nat)
    requires InvertedRight(s, m) && l <= m && m + 1 <= r < |s|
    requires ScanUp(s, l, s[m]) == m && ScanDown(s, r, s[m]) == m + 1
    ensures var q := Cross(s, l, r, s[m]); Exact(q.s, m) && q.s[m] == s[m + 1] && q.j == m && q.i == m + 1
  {
    CrossFirst(s, l, r, s[m], m, m + 1);
    ExchangedRight(s, m);
  }

  lemma PairRightKept(s: seq<int>, l: nat, r: nat, m: nat)
    requires InvertedRight(s, m) && l <= m && m + 1 <= r < |s|
    requires ScanUp(s, l, s[m]) == m && ScanDown(s, r, s[m]) > m + 1 && s[ScanDown(s, r, s[m])] == s[m]
    ensures var q := Cross(s, l, r, s[m]);
      InvertedRight(q.s, m) && q.s[m + 1] == s[m + 1] && q.j >= m + 1 && q.i > m
  {
    var j1 := ScanDown(s, r, s[m]);
    CrossFirst(s, l, r, s[m], m, j1);
    SwapEqual(s, m, j1);
    CrossBeyond(s, m + 1, j1 - 1, m);
  }

  lemma SwapEqual(s: seq<int>, i: nat, j: nat)
    requires i < |s| && j < |s| && s[i] == s[j]
    ensures Swap(s, i, j) == s
  {
  }

  /** Where the scans stop first: on the pair, or on an entry equal to its left member. */
  lemma PairRightStops(s: seq<int>, l: nat, r: nat, m: nat)
    requires InvertedRight(s, m) && l <= m && m + 1 <= r < |s|
    ensures ScanUp(s, l, s[m]) == m && m + 1 <= ScanDown(s, r, s[m])
    ensures ScanDown(s, r, s[m]) > m + 1 ==> s[ScanDown(s, r, s[m])] == s[m]
  {
    ScanUpStops(s, l, s[m]);
    ScanDownStops(s, r, s[m]);
  }

  lemma ExchangedRight(s: seq<int>, m: nat)
    requires InvertedRight(s, m)
    ensures Exact(Swap(s, m, m + 1), m) && Swap(s, m, m + 1)[m] == s[m + 1]
  {
  }

  lemma {:induction false} SelectInvertedRight(s: seq<int>, l: nat, r: nat, m: nat)
    requires InvertedRight(s, m) && l < m && m + 1 <= r < |s|
    ensures Select(s, l, r, m)[m] == s[m + 1]
    decreases r - l
  {
    var q := Cross(s, l, r, s[m]);
    CrossShrinks(s, l, r, m);
    CrossInvertedRight(s, l, r, m);
    if q.j == m && q.i == m + 1 {
      SelectKeepsExact(q.s, l, q.j, m);
    } else {
      SelectInvertedRight(q.s, l, q.j, m);
    }
  }

  lemma BeforeStops(s: seq<int>, i: nat, j: int, m: nat)
    requires InvertedLeft(s, m) && i <= m - 1 && -1 <= j <= m - 1
    ensures i <= ScanUp(s, i, s[m]) <= m - 1 && -1 <= ScanDown(s, j, s[m]) < m - 1
  {
    ScanUpStops(s, i, s[m]);
    ScanDownStops(s, j, s[m]);
  }

  lemma {:induction false} CrossBefore(s: seq<int>, i: nat, j: int, m: nat)
    requires InvertedLeft(s, m) && i <= m - 1 && -1 <= j <= m - 1
    ensures var q := Cross(s, i, j, s[m]);
      InvertedLeft(q.s, m) && q.s[m] == s[m] && q.s[m - 1] == s[m - 1] && q.i <= m - 1 && q.j < m - 1
    decreases j
  {
    var i1, j1 := ScanUp(s, i, s[m]), ScanDown(s, j, s[m]);
    BeforeStops(s, i, j, m);
    if i1 <= j1 {
      CrossFirst(s, i, j, s[m], i1, j1);
      SwapBefore(s, i1, j1, m);
      if i1 + 1 <= j1 - 1 { CrossBefore(Swap(s, i1, j1), i1 + 1, j1 - 1, m); }
    }
  }

  lemma CrossInvertedLeft(s: seq<int>, l: nat, r: nat, m: nat)
    requires InvertedLeft(s, m) && l <= m - 1 && m <= r < |s|
    ensures var q := Cross(s, l, r, s[m]);
      || (Exact(q.s, m) && q.s[m] == s[m - 1] && q.j == m - 1 && q.i == m)
      || (InvertedLeft(q.s, m) && q.s[m - 1] == s[m - 1] && q.i <= m - 1 && q.j < m)
  {
    var i1, j1 := ScanUp(s, l, s[m]), ScanDown(s, r, s[m]);
    PairLeftStops(s, l, r, m);
    CrossFirst(s, l, r, s[m], i1, j1);
    if i1 < m - 1 {
      CrossLeftOfPair(s, i1, m);
    } else {
      ExchangedLeft(s, m);
    }
  }

  lemma CrossLeftOfPair(s: seq<int>, i: nat, m: nat)
    requires InvertedLeft(s, m) && i < m - 1 && s[i] == s[m]
    ensures var q := Cross(Swap(s, i, m), i + 1, m - 1, s[m]);
      InvertedLeft(q.s, m) && q.s[m - 1] == s[m - 1] && q.i <= m - 1 && q.j < m
  {
    SwapEqual(s, i, m);
    CrossBefore(s, i + 1, m - 1, m);
  }

  lemma PairLeftStops(s: seq<int>, l: nat, r: nat, m: nat)
    requires InvertedLeft(s, m) && l <= m - 1 && m <= r < |s|
    ensures ScanDown(s, r, s[m]) == m && ScanUp(s, l, s[m]) <= m - 1
    ensures ScanUp(s, l, s[m]) < m - 1 ==> s[ScanUp(s, l, s[m])] == s[m]
  {
    ScanUpStops(s, l, s[m]);
    ScanDownStops(s, r, s[m]);
  }

  lemma ExchangedLeft(s: seq<int>, m: nat)
    requires InvertedLeft(s, m)
    ensures Exact(Swap(s, m - 1, m), m) && Swap(s, m - 1, m)[m] == s[m - 1]
  {
  }

  lemma {:induction false} SelectInvertedLeft(s: seq<int>, l: nat, r: nat, m: nat)
    requires InvertedLeft(s, m) && l <= m - 1 && m < r < |s|
    ensures Select(s, l, r, m)[m] == s[m - 1]
    decreases r - l
  {
    var q := Cross(s, l, r, s[m]);
    CrossShrinks(s, l, r, m);
    CrossInvertedLeft(s, l, r, m);
    if q.j == m - 1 && q.i == m {
      SelectKeepsExact(q.s, q.i, r, m);
    } else {
      SelectInvertedLeft(q.s, q.i, r, m);
    }
  }

  // ---------- the second call ----------

  /** The neighbour that is out of order with the entry at m. */
  function Neighbour(t: seq<int>, m: nat): int
    requires m < |t| && !InOrder(t, m)
  {
    if m + 1 < |t| && t[m + 1] < t[m] then t[m + 1] else t[m - 1]
  }

  /** With three entries or more the second call picks the same entry if it is in order, and its neighbour if not. */
  lemma SecondPick(s: seq<int>)
    requires |s| > 2
    ensures var t, m := Scrambled(s), MiddleIndex(|s|);
      RawMedian(t) == if InOrder(t, m) then t[m] else Neighbour(t, m)
  {
    ScrambledOneOff(s);
    PickOneOff(Scrambled(s), MiddleIndex(|s|));
  }

  lemma PickOneOff(t: seq<int>, m: nat)
    requires OneOff(t, m) && 0 < m < |t| - 1
    ensures Select(t, 0, |t| - 1, m)[m] == if InOrder(t, m) then t[m] else Neighbour(t, m)
  {
    if Exact(t, m) {
      SelectKeepsExact(t, 0, |t| - 1, m);
    } else if InvertedRight(t, m) {
      SelectInvertedRight(t, 0, |t| - 1, m);
    } else {
      SelectInvertedLeft(t, 0, |t| - 1, m);
    }
  }

  lemma RawMedianRepeats(s: seq<int>)
    requires |s| > 0
    ensures var t := Scrambled(s);
      RawMedian(t) == RawMedian(s) <==> |s| <= 2 || InOrder(t, MiddleIndex(|s|))
  {
    if |s| > 2 { SecondPick(s); }
  }

  /** Minimum and average do not depend on the order. */
  lemma SameSummary(s: seq<int>, t: seq<int>)
    requires |s| == |t| > 0 && multiset(s) == multiset(t)
    ensures MinOf(s) == MinOf(t) && Average(s, |s|) == Average(t, |t|)
  {
    SameMinimum(s, t);
    SameMinimum(t, s);
    AverageIsTotal(s, |s|);
    AverageIsTotal(t, |t|);
    TotalPermuted(s, t);
  }

  lemma SameMinimum(s: seq<int>, t: seq<int>)
    requires |s| == |t| > 0 && multiset(s) == multiset(t)
    ensures MinOf(s) <= MinOf(t)
  {
    assert MinOf(t) in multiset(t);
    assert MinOf(t) in s;
  }

  lemma {:induction false} TotalSplits(a: seq<int>, b: seq<int>)
    ensures Total(a + b) == Total(a) + Total(b)
  {
    if |b| == 0 {
      assert a + b == a;
    } else {
      assert (a + b)[..|a + b| - 1] == a + b[..|b| - 1];
      TotalSplits(a, b[..|b| - 1]);
    }
  }

  lemma {:induction false} TotalPermuted(s: seq<int>, t: seq<int>)
    requires multiset(s) == multiset(t)
    ensures Total(s) == Total(t)
  {
    if |s| == 0 {
      assert |multiset(t)| == 0;
    } else {
      var k := Permutations.LastOccursIn(s, t);
      TotalPermuted(s[..|s| - 1], t[..k] + t[k + 1..]);
      TotalSplits(t[..k] + [t[k]], t[k + 1..]);
      TotalSplits(t[..k], [t[k]]);
      TotalSplits(t[..k], t[k + 1..]);
    }
  }

  /**
   * GetMedian returns the same value on the array that it has scrambled exactly if the array has at most two entries,
   * or the picked entry is in order with its neighbours, or one of the pair in the wrong order is the minimum and the
   * ceiling of the average is the other one.
   */
  lemma MedianRepeats(s: seq<int>)
    requires |s| > 0
    ensures var t, m, middle := Scrambled(s), MiddleIndex(|s|), Ceil(Average(s, |s|));
      MedianOf(t) == MedianOf(s) <==>
        || |s| <= 2 || InOrder(t, m)
        || (t[m] == MinOf(s) && middle == Neighbour(t, m))
        || (Neighbour(t, m) == MinOf(s) && middle == t[m])
  {
    var t, m := Scrambled(s), MiddleIndex(|s|);
    ScrambledPermutes(s);
    ScrambledPermutes(t);
    SameSummary(s, t);
    SameSummary(t, Scrambled(t));
    RawMedianRepeats(s);
    if |s| > 2 { SecondPick(s); }
  }

  // ---------- the value, by ranks and sums ----------

  /** It separates the entries near the lower middle rank, and lies above the minimum. */
  ghost predicate RankedAboveMinimum(s: seq<int>, v: int)
    requires |s| > 0
  {
    v in s && MinOf(s) < v && 2 * CountBelow(s, v) <= |s| + |s| % 2 <= 2 * CountUpTo(s, v) + 2
  }

  /** It is the least integer that is not below the average of the entries. */
  predicate RoundsUpAverage(s: seq<int>, v: int) {
    (v - 1) * |s| < Total(s) <= v * |s|
  }

  lemma QuotientAtMost(total: int, n: nat, x: real, v: int)
    requires n > 0 && x * n as real == total as real && x <= v as real
    ensures total <= v * n
  {
    ProductBelow(x, v as real, n as real);
    var p := AsReal(v, n);
  }

  lemma QuotientAbove(total: int, n: nat, x: real, w: int)
    requires n > 0 && x * n as real == total as real && w as real < x
    ensures w * n < total
  {
    ProductBelow(w as real, x, n as real);
    var p := AsReal(w, n);
  }

  lemma AsReal(v: int, n: nat) returns (p: int)
    ensures p == v * n && p as real == v as real * n as real
  {
    p := v * n;
  }

  lemma QuotientTimes(total: int, n: nat, x: real)
    requires n > 0 && x == total as real / n as real
    ensures x * n as real == total as real
  {
  }

  lemma ProductBelow(x: real, y: real, n: real)
    requires x <= y && n > 0.0
    ensures x * n <= y * n && (x < y ==> x * n < y * n)
  {
    assert (y - x) * n >= 0.0;
    if x < y { assert (y - x) * n > 0.0; }
  }

  lemma {:induction false} CountBelowGrows(s: seq<int>, v: int, w: int)
    requires v <= w
    ensures CountBelow(s, v) <= CountBelow(s, w)
  {
    if |s| > 0 { CountBelowGrows(s[..|s| - 1], v, w); }
  }

  /**
   * What GetMedian returns: an entry above the minimum near the lower middle rank, or, if about half of the entries
   * are minimal, the average, rounded up. The latter for certain if more than half of them are.
   */
  lemma MedianByRanks(s: seq<int>)
    requires |s| > 0
    ensures var v, minima := MedianOf(s), CountUpTo(s, MinOf(s));
      && (RankedAboveMinimum(s, v) || (RoundsUpAverage(s, v) && |s| + |s| % 2 <= 2 * minima + 2))
      && (2 * minima > |s| + |s| % 2 ==> RoundsUpAverage(s, v))
  {
    RawMedianRank(s);
    if RawMedian(s) == MinOf(s) {
      AverageRounded(s);
    } else {
      PickedAboveMinimum(s, RawMedian(s));
    }
  }

  lemma AverageRounded(s: seq<int>)
    requires |s| > 0
    ensures RoundsUpAverage(s, Ceil(Average(Scrambled(s), |s|)))
  {
    TotalRoundsUp(s, Total(s) as real / |s| as real);
    AverageOfScrambled(s);
  }

  lemma TotalRoundsUp(s: seq<int>, x: real)
    requires |s| > 0 && x == Total(s) as real / |s| as real
    ensures RoundsUpAverage(s, Ceil(x))
  {
    QuotientTimes(Total(s), |s|, x);
    CeilRoundsUp(s, x, Ceil(x));
  }

  lemma AverageOfScrambled(s: seq<int>)
    requires |s| > 0
    ensures Average(Scrambled(s), |s|) == Total(s) as real / |s| as real
  {
    ScrambledPermutes(s);
    SameSummary(s, Scrambled(s));
    AverageIsTotal(s, |s|);
  }

  lemma CeilRoundsUp(s: seq<int>, x: real, v: int)
    requires |s| > 0 && x * |s| as real == Total(s) as real && v == Ceil(x)
    ensures RoundsUpAverage(s, v)
  {
    QuotientAtMost(Total(s), |s|, x, v);
    QuotientAbove(Total(s), |s|, x, v - 1);
  }

  lemma PickedAboveMinimum(s: seq<int>, v: int)
    requires |s| > 0 && v in multiset(s) && v != MinOf(s)
    ensures v in s && MinOf(s) < v && CountUpTo(s, MinOf(s)) <= CountBelow(s, v)
  {
    assert v in s;
    CountBelowGrows(s, MinOf(s) + 1, v);
  }

  // ---------- what that means for a recorded sequence ----------

  const ZERO := Column(0, 0, {}, [], 0.5)
  const ONE := Column(1, 0, {}, [Entry(0, 1)], 0.5)
  const TWO := Column(2, 0, {}, [Entry(0, 2)], 0.25)
  const ALSO_ZERO := Column(3, 0, {}, [Entry(1, 1)], 0.5)
  const THREE := Column(4, 0, {}, [Entry(0, 3)], 0.25)

  /** The fractional columns of a block with two convexity units; variable 1 tells the two zeros apart. */
  function FiveColumns(): seq<Column> {
    [ZERO, ONE, TWO, ALSO_ZERO, THREE]
  }

  lemma ScrambledFive()
    ensures Scrambled([0, 1, 2, 0, 3]) == [0, 1, 0, 2, 3]
  {
    var s, t := [0, 1, 2, 0, 3], [0, 1, 0, 2, 3];
    assert ScanUp(s, 2, 2) == 2 && ScanUp(s, 1, 2) == 2 && ScanUp(s, 0, 2) == 2;
    assert ScanDown(s, 3, 2) == 3 && ScanDown(s, 4, 2) == 3 && Swap(s, 2, 3) == t;
    assert Cross(s, 0, 4, 2) == Split(t, 3, 2);
    assert ScanUp(t, 0, 0) == 0 && ScanDown(t, 2, 0) == 2 && Swap(t, 0, 2) == t;
    assert ScanUp(t, 1, 0) == 1 && ScanDown(t, 0, 0) == 0 && ScanDown(t, 1, 0) == 0;
    assert Cross(t, 1, 1, 0) == Split(t, 1, 0) && Cross(t, 0, 2, 0) == Split(t, 1, 0);
    assert Select(t, 1, 2, 2) == t && Select(t, 0, 2, 2) == t;
  }

  lemma AverageOfFive()
    ensures Ceil(Average([0, 1, 0, 2, 3], 5)) == 2
  {
    var t := [0, 1, 0, 2, 3];
    AverageIsTotal(t, 5);
    assert t[..4] == [0, 1, 0, 2] && [0, 1, 0, 2][..3] == [0, 1, 0] && [0, 1, 0][..2] == [0, 1];
    assert [0, 1][..1] == [0] && Total([0, 1]) == 1 && Total([0, 1, 0]) == 1 && Total([0, 1, 0, 2]) == 3;
    CeilOfQuotient(6, 5, 1, 2);
  }

  lemma MinimumIs(s: seq<int>, k: nat, lo: int)
    requires k < |s| && s[k] == lo && forall x :: 0 <= x < |s| ==> lo <= s[x]
    ensures MinOf(s) == lo
  {
    assert s[k] in s;
  }

  lemma FirstMedianOfFive()
    ensures MedianOf([0, 1, 2, 0, 3]) == 2
  {
    ScrambledFive();
    MinimumIs([0, 1, 2, 0, 3], 0, 0);
    AverageOfFive();
  }

  lemma SecondMedianOfFive()
    ensures MedianOf([0, 1, 0, 2, 3]) == 1
  {
    ScrambledFive();
    SecondPick([0, 1, 2, 0, 3]);
    MinimumIs([0, 1, 0, 2, 3], 0, 0);
  }

  function EntryOf(c: Column, bound: int): real {
    if GeneratorEntry(c, 0) >= bound then c.value else 0.0
  }

  lemma MassOfFive(bound: int)
    ensures Mass(FiveColumns(), [Bound(0, GE, bound)]) == EntryOf(ZERO, bound) + EntryOf(ONE, bound) +
            EntryOf(TWO, bound) + EntryOf(ALSO_ZERO, bound) + EntryOf(THREE, bound)
  {
    var b, none: seq<Column> := Bound(0, GE, bound), [];
    OneMoreEntry(none, ZERO, bound);
    OneMoreEntry([ZERO], ONE, bound);
    OneMoreEntry([ZERO, ONE], TWO, bound);
    OneMoreEntry([ZERO, ONE, TWO], ALSO_ZERO, bound);
    OneMoreEntry([ZERO, ONE, TWO, ALSO_ZERO], THREE, bound);
    assert none + [ZERO] == [ZERO] && [ZERO] + [ONE] == [ZERO, ONE] && [ZERO, ONE] + [TWO] == [ZERO, ONE, TWO];
    assert [ZERO, ONE, TWO] + [ALSO_ZERO] == [ZERO, ONE, TWO, ALSO_ZERO];
    assert [ZERO, ONE, TWO, ALSO_ZERO] + [THREE] == FiveColumns();
  }

  lemma OneMoreEntry(F: seq<Column>, c: Column, bound: int)
    ensures Mass(F + [c], [Bound(0, GE, bound)]) == Mass(F, [Bound(0, GE, bound)]) + EntryOf(c, bound)
  {
    var b := Bound(0, GE, bound);
    MassOneMore(F, c, [b]);
    if SatisfiesAll(c, [b]) { assert Satisfies(c, [b][0]); }
  }

  lemma EntriesOfFive()
    ensures GeneratorEntry(ZERO, 0) == 0 && GeneratorEntry(ONE, 0) == 1 && GeneratorEntry(TWO, 0) == 2
    ensures GeneratorEntry(ALSO_ZERO, 0) == 0 && GeneratorEntry(THREE, 0) == 3
  {
    assert [Entry(1, 1)][1..] == [];
  }

  lemma TotalOfFive()
    ensures Mass(FiveColumns(), []) == 2.0 && OwnColumns(FiveColumns(), 0) == FiveColumns()
  {
    var F := FiveColumns();
    EntriesOfFive();
    assert forall k :: 0 <= k < |F| ==> GeneratorEntry(F[k], 0) >= 0;
    MassOfFive(0);
    AllAbove(F, Bound(0, GE, 0));
    AllOwn(F, 0);
  }

  lemma {:induction false} AllAbove(F: seq<Column>, b: Bound)
    requires forall k :: 0 <= k < |F| ==> Satisfies(F[k], b)
    ensures Mass(F, [b]) == Mass(F, [])
  {
    if |F| > 0 { AllAbove(F[..|F| - 1], b); }
  }

  lemma {:induction false} AllOwn(F: seq<Column>, block: nat)
    requires forall k :: 0 <= k < |F| ==> F[k].block == block
    ensures OwnColumns(F, block) == F
  {
    if |F| > 0 {
      AllOwn(F[..|F| - 1], block);
      assert F == F[..|F| - 1] + [F[|F| - 1]];
    }
  }

  /**
   * Five distinct columns of a block, which make up its two convexity units: the search records a bound because its
   * mass is one half, while the recomputed bound, which an assertion-enabled build records instead, has mass one.
   */
  lemma RecordedMassIntegral()
    ensures var F := FiveColumns();
      && Fractional(F) && OwnColumns(F, 0) == F && Mass(F, []) == 2.0
      && ComponentMedian(F, 0) == 2 && Alpha(F, 0) == 0.5 && [Bound(0, GE, 2)] in Separations(F, [0, 1], [])
      && MedianOf(Scrambled(Values(F, 0))) == 1 && Mass(F, [Bound(0, GE, 1)]) == 1.0
  {
    var F, none: Sequence := FiveColumns(), [];
    TotalOfFive();
    MassesOfFive();
    ValuesOfFive();
    ScrambledFive();
    FirstMedianOfFive();
    SecondMedianOfFive();
    RecordsFirst(F, none);
  }

  lemma ValuesOfFive()
    ensures Values(FiveColumns(), 0) == [0, 1, 2, 0, 3] && Fractional(FiveColumns())
  {
    EntriesOfFive();
    FloorUnique(0.5, 0);
    FloorUnique(0.25, 0);
  }

  lemma MassesOfFive()
    ensures Mass(FiveColumns(), [Bound(0, GE, 2)]) == 0.5 && Mass(FiveColumns(), [Bound(0, GE, 1)]) == 1.0
  {
    EntriesOfFive();
    MassOfFive(2);
    MassOfFive(1);
  }

  /** A fractional upper mass of the first component is recorded. */
  lemma RecordsFirst(F: seq<Column>, S: Sequence)
    requires |F| > 0 && Alpha(F, 0) == 0.5 && S == []
    ensures [UpperBound(F, 0)] in Separations(F, [0, 1], S)
  {
    var I: seq<nat> := [0, 1];
    assert I[..1] == [0] && [0][..0] == [] && S + [UpperBound(F, 0)] == [UpperBound(F, 0)];
    assert Separation.Direct(F, [0], S) == [[UpperBound(F, 0)]];
    assert Separation.Direct(F, I, S)[0] == [UpperBound(F, 0)];
  }
}

/** GetMedian: the in-place selection that fixes the bound of a component. */
module Median {
  import opened Numbers
  import opened Permutations

  // ---------- the selection as a function of the array's contents ----------

  function Swap(s: seq<int>, i: nat, j: nat): (t: seq<int>)
    requires i < |s| && j < |s|
    ensures |t| == |s|
  {
    s[i := s[j]][j := s[i]]
  }

  /** First position at or after i whose entry is not below v. */
  function ScanUp(s: seq<int>, i: nat, v: int): (k: nat)
    ensures i <= k
    decreases |s| - i
  {
    if i < |s| && s[i] < v then ScanUp(s, i + 1, v) else i
  }

  lemma ScanUpStops(s: seq<int>, i: nat, v: int)
    ensures var k := ScanUp(s, i, v);
      (forall x :: i <= x < k && x < |s| ==> s[x] < v) && (k < |s| ==> s[k] >= v)
    decreases |s| - i
  {
  }

  /** First position at or before j whose entry is not above v. */
  function ScanDown(s: seq<int>, j: int, v: int): (k: int)
    requires j < |s|
    ensures k <= j && (j >= -1 ==> k >= -1)
    decreases j
  {
    if 0 <= j && s[j] > v then ScanDown(s, j - 1, v) else j
  }

  lemma ScanDownStops(s: seq<int>, j: int, v: int)
    requires j < |s|
    ensures var k := ScanDown(s, j, v);
      (forall x :: 0 <= x && k < x <= j ==> s[x] > v) && (k >= 0 ==> s[k] <= v)
    decreases j
  {
  }

  datatype Split = Split(s: seq<int>, i: nat, j: int)

  /** One partition pass: swap misplaced pairs until the two scans cross. */
  function Cross(s: seq<int>, i: nat, j: int, v: int): (r: Split)
    requires -1 <= j < |s|
    ensures |r.s| == |s| && i <= r.i && -1 <= r.j <= j
    decreases j + 1
  {
    var i1 := ScanUp(s, i, v);
    var j1 := ScanDown(s, j, v);
    if i1 <= j1 then
      var t := Swap(s, i1, j1);
      if i1 + 1 <= j1 - 1 then Cross(t, i1 + 1, j1 - 1, v) else Split(t, i1 + 1, j1 - 1)
    else
      Split(s, i1, j1)
  }

  /** Sentinels that keep both scans inside the window l..r. */
  ghost predicate Guarded(s: seq<int>, l: nat, r: int, i: nat, j: int, v: int) {
    && l <= i && -1 <= j <= r < |s|
    && ScanUp(s, i, v) <= r
    && l <= ScanDown(s, j, v)
  }

  /** Everything left of i is at most v, everything right of j at least v, inside l..r. */
  ghost predicate Partitioned(s: seq<int>, l: nat, r: int, i: int, j: int, v: int) {
    && r < |s|
    && (forall x :: l <= x < i && x <= r ==> s[x] <= v)
    && (forall x :: j < x <= r && l <= x ==> s[x] >= v)
  }

  ghost predicate SameOutside(s: seq<int>, t: seq<int>, l: int, r: int) {
    && |s| == |t|
    && forall x :: 0 <= x < |s| && !(l <= x <= r) ==> s[x] == t[x]
  }

  ghost predicate Within(s: seq<int>, l: nat, r: int, lo: int, hi: int) {
    r < |s| && forall x :: l <= x <= r ==> lo <= s[x] <= hi
  }

  lemma SwapPermutes(s: seq<int>, i: nat, j: nat)
    requires i < |s| && j < |s|
    ensures multiset(Swap(s, i, j)) == multiset(s)
  {
  }

  /** Exchanging the two entries at which the scans stopped extends the partitioned zones. */
  lemma ExchangePartitions(s: seq<int>, l: nat, r: int, i: nat, j: int, v: int)
    requires Guarded(s, l, r, i, j, v) && Partitioned(s, l, r, i, j, v)
    ensures var i1, j1 := ScanUp(s, i, v), ScanDown(s, j, v);
      if i1 <= j1 then
        var t := Swap(s, i1, j1);
        && Partitioned(t, l, r, i1 + 1, j1 - 1, v) && SameOutside(s, t, l, r)
        && (i1 + 1 <= j1 - 1 ==> Guarded(t, l, r, i1 + 1, j1 - 1, v))
      else Partitioned(s, l, r, i1, j1, v)
  {
    var i1, j1 := ScanUp(s, i, v), ScanDown(s, j, v);
    ScanUpStops(s, i, v);
    ScanDownStops(s, j, v);
    assert forall x :: l <= x < i1 ==> s[x] <= v;
    assert forall x :: j1 < x <= r && l <= x ==> s[x] >= v;
    if i1 + 1 <= j1 - 1 {
      var t := Swap(s, i1, j1);
      assert t[i1] <= v <= t[j1];
      ScanUpStops(t, i1 + 1, v);
      ScanDownStops(t, j1 - 1, v);
    }
  }

  lemma {:induction false} CrossPermutes(s: seq<int>, i: nat, j: int, v: int)
    requires -1 <= j < |s|
    ensures multiset(Cross(s, i, j, v).s) == multiset(s)
    decreases j
  {
    var t, i2, j2 := CrossStep(s, i, j, v);
    if i2 <= j2 { CrossPermutes(t, i2, j2, v); }
  }

  /** One exchange of the partition pass. */
  lemma CrossStep(s: seq<int>, i: nat, j: int, v: int) returns (t: seq<int>, i2: nat, j2: int)
    requires -1 <= j < |s|
    ensures |t| == |s| && -1 <= j2 <= j && multiset(t) == multiset(s)
    ensures if i2 <= j2 then j2 < j && Cross(s, i, j, v) == Cross(t, i2, j2, v) else Cross(s, i, j, v).s == t
  {
    var i1, j1 := ScanUp(s, i, v), ScanDown(s, j, v);
    if i1 <= j1 {
      t, i2, j2 := Swap(s, i1, j1), i1 + 1, j1 - 1;
      SwapPermutes(s, i1, j1);
    } else {
      t, i2, j2 := s, i1, j1;
    }
  }

  /** One exchange of the partition pass inside the window. */
  lemma ExchangeStep(s: seq<int>, l: nat, r: int, i: nat, j: int, v: int) returns (t: seq<int>, i2: nat, j2: int)
    requires Guarded(s, l, r, i, j, v) && Partitioned(s, l, r, i, j, v) && i <= j
    ensures SameOutside(s, t, l, r) && Partitioned(t, l, r, i2, j2, v) && i2 <= r + 1 && l - 1 <= j2
    ensures if i2 <= j2 then j2 < j && Guarded(t, l, r, i2, j2, v) && Cross(s, i, j, v) == Cross(t, i2, j2, v)
            else Cross(s, i, j, v) == Split(t, i2, j2)
  {
    var i1, j1 := ScanUp(s, i, v), ScanDown(s, j, v);
    ExchangePartitions(s, l, r, i, j, v);
    if i1 <= j1 {
      t, i2, j2 := Swap(s, i1, j1), i1 + 1, j1 - 1;
    } else {
      t, i2, j2 := s, i1, j1;
    }
  }

  lemma SameOutsideTransitive(s: seq<int>, t: seq<int>, u: seq<int>, l: int, r: int)
    requires SameOutside(s, t, l, r) && SameOutside(t, u, l, r)
    ensures SameOutside(s, u, l, r)
  {
  }

  lemma {:induction false} CrossSplits(s: seq<int>, l: nat, r: int, i: nat, j: int, v: int)
    requires Guarded(s, l, r, i, j, v) && Partitioned(s, l, r, i, j, v) && i <= j
    ensures var q := Cross(s, i, j, v);
      && SameOutside(s, q.s, l, r) && q.j < q.i <= r + 1 && l - 1 <= q.j
      && Partitioned(q.s, l, r, q.i, q.j, v)
    decreases j
  {
    var t, i2, j2 := ExchangeStep(s, l, r, i, j, v);
    if i2 <= j2 {
      CrossSplits(t, l, r, i2, j2, v);
      SameOutsideTransitive(s, t, Cross(t, i2, j2, v).s, l, r);
    }
  }

  lemma {:induction false} CrossWithin(s: seq<int>, l: nat, r: int, i: nat, j: int, v: int, lo: int, hi: int)
    requires Guarded(s, l, r, i, j, v) && Partitioned(s, l, r, i, j, v) && Within(s, l, r, lo, hi)
    ensures Within(Cross(s, i, j, v).s, l, r, lo, hi)
    decreases j
  {
    var i1, j1 := ScanUp(s, i, v), ScanDown(s, j, v);
    ExchangePartitions(s, l, r, i, j, v);
    if i1 <= j1 && i1 + 1 <= j1 - 1 {
      CrossWithin(Swap(s, i1, j1), l, r, i1 + 1, j1 - 1, v, lo, hi);
    }
  }

  /** From i and j on, no scan of the pass ever leaves the array. */
  ghost predicate StaysInside(s: seq<int>, i: nat, j: int, v: int)
    requires -1 <= j < |s|
    decreases j
  {
    var i1, j1 := ScanUp(s, i, v), ScanDown(s, j, v);
    && i1 < |s| && 0 <= j1
    && (i1 <= j1 && i1 + 1 <= j1 - 1 ==> StaysInside(Swap(s, i1, j1), i1 + 1, j1 - 1, v))
  }

  lemma {:induction false} GuardedStaysInside(s: seq<int>, l: nat, r: int, i: nat, j: int, v: int)
    requires Guarded(s, l, r, i, j, v) && Partitioned(s, l, r, i, j, v)
    ensures StaysInside(s, i, j, v)
    decreases j
  {
    var i1, j1 := ScanUp(s, i, v), ScanDown(s, j, v);
    ExchangePartitions(s, l, r, i, j, v);
    if i1 <= j1 && i1 + 1 <= j1 - 1 {
      GuardedStaysInside(Swap(s, i1, j1), l, r, i1 + 1, j1 - 1, v);
    }
  }

  lemma PivotGuards(s: seq<int>, l: nat, r: nat, m: nat)
    requires l <= m <= r < |s|
    ensures Guarded(s, l, r, l, r, s[m]) && Partitioned(s, l, r, l, r, s[m])
  {
    ScanUpStops(s, l, s[m]);
    ScanDownStops(s, r, s[m]);
  }

  /** The first pass always exchanges at least one pair, so the window shrinks. */
  lemma CrossShrinks(s: seq<int>, l: nat, r: nat, m: nat)
    requires l <= m <= r < |s|
    ensures var q := Cross(s, l, r, s[m]);
      && multiset(q.s) == multiset(s) && SameOutside(s, q.s, l, r)
      && q.j < q.i && l < q.i <= r + 1 && l - 1 <= q.j < r
      && Partitioned(q.s, l, r, q.i, q.j, s[m])
  {
    CrossPermutes(s, l, r, s[m]);
    PivotGuards(s, l, r, m);
    CrossSplits(s, l, r, l, r, s[m]);
  }

  /** The element GetMedian aims at: the lower middle position. */
  function MiddleIndex(n: nat): nat
    requires n > 0
  {
    if n % 2 == 1 then n / 2 else n / 2 - 1
  }

  /** The selection loop: narrow l..r around m while it spans at least three positions. */
  function Select(s: seq<int>, l: nat, r: int, m: nat): (t: seq<int>)
    requires r < |s| && m < |s|
    requires l < r - 1 ==> l <= m <= r
    ensures |t| == |s|
    decreases r - l
  {
    if l < r - 1 then
      CrossShrinks(s, l, r, m);
      var q := Cross(s, l, r, s[m]);
      Select(q.s, if q.j < m then q.i else l, if q.i > m then q.j else r, m)
    else s
  }

  /** lo separates what lies left of l from the rest, hi what lies right of r. */
  ghost predicate Zoned(s: seq<int>, l: nat, r: int, lo: int, hi: int) {
    && r < |s|
    && (forall x :: 0 <= x < l && x < |s| ==> s[x] <= lo)
    && (forall x :: l <= x < |s| ==> lo <= s[x])
    && (forall x :: 0 <= x <= r ==> s[x] <= hi)
    && (forall x :: r < x < |s| && 0 <= x ==> hi <= s[x])
  }

  /** Position m holds an element of rank m, up to one neighbour on one side. */
  ghost predicate NearRank(s: seq<int>, m: nat) {
    && m < |s|
    && (forall x :: 0 <= x < m - 1 ==> s[x] <= s[m])
    && (forall x :: m + 1 < x < |s| ==> s[m] <= s[x])
    && ((forall x :: 0 <= x < m ==> s[x] <= s[m]) || (forall x :: m < x < |s| ==> s[m] <= s[x]))
  }

  lemma NarrowingZones(s: seq<int>, l: nat, r: nat, m: nat, lo: int, hi: int)
    requires l <= m <= r && Zoned(s, l, r, lo, hi)
    ensures var q := Cross(s, l, r, s[m]);
      Zoned(q.s, if q.j < m then q.i else l, if q.i > m then q.j else r,
            if q.j < m then s[m] else lo, if q.i > m then s[m] else hi)
  {
    PivotGuards(s, l, r, m);
    CrossShrinks(s, l, r, m);
    CrossWithin(s, l, r, l, r, s[m], lo, hi);
  }

  lemma {:induction false} SelectNearRank(s: seq<int>, l: nat, r: int, m: nat, lo: int, hi: int)
    requires m < |s| && Zoned(s, l, r, lo, hi)
    requires l <= m <= r || (r < m < l && lo == hi)
    ensures multiset(Select(s, l, r, m)) == multiset(s)
    ensures NearRank(Select(s, l, r, m), m)
    decreases r - l
  {
    if l < r - 1 {
      var q := Cross(s, l, r, s[m]);
      CrossShrinks(s, l, r, m);
      NarrowingZones(s, l, r, m, lo, hi);
      SelectNearRank(q.s, if q.j < m then q.i else l, if q.i > m then q.j else r, m,
                     if q.j < m then s[m] else lo, if q.i > m then s[m] else hi);
    }
  }

  function MinOf(s: seq<int>): (v: int)
    requires |s| > 0
    ensures v in s && forall x :: x in s ==> v <= x
  {
    if |s| == 1 then s[0]
    else
      var w := MinOf(s[..|s| - 1]);
      assert forall x :: x in s ==> x in s[..|s| - 1] || x == s[|s| - 1];
      if s[|s| - 1] < w then s[|s| - 1] else w
  }

  /** The running sum of s[x]/n, in the order in which it is accumulated. */
  function Average(s: seq<int>, n: nat): real
    requires n > 0
  {
    if |s| == 0 then 0.0
    else Average(s[..|s| - 1], n) + s[|s| - 1] as real / n as real
  }

  /** The array as GetMedian leaves it. */
  function Scrambled(s: seq<int>): (t: seq<int>)
    requires |s| > 0
    ensures |t| == |s|
  {
    Select(s, 0, |s| - 1, MiddleIndex(|s|))
  }

  /** The value GetMedian picks before it looks at the minimum. */
  function RawMedian(s: seq<int>): int
    requires |s| > 0
  {
    Scrambled(s)[MiddleIndex(|s|)]
  }

  /** The value GetMedian returns when it is told the true minimum. */
  function MedianOf(s: seq<int>): int
    requires |s| > 0
  {
    if RawMedian(s) == MinOf(s) then Ceil(Average(Scrambled(s), |s|)) else RawMedian(s)
  }

  // ---------- what the selection guarantees ----------

  function CountBelow(s: seq<int>, v: int): (n: nat)
    ensures n <= |s|
  {
    if |s| == 0 then 0
    else CountBelow(s[..|s| - 1], v) + if s[|s| - 1] < v then 1 else 0
  }

  function CountUpTo(s: seq<int>, v: int): (n: nat)
    ensures n <= |s|
  {
    CountBelow(s, v + 1)
  }

  lemma {:induction false} CountBelowSplit(a: seq<int>, b: seq<int>, v: int)
    ensures CountBelow(a + b, v) == CountBelow(a, v) + CountBelow(b, v)
  {
    if |b| == 0 {
      assert a + b == a;
    } else {
      assert (a + b)[..|a + b| - 1] == a + b[..|b| - 1];
      CountBelowSplit(a, b[..|b| - 1], v);
    }
  }

  lemma {:induction false} CountBelowPermuted(s: seq<int>, t: seq<int>, v: int)
    requires multiset(s) == multiset(t)
    ensures CountBelow(s, v) == CountBelow(t, v)
  {
    if |s| == 0 {
      assert |multiset(t)| == 0;
    } else {
      var k := LastOccursIn(s, t);
      CountBelowPermuted(s[..|s| - 1], t[..k] + t[k + 1..], v);
      CountBelowSplit(t[..k] + [t[k]], t[k + 1..], v);
      CountBelowSplit(t[..k], [t[k]], v);
      CountBelowSplit(t[..k], t[k + 1..], v);
    }
  }

  lemma {:induction false} CountBelowBounds(s: seq<int>, v: int, lo: nat, hi: nat)
    requires lo <= hi <= |s|
    requires forall x :: 0 <= x < lo ==> s[x] < v
    requires forall x :: hi <= x < |s| ==> s[x] >= v
    ensures lo <= CountBelow(s, v) <= hi
  {
    if |s| > 0 {
      CountBelowBounds(s[..|s| - 1], v, if lo == |s| then lo - 1 else lo, if hi == |s| then hi - 1 else hi);
    }
  }

  /**
   * In sorted order the value picked stands at most one position away from the lower middle position: the positions
   * it occupies run from the number of smaller entries to the number of entries not above it.
   */
  lemma RawMedianRank(s: seq<int>)
    requires |s| > 0
    ensures var v, m := RawMedian(s), MiddleIndex(|s|);
      v in multiset(s) && CountBelow(s, v) <= m + 1 && m <= CountUpTo(s, v)
    ensures 2 * CountBelow(s, RawMedian(s)) <= |s| + |s| % 2
    ensures |s| + |s| % 2 <= 2 * CountUpTo(s, RawMedian(s)) + 2
  {
    ScrambledPermutes(s);
    RankOfPermuted(s, Scrambled(s), MiddleIndex(|s|), RawMedian(s));
  }

  lemma RankOfPermuted(s: seq<int>, t: seq<int>, m: nat, v: int)
    requires multiset(t) == multiset(s) && NearRank(t, m) && v == t[m]
    ensures CountBelow(s, v) <= m + 1 && m <= CountUpTo(s, v)
  {
    NearRankCounts(t, m);
    CountBelowPermuted(s, t, v);
    CountBelowPermuted(s, t, v + 1);
  }

  lemma ScrambledPermutes(s: seq<int>)
    requires |s| > 0
    ensures var t := Scrambled(s);
      multiset(t) == multiset(s) && NearRank(t, MiddleIndex(|s|)) && RawMedian(s) in multiset(s)
  {
    var t, m := Scrambled(s), MiddleIndex(|s|);
    var lo, hi := MinOf(s), MaxOf(s);
    assert forall k :: 0 <= k < |s| ==> s[k] in s;
    SelectNearRank(s, 0, |s| - 1, m, lo, hi);
    assert t[m] in multiset(t);
  }

  lemma NearRankCounts(t: seq<int>, m: nat)
    requires NearRank(t, m)
    ensures CountBelow(t, t[m]) <= m + 1 && m <= CountUpTo(t, t[m])
  {
    var v, left, right := t[m], t[..m], t[m + 1..];
    CountBelowThree(t, m, v);
    CountBelowBounds(right, v, 0, if |right| > 0 then 1 else 0);
    CountBelowThree(t, m, v + 1);
    CountBelowBounds(left, v + 1, if m > 0 then m - 1 else 0, m);
  }

  lemma CountBelowThree(t: seq<int>, m: nat, v: int)
    requires m < |t|
    ensures CountBelow(t, v) == CountBelow(t[..m], v) + CountBelow([t[m]], v) + CountBelow(t[m + 1..], v)
  {
    assert t == t[..m] + [t[m]] + t[m + 1..];
    CountBelowSplit(t[..m] + [t[m]], t[m + 1..], v);
    CountBelowSplit(t[..m], [t[m]], v);
  }

  function MaxOf(s: seq<int>): (v: int)
    requires |s| > 0
    ensures v in s && forall x :: x in s ==> x <= v
  {
    if |s| == 1 then s[0]
    else
      var w := MaxOf(s[..|s| - 1]);
      assert forall x :: x in s ==> x in s[..|s| - 1] || x == s[|s| - 1];
      if s[|s| - 1] > w then s[|s| - 1] else w
  }

  // ---------- the bound that is finally returned ----------

  function Total(s: seq<int>): int {
    if |s| == 0 then 0 else Total(s[..|s| - 1]) + s[|s| - 1]
  }

  lemma {:induction false} AverageIsTotal(s: seq<int>, n: nat)
    requires n > 0
    ensures Average(s, n) == Total(s) as real / n as real
  {
    if |s| > 0 {
      AverageIsTotal(s[..|s| - 1], n);
      QuotientOfSum(Total(s[..|s| - 1]) as real, s[|s| - 1] as real, n as real);
    }
  }

  lemma QuotientOfSum(a: real, b: real, d: real)
    requires d != 0.0
    ensures a / d + b / d == (a + b) / d
  {
    var x, y := a / d, b / d;
    assert d * x == a && d * y == b;
    assert d * (x + y) == a + b;
  }

  lemma {:induction false} TotalBetween(s: seq<int>, lo: int, hi: int)
    requires forall k :: 0 <= k < |s| ==> lo <= s[k] <= hi
    ensures |s| * lo <= Total(s) <= |s| * hi
    ensures (exists k :: 0 <= k < |s| && lo < s[k]) ==> |s| * lo < Total(s)
  {
    if |s| > 0 {
      TotalBetween(s[..|s| - 1], lo, hi);
      assert |s| * lo == |s[..|s| - 1]| * lo + lo;
      assert |s| * hi == |s[..|s| - 1]| * hi + hi;
      if k :| 0 <= k < |s| && lo < s[k] {
        assert k < |s| - 1 ==> s[..|s| - 1][k] == s[k];
      }
    }
  }

  lemma CeilOfQuotient(total: int, n: nat, lo: int, hi: int)
    requires n > 0 && n * lo <= total <= n * hi
    ensures lo <= Ceil(total as real / n as real) <= hi
    ensures n * lo < total ==> lo < Ceil(total as real / n as real)
  {
    QuotientBetween(total as real, n as real, lo as real, hi as real);
  }

  lemma QuotientBetween(t: real, d: real, lo: real, hi: real)
    requires d > 0.0 && d * lo <= t <= d * hi
    ensures lo <= t / d <= hi
    ensures d * lo < t ==> lo < t / d
  {
    var x := t / d;
    assert d * x == t;
    assert d * (x - lo) >= 0.0;
    assert d * (hi - x) >= 0.0;
  }

  /**
   * The value returned separates: unless all entries agree, some entry lies strictly below it and
   * some entry does not. It equals the minimum exactly when all entries agree.
   */
  lemma MedianSeparates(s: seq<int>)
    requires |s| > 0
    ensures MinOf(s) <= MedianOf(s) <= MaxOf(s)
    ensures MedianOf(s) == MinOf(s) <==> MinOf(s) == MaxOf(s)
  {
    var t, lo, hi := Scrambled(s), MinOf(s), MaxOf(s);
    ScrambledPermutes(s);
    assert RawMedian(s) in s;
    if RawMedian(s) == lo {
      forall k | 0 <= k < |t| ensures lo <= t[k] <= hi {
        assert t[k] in multiset(t);
        assert t[k] in s;
      }
      assert hi in multiset(t);
      TotalBetween(t, lo, hi);
      AverageIsTotal(t, |s|);
      CeilOfQuotient(Total(t), |s|, lo, hi);
    }
  }

  /**
   * The value depends on the order of the entries: recomputed on the array that the first call has scrambled, as
   * the recording of a sequence does when its assertion is compiled in, it may be another one.
   */
  lemma MedianDependsOnOrder()
    ensures Scrambled([1, 3, 0]) == [1, 0, 3] && MedianOf([1, 3, 0]) == 2 && MedianOf([1, 0, 3]) == 1
  {
    ScrambledTwice();
    assert MinOf([1, 3, 0]) == 0 && MinOf([1, 0, 3]) == 0;
    AverageIsTotal([1, 0, 3], 3);
    assert [1, 0, 3][..2] == [1, 0] && [1, 0][..1] == [1];
    assert Total([1, 0, 3]) == 4;
    CeilOfQuotient(4, 3, 1, 2);
  }

  lemma ScrambledTwice()
    ensures Scrambled([1, 3, 0]) == [1, 0, 3] && Scrambled([1, 0, 3]) == [0, 1, 3]
  {
    var s, t := [1, 3, 0], [1, 0, 3];
    assert ScanUp(s, 0, 3) == 1 && ScanDown(s, 2, 3) == 2 && Swap(s, 1, 2) == t;
    assert Cross(s, 0, 2, 3) == Split(t, 2, 1);
    assert ScanUp(t, 0, 0) == 0 && ScanDown(t, 2, 0) == 1 && Swap(t, 0, 1) == [0, 1, 3];
    assert Cross(t, 0, 2, 0) == Split([0, 1, 3], 1, 0);
  }

  // ---------- the in-place method ----------

  /** Quickselect on the array, then the ceiling of the average when the pick is the minimum. */
  method GetMedian(a: array<int>, min: int) returns (median: int)
    requires a.Length > 0 && min == MinOf(a[..])
    modifies a
    ensures a[..] == Scrambled(old(a[..]))
    ensures median == MedianOf(old(a[..]))
  {
    ghost var s := a[..];
    var r, l := a.Length - 1, 0;
    var medianIndex := if a.Length % 2 == 1 then a.Length / 2 else a.Length / 2 - 1;
    while l < r - 1
      invariant 0 <= l && r < a.Length
      invariant l < r - 1 ==> l <= medianIndex <= r
      invariant Select(a[..], l, r, medianIndex) == Scrambled(s)
      decreases r - l
    {
      ghost var before := a[..];
      median := a[medianIndex];
      var i, j := PartitionPass(a, l, r, medianIndex);
      CrossShrinks(before, l, r, medianIndex);
      if j < medianIndex { l := i; }
      if i > medianIndex { r := j; }
    }
    median := a[medianIndex];
    if median == min {
      var arithmMiddle := ArithmeticMiddle(a);
      median := Ceil(arithmMiddle);
    }
  }

  method ArithmeticMiddle(a: array<int>) returns (arithmMiddle: real)
    requires a.Length > 0
    ensures arithmMiddle == Average(a[..], a.Length)
  {
    arithmMiddle := 0.0;
    for i := 0 to a.Length
      invariant arithmMiddle == Average(a[..i], a.Length)
    {
      arithmMiddle := arithmMiddle + a[i] as real / a.Length as real;
      assert a[..i + 1][..i] == a[..i];
    }
    assert a[..a.Length] == a[..];
  }

  /** The do-while of GetMedian: both scans, an exchange, and again until they cross. */
  method PartitionPass(a: array<int>, l: nat, r: nat, m: nat) returns (i: int, j: int)
    requires l <= m <= r < a.Length
    modifies a
    ensures 0 <= i && -1 <= j
    ensures Split(a[..], i, j) == Cross(old(a[..]), l, r, old(a[m]))
  {
    ghost var s := a[..];
    var median := a[m];
    i, j := l, r;
    PivotGuards(s, l, r, m);
    GuardedStaysInside(s, l, r, l, r, median);
    var again := true;
    while again
      invariant 0 <= i && -1 <= j < a.Length
      invariant again ==> i <= j && StaysInside(a[..], i, j, median)
      invariant Cross(s, l, r, median) == if again then Cross(a[..], i, j, median) else Split(a[..], i, j)
      decreases again, j
    {
      i, j := ExchangeOne(a, i, j, median);
      again := i <= j;
    }
  }

  /** Both scans, and the exchange of the entries at which they stop. */
  method ExchangeOne(a: array<int>, i0: nat, j0: nat, v: int) returns (i: nat, j: int)
    requires i0 <= j0 < a.Length && StaysInside(a[..], i0, j0, v)
    modifies a
    ensures -1 <= j < a.Length && (i <= j ==> j < j0 && StaysInside(a[..], i, j, v))
    ensures Cross(old(a[..]), i0, j0, v) == if i <= j then Cross(a[..], i, j, v) else Split(a[..], i, j)
  {
    i, j := ScanBoth(a, i0, j0, v);
    if i <= j {
      a[i], a[j] := a[j], a[i];
      assert a[..] == Swap(old(a[..]), i, j);
      i := i + 1;
      j := j - 1;
    }
  }

  /** The two inner scans; they need no bounds test because entries on both sides stop them. */
  method ScanBoth(a: array<int>, i0: nat, j0: nat, v: int) returns (i: nat, j: int)
    requires ScanUp(a[..], i0, v) < a.Length && j0 < a.Length && 0 <= ScanDown(a[..], j0, v)
    ensures i == ScanUp(a[..], i0, v) && j == ScanDown(a[..], j0, v)
  {
    i, j := i0, j0;
    while a[i] < v
      invariant i < a.Length && ScanUp(a[..], i, v) == ScanUp(a[..], i0, v)
      decreases a.Length - i
    {
      i := i + 1;
    }
    while a[j] > v
      invariant 0 <= j < a.Length && ScanDown(a[..], j, v) == ScanDown(a[..], j0, v)
      decreases j
    {
      j := j - 1;
    }
  }
}

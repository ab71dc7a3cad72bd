/** What Separate and Explore record, as functions of their arguments, and why they find a sequence. */
module Separation {
  import opened Numbers
  import opened Columns
  import opened Median

  // ---------- the bound of one component ----------

  function Values(F: seq<Column>, i: nat): (s: seq<int>)
    ensures |s| == |F| && forall k :: 0 <= k < |F| ==> s[k] == GeneratorEntry(F[k], i)
  {
    seq(|F|, k requires 0 <= k < |F| => GeneratorEntry(F[k], i))
  }

  function ComponentMedian(F: seq<Column>, i: nat): int
    requires |F| > 0
  {
    MedianOf(Values(F, i))
  }

  function UpperBound(F: seq<Column>, i: nat): Bound
    requires |F| > 0
  {
    Bound(i, GE, ComponentMedian(F, i))
  }

  /** The mass of F at or above the median of component i. */
  function Alpha(F: seq<Column>, i: nat): real
    requires |F| > 0
  {
    Mass(F, [UpperBound(F, i)])
  }

  predicate Discriminates(F: seq<Column>, i: nat)
    requires |F| > 0
  {
    0.0 < Alpha(F, i) < Mass(F, [])
  }

  /** Both sides of the median are inhabited exactly when the component is not constant on F. */
  lemma MedianSplitsColumns(F: seq<Column>, i: nat)
    requires |F| > 0
    ensures !Agree(F, i) ==> |Keep(F, UpperBound(F, i))| > 0 && |Keep(F, Opposite(UpperBound(F, i)))| > 0
    ensures Agree(F, i) ==> |Keep(F, Opposite(UpperBound(F, i)))| == 0
    ensures Agree(F, i) <==> ComponentMedian(F, i) == MinOf(Values(F, i))
  {
    var s, b := Values(F, i), UpperBound(F, i);
    MedianSeparates(s);
    KeepMembers(F, b);
    KeepMembers(F, Opposite(b));
    var x :| 0 <= x < |s| && s[x] == MinOf(s);
    var y :| 0 <= y < |s| && s[y] == MaxOf(s);
    assert forall k :: 0 <= k < |s| ==> s[k] in s;
    if Agree(F, i) {
      assert s[x] == s[y];
      KeepNone(F, Opposite(b));
    } else {
      assert s[x] < s[y];
      assert F[x] in Keep(F, Opposite(b));
      assert F[y] in Keep(F, b);
    }
  }

  lemma MassOfParts(F: seq<Column>, b: Bound)
    ensures Mass(F, []) == Mass(Keep(F, b), []) + Mass(Keep(F, Opposite(b)), [])
    ensures Mass(Keep(F, b), []) == Mass(F, [b])
    ensures Mass(Keep(F, Opposite(b)), []) == Mass(F, [Opposite(b)])
  {
    MassSplit(F, [], b);
    MassKeep(F, b, []);
    MassKeep(F, Opposite(b), []);
    assert [] + [b] == [b] == [b] + [] && [Opposite(b)] == [] + [Opposite(b)] == [Opposite(b)] + [];
  }

  // ---------- choosing the component to split on ----------

  /** The cast `(SCIP_Longint)(x + 0.5)`: it truncates toward zero, so negative entries move up by one. */
  function Rounded(x: int): int {
    if x >= 0 then x else x + 1
  }

  function RoundedValues(F: seq<Column>, i: nat): (s: seq<int>)
    ensures |s| == |F|
  {
    seq(|F|, k requires 0 <= k < |F| => Rounded(GeneratorEntry(F[k], i)))
  }

  function Priority(F: seq<Column>, i: nat): int
    requires |F| > 0
  {
    MaxOf(RoundedValues(F, i)) - MinOf(RoundedValues(F, i))
  }

  /** The rounded value of an entry e is what the cast makes of e + 1/2: it drops the fraction. */
  lemma RoundedIsCast(e: int)
    ensures var x, r := e as real + 0.5, Rounded(e) as real;
      (x >= 0.0 ==> r <= x < r + 1.0) && (x < 0.0 ==> r - 1.0 < x <= r)
  {
  }

  /** The difference of the rounded entries of two columns. */
  function Spread(F: seq<Column>, i: nat, x: nat, y: nat): int
    requires x < |F| && y < |F|
  {
    Rounded(GeneratorEntry(F[x], i)) - Rounded(GeneratorEntry(F[y], i))
  }

  /** The priority is the greatest difference of two rounded entries. */
  lemma PriorityIsGreatest(F: seq<Column>, i: nat) returns (a: nat, b: nat)
    requires |F| > 0
    ensures a < |F| && b < |F| && Priority(F, i) == Spread(F, i, a, b)
    ensures forall x, y :: 0 <= x < |F| && 0 <= y < |F| ==> Spread(F, i, x, y) <= Priority(F, i)
  {
    var s := RoundedValues(F, i);
    a :| 0 <= a < |s| && s[a] == MaxOf(s);
    b :| 0 <= b < |s| && s[b] == MinOf(s);
    forall x, y | 0 <= x < |F| && 0 <= y < |F| ensures Spread(F, i, x, y) <= Priority(F, i) {
      assert s[x] in s && s[y] in s;
    }
  }

  /** A constant component has priority zero, as partition asserts when it drops one. */
  lemma ConstantHasNoPriority(F: seq<Column>, i: nat)
    requires |F| > 0 && Agree(F, i)
    ensures Priority(F, i) == 0
  {
    var s := RoundedValues(F, i);
    assert forall k :: 0 <= k < |s| ==> s[k] == s[0];
    assert MaxOf(s) in s && MinOf(s) in s;
  }

  /** The first component of J with the greatest priority. */
  function FirstMax(F: seq<Column>, J: seq<nat>): (k: nat)
    requires |F| > 0 && |J| > 0
    ensures k < |J|
  {
    if |J| == 1 then 0
    else
      var k := FirstMax(F, J[..|J| - 1]);
      if Priority(F, J[|J| - 1]) > Priority(F, J[k]) then |J| - 1 else k
  }

  lemma {:induction false} FirstMaxIsFirst(F: seq<Column>, J: seq<nat>)
    requires |F| > 0 && |J| > 0
    ensures forall j :: 0 <= j < |J| ==> Priority(F, J[j]) <= Priority(F, J[FirstMax(F, J)])
    ensures forall j :: 0 <= j < FirstMax(F, J) ==> Priority(F, J[j]) < Priority(F, J[FirstMax(F, J)])
  {
    if |J| > 1 {
      var front, k := J[..|J| - 1], FirstMax(F, J[..|J| - 1]);
      FirstMaxIsFirst(F, front);
      assert J == front + [J[|J| - 1]];
      LastAgainstBest(F, front, J[|J| - 1], k, Priority(F, J[|J| - 1]), Priority(F, J[k]));
    }
  }

  lemma LastAgainstBest(F: seq<Column>, front: seq<nat>, i: nat, k: nat, last: int, best: int)
    requires |F| > 0 && k < |front| && last == Priority(F, i) && best == Priority(F, front[k])
    requires forall j :: 0 <= j < |front| ==> Priority(F, front[j]) <= best
    requires forall j :: 0 <= j < k ==> Priority(F, front[j]) < best
    ensures var J, m := front + [i], if last > best then |front| else k;
      && (forall j :: 0 <= j < |J| ==> Priority(F, J[j]) <= Priority(F, J[m]))
      && (forall j :: 0 <= j < m ==> Priority(F, J[j]) < Priority(F, J[m]))
  {
  }

  /** Component o spreads the columns at least as far as component i does. */
  ghost predicate SpreadsAsFar(F: seq<Column>, o: nat, i: nat) {
    exists a, b :: 0 <= a < |F| && 0 <= b < |F| &&
      forall x, y :: 0 <= x < |F| && 0 <= y < |F| ==> Spread(F, i, x, y) <= Spread(F, o, a, b)
  }

  ghost predicate SpreadsFarther(F: seq<Column>, o: nat, i: nat) {
    exists a, b :: 0 <= a < |F| && 0 <= b < |F| &&
      forall x, y :: 0 <= x < |F| && 0 <= y < |F| ==> Spread(F, i, x, y) < Spread(F, o, a, b)
  }

  datatype Choice = Choice(J: seq<nat>, origvar: nat)

  /** Partition: drop constant components, greatest priority first, until one varies or none is left. */
  function PartitionOf(F: seq<Column>, J: seq<nat>, previous: nat): (ch: Choice)
    requires |F| > 0
    ensures |ch.J| <= |J|
    decreases |J|
  {
    if |J| == 0 then Choice([], previous)
    else
      var k := FirstMax(F, J);
      if ComponentMedian(F, J[k]) == MinOf(Values(F, J[k])) then
        PartitionOf(F, J[k := J[|J| - 1]][..|J| - 1], J[k])
      else Choice(J, J[k])
  }

  /** The components of I that discriminate, in order. */
  function Discriminating(F: seq<Column>, I: seq<nat>): (J: seq<nat>)
    requires |F| > 0
    ensures |J| <= |I| && forall k :: 0 <= k < |J| ==> Discriminates(F, J[k])
  {
    if |I| == 0 then []
    else Discriminating(F, I[..|I| - 1]) + if Discriminates(F, I[|I| - 1]) then [I[|I| - 1]] else []
  }

  lemma {:induction false} DiscriminatingMembers(F: seq<Column>, I: seq<nat>)
    requires |F| > 0
    ensures forall i :: i in Discriminating(F, I) <==> i in I && Discriminates(F, i)
  {
    if |I| > 0 {
      DiscriminatingMembers(F, I[..|I| - 1]);
      assert I == I[..|I| - 1] + [I[|I| - 1]];
    }
  }

  /** A discriminating component is never dropped, and both of its parts are strictly smaller than F. */
  lemma DiscriminatingShrinks(F: seq<Column>, i: nat)
    requires |F| > 0 && Discriminates(F, i)
    ensures ComponentMedian(F, i) != MinOf(Values(F, i))
    ensures 0 < |Keep(F, UpperBound(F, i))| < |F| && 0 < |Keep(F, Opposite(UpperBound(F, i)))| < |F|
  {
    MassOfParts(F, UpperBound(F, i));
    KeepShares(F, UpperBound(F, i));
    MedianSplitsColumns(F, i);
  }

  lemma PartitionKeepsAll(F: seq<Column>, J: seq<nat>, previous: nat)
    requires |F| > 0 && |J| > 0 && forall k :: 0 <= k < |J| ==> Discriminates(F, J[k])
    ensures PartitionOf(F, J, previous) == Choice(J, J[FirstMax(F, J)])
  {
    DiscriminatingShrinks(F, J[FirstMax(F, J)]);
  }

  lemma ComparesSpreads(F: seq<Column>, o: nat, i: nat)
    requires |F| > 0
    ensures Priority(F, i) <= Priority(F, o) ==> SpreadsAsFar(F, o, i)
    ensures Priority(F, i) < Priority(F, o) ==> SpreadsFarther(F, o, i)
  {
    var a, b := PriorityIsGreatest(F, o);
    var c, d := PriorityIsGreatest(F, i);
  }

  /** Component k of J varies, and spreads the columns as far as any of J does, and farther than those before it. */
  ghost predicate PickedAt(F: seq<Column>, J: seq<nat>, k: nat) {
    && k < |J| && !Agree(F, J[k])
    && (forall j :: 0 <= j < |J| ==> SpreadsAsFar(F, J[k], J[j]))
    && (forall j :: 0 <= j < k ==> SpreadsFarther(F, J[k], J[j]))
  }

  /**
   * Where partition ends: it has dropped components that are constant, and of those that are left it picks the first
   * one on which the rounded entries of two columns lie farthest apart.
   */
  lemma {:induction false} PartitionPicksGreatest(F: seq<Column>, J: seq<nat>, previous: nat)
    requires |F| > 0
    ensures var ch := PartitionOf(F, J, previous);
      && (forall i :: i in ch.J ==> i in J) && (forall i :: i in J && i !in ch.J ==> Agree(F, i))
      && (ch.J != [] ==> exists k: nat :: PickedAt(F, ch.J, k) && ch.origvar == ch.J[k])
    decreases |J|
  {
    if |J| > 0 {
      var k := FirstMax(F, J);
      MedianSplitsColumns(F, J[k]);
      if ComponentMedian(F, J[k]) == MinOf(Values(F, J[k])) {
        var D := J[k := J[|J| - 1]][..|J| - 1];
        PartitionPicksGreatest(F, D, J[k]);
        DroppedFrom(J, k);
      } else {
        FirstMaxIsFirst(F, J);
        forall j | 0 <= j < |J| ensures SpreadsAsFar(F, J[k], J[j]) && (j < k ==> SpreadsFarther(F, J[k], J[j])) {
          ComparesSpreads(F, J[k], J[j]);
        }
        assert PickedAt(F, J, k) && PartitionOf(F, J, previous) == Choice(J, J[k]);
      }
    }
  }

  lemma DroppedFrom(J: seq<nat>, k: nat)
    requires k < |J|
    ensures var D := J[k := J[|J| - 1]][..|J| - 1];
      (forall i :: i in D ==> i in J) && (forall i :: i in J ==> i in D || i == J[k])
  {
    var n := |J| - 1;
    var D := J[k := J[n]][..n];
    forall i | i in J ensures i in D || i == J[k] {
      var j :| 0 <= j < |J| && J[j] == i;
      if j < n && j != k { assert D[j] == i; } else if j == n && k < n { assert D[k] == i; }
    }
  }

  // ---------- the recorded sequences ----------

  /** One sequence for every component whose upper mass is fractional. */
  function Direct(F: seq<Column>, I: seq<nat>, S: Sequence): seq<Sequence>
    requires |F| > 0
  {
    if |I| == 0 then []
    else Direct(F, I[..|I| - 1], S) +
         if IsInt(Alpha(F, I[|I| - 1])) then [] else [S + [UpperBound(F, I[|I| - 1])]]
  }

  /** Recorded directly: for each component with a fractional upper mass, S and the bound at its median. */
  lemma DirectMembers(F: seq<Column>, I: seq<nat>, S: Sequence, T: Sequence)
    requires |F| > 0
    ensures T in Direct(F, I, S) <==> exists i :: i in I && RecordedFor(F, S, T, i)
  {
    if T in Direct(F, I, S) {
      var k: nat :| k < |Direct(F, I, S)| && Direct(F, I, S)[k] == T;
      var x := DirectAt(F, I, S, k);
      assert I[x] in I;
    }
    if i :| i in I && RecordedFor(F, S, T, i) { DirectHas(F, I, S, T, i); }
  }

  lemma {:induction false} DirectHas(F: seq<Column>, I: seq<nat>, S: Sequence, T: Sequence, i: nat)
    requires |F| > 0 && i in I && RecordedFor(F, S, T, i)
    ensures T in Direct(F, I, S)
  {
    if i != I[|I| - 1] { DirectHas(F, I[..|I| - 1], S, T, i); }
  }

  lemma {:induction false} DirectAt(F: seq<Column>, I: seq<nat>, S: Sequence, i: nat) returns (x: nat)
    requires |F| > 0 && i < |Direct(F, I, S)|
    ensures x < |I| && RecordedFor(F, S, Direct(F, I, S)[i], I[x])
  {
    var n := |I| - 1;
    if i < |Direct(F, I[..n], S)| { x := DirectAt(F, I[..n], S, i); } else { x := n; }
  }

  ghost predicate RecordedFor(F: seq<Column>, S: Sequence, T: Sequence, i: nat)
    requires |F| > 0
  {
    !IsInt(Alpha(F, i)) && T == S + [Bound(i, GE, ComponentMedian(F, i))]
  }

  /** The component partition settles on, given that no component was recorded directly. */
  function SplitChoice(F: seq<Column>, I: seq<nat>): (ch: Choice)
    requires |F| > 0 && |I| > 0
    ensures ch.J == Discriminating(F, I)
    ensures ch.J == [] || (ch.origvar in ch.J && Discriminates(F, ch.origvar))
  {
    var J := Discriminating(F, I);
    if |J| > 0 then PartitionKeepsAll(F, J, I[|I| - 1]); PartitionOf(F, J, I[|I| - 1])
    else PartitionOf(F, J, I[|I| - 1])
  }

  /** Everything Separate appends to the record. */
  function Separations(F: seq<Column>, I: seq<nat>, S: Sequence): seq<Sequence>
    decreases |F|, |I|
  {
    if |F| == 0 || |I| == 0 then []
    else if Direct(F, I, S) != [] then Direct(F, I, S)
    else
      var ch := SplitChoice(F, I);
      var b := UpperBound(F, ch.origvar);
      if ch.J != [] then
        DiscriminatingShrinks(F, ch.origvar);
        Separations(Keep(F, Opposite(b)), ch.J, S + [Opposite(b)]) + Separations(Keep(F, b), ch.J, S + [b])
      else
        Separations(Keep(F, Opposite(b)), [], S + [Opposite(b)]) + Separations(Keep(F, b), [], S + [b])
  }

  function MaxLength(C: seq<Sequence>): (n: nat)
    ensures forall k :: 0 <= k < |C| ==> |C[k]| <= n
  {
    if |C| == 0 then 0
    else var n := MaxLength(C[..|C| - 1]); if |C[|C| - 1]| > n then |C[|C| - 1]| else n
  }

  /** Index of the first sequence that bounds a p-th component, |C| when there is none. */
  function FirstLong(C: seq<Sequence>, p: nat): (k: nat)
    ensures k <= |C| && (k < |C| ==> |C[k]| >= p)
    ensures forall j :: 0 <= j < k ==> |C[j]| < p
  {
    if |C| == 0 then 0
    else if |C[0]| >= p then 0
    else FirstLong(C[1..], p) + 1
  }

  /** computeNewSequence: the sequences with a p-th bound of the given sense, in order. */
  function WithSense(C: seq<Sequence>, p: nat, sense: Sense): (D: seq<Sequence>)
    requires p > 0
    ensures |D| <= |C|
    ensures MaxLength(D) <= MaxLength(C)
  {
    if |C| == 0 then []
    else
      var D, A := WithSense(C[..|C| - 1], p, sense), C[|C| - 1];
      if |A| >= p && A[p - 1].sense == sense then
        assert (D + [A])[..|D|] == D;
        D + [A]
      else D
  }

  /** Explore skips the lower part when the recorded side carries no mass but upper columns exist. */
  predicate SkipsLower(F: seq<Column>, c: Bound) {
    Mass(F, [c]) <= 0.0 && |Keep(F, c.(sense := GE))| > 0
  }

  predicate SkipsUpper(F: seq<Column>, c: Bound) {
    Mass(F, [c]) == Mass(F, []) && (SkipsLower(F, c) || |Keep(F, c.(sense := LT))| > 0)
  }

  /** Everything Explore appends to the record at depth p. */
  function Explorations(C: seq<Sequence>, p: nat, F: seq<Column>, I: seq<nat>, S: Sequence): seq<Sequence>
    requires p > 0
    decreases MaxLength(C) + 1 - p
  {
    var k := FirstLong(C, p);
    if |C| == 0 || |F| == 0 || |I| == 0 || k == |C| then Separations(F, I, S)
    else
      var c := C[k][p - 1];
      if !IsInt(Mass(F, [c])) then [S + [c]]
      else
        var ge, lt := c.(sense := GE), c.(sense := LT);
        var upper, lower := Keep(F, ge), Keep(F, lt);
        (if |upper| > 0 && !SkipsUpper(F, c)
         then Explorations(WithSense(C, p, GE), p + 1, upper, I, S + [ge]) else []) +
        (if |lower| > 0 && !SkipsLower(F, c)
         then Explorations(WithSense(C, p, LT), p + 1, lower, I, S + [lt]) else [])
  }

  // ---------- when nothing is recorded directly ----------

  ghost predicate AlphasIntegral(F: seq<Column>, I: seq<nat>)
    requires |F| > 0
  {
    forall k :: 0 <= k < |I| ==> IsInt(Alpha(F, I[k]))
  }

  lemma AlphasIntegralSplit(F: seq<Column>, I: seq<nat>)
    requires |F| > 0 && |I| > 0
    ensures AlphasIntegral(F, I) <==> AlphasIntegral(F, I[..|I| - 1]) && IsInt(Alpha(F, I[|I| - 1]))
  {
    var J, n := I[..|I| - 1], |I| - 1;
    if AlphasIntegral(F, J) && IsInt(Alpha(F, I[n])) {
      forall k | 0 <= k < |I| ensures IsInt(Alpha(F, I[k])) {
        if k < n { assert J[k] == I[k]; }
      }
    }
    if AlphasIntegral(F, I) {
      forall k | 0 <= k < n ensures IsInt(Alpha(F, J[k])) {
        assert J[k] == I[k];
      }
    }
  }

  lemma {:induction false} DirectEmpty(F: seq<Column>, I: seq<nat>, S: Sequence)
    requires |F| > 0
    ensures Direct(F, I, S) == [] <==> AlphasIntegral(F, I)
  {
    if |I| > 0 {
      DirectEmpty(F, I[..|I| - 1], S);
      AlphasIntegralSplit(F, I);
    }
  }

  lemma AllAlphasIntegral(F: seq<Column>, I: seq<nat>, S: Sequence, i: nat)
    requires |F| > 0 && Direct(F, I, S) == [] && i in I
    ensures IsInt(Alpha(F, i))
  {
    DirectEmpty(F, I, S);
  }

  lemma Sides(c: Bound)
    ensures var ge, lt := c.(sense := GE), c.(sense := LT);
      Opposite(ge) == lt && Opposite(lt) == ge && ((c == ge && Opposite(c) == lt) || (c == lt && Opposite(c) == ge))
  {
    match c { case Bound(_, GE, _) => case Bound(_, LT, _) => }
  }

  // ---------- soundness ----------

  /**
   * F stands in for the block columns B below S: on every continuation of S, the two masses differ by
   * an integer (the columns of B that F leaves out have integral values).
   */
  ghost predicate Represents(B: seq<Column>, F: seq<Column>, S: Sequence) {
    forall T: Sequence :: IsInt(Mass(B, S + T) - Mass(F, T))
  }

  /** The mass of S is integral, and that of every nonempty proper prefix. The total mass need not be. */
  ghost predicate PrefixesIntegral(B: seq<Column>, S: Sequence) {
    IsInt(Mass(B, S)) && forall q :: 0 < q < |S| ==> IsInt(Mass(B, S[..q]))
  }

  /** S can be branched on: its mass is fractional, the mass of every nonempty proper prefix is integral. */
  ghost predicate Branchable(B: seq<Column>, S: Sequence) {
    && |S| > 0 && !IsInt(Mass(B, S))
    && forall q :: 0 < q < |S| ==> IsInt(Mass(B, S[..q]))
  }

  ghost predicate AllBranchable(B: seq<Column>, R: seq<Sequence>) {
    forall k :: 0 <= k < |R| ==> Branchable(B, R[k])
  }

  lemma AllBranchableAppend(B: seq<Column>, R: seq<Sequence>, Q: seq<Sequence>)
    requires AllBranchable(B, R) && AllBranchable(B, Q)
    ensures AllBranchable(B, R + Q)
  {
  }

  /** Keeping one side of F stands in for extending S by that side. */
  lemma RepresentsPart(B: seq<Column>, F: seq<Column>, S: Sequence, b: Bound)
    requires Represents(B, F, S)
    ensures Represents(B, Keep(F, b), S + [b])
    ensures IsInt(Mass(B, S + [b])) <==> IsInt(Mass(F, [b]))
    ensures IsInt(Mass(B, S)) <==> IsInt(Mass(F, []))
  {
    RepresentsKept(B, F, S, b);
    RepresentsMass(B, F, S, [b]);
    RepresentsMass(B, F, S, []);
    assert S + [] == S;
  }

  lemma RepresentsKept(B: seq<Column>, F: seq<Column>, S: Sequence, b: Bound)
    requires Represents(B, F, S)
    ensures Represents(B, Keep(F, b), S + [b])
  {
    forall T: Sequence ensures IsInt(Mass(B, S + [b] + T) - Mass(Keep(F, b), T)) {
      MassKeep(F, b, T);
      assert S + [b] + T == S + ([b] + T);
      assert IsInt(Mass(B, S + ([b] + T)) - Mass(F, [b] + T));
    }
  }

  lemma RepresentsMass(B: seq<Column>, F: seq<Column>, S: Sequence, T: Sequence)
    requires Represents(B, F, S)
    ensures IsInt(Mass(B, S + T)) <==> IsInt(Mass(F, T))
  {
    assert IsInt(Mass(B, S + T) - Mass(F, T));
    IntAbsorbed(Mass(B, S + T), Mass(F, T));
  }

  lemma ExtendedIsBranchable(B: seq<Column>, F: seq<Column>, S: Sequence, b: Bound)
    requires Represents(B, F, S) && PrefixesIntegral(B, S) && !IsInt(Mass(F, [b]))
    ensures Branchable(B, S + [b])
  {
    RepresentsPart(B, F, S, b);
    assert S[..|S|] == S;
    forall q | 0 < q < |S + [b]| ensures IsInt(Mass(B, (S + [b])[..q])) {
      assert (S + [b])[..q] == S[..q];
    }
  }

  lemma PrefixesExtend(B: seq<Column>, F: seq<Column>, S: Sequence, b: Bound)
    requires Represents(B, F, S) && PrefixesIntegral(B, S) && IsInt(Mass(F, [b]))
    ensures PrefixesIntegral(B, S + [b])
  {
    RepresentsPart(B, F, S, b);
    assert S[..|S|] == S;
    forall q | 0 < q < |S + [b]| ensures IsInt(Mass(B, (S + [b])[..q])) {
      assert (S + [b])[..q] == S[..q];
    }
  }

  /** Both children of a split inherit the assumptions of the search. */
  lemma SplitInherits(B: seq<Column>, F: seq<Column>, S: Sequence, b: Bound)
    requires Represents(B, F, S) && PrefixesIntegral(B, S) && IsInt(Mass(F, [b]))
    ensures Represents(B, Keep(F, b), S + [b]) && PrefixesIntegral(B, S + [b])
    ensures Represents(B, Keep(F, Opposite(b)), S + [Opposite(b)]) && PrefixesIntegral(B, S + [Opposite(b)])
  {
    assert S[..|S|] == S;
    RepresentsPart(B, F, S, b);
    RepresentsPart(B, F, S, Opposite(b));
    MassOfParts(F, b);
    IntClosed(Mass(F, []), Mass(F, [b]));
    PrefixesExtend(B, F, S, b);
    PrefixesExtend(B, F, S, Opposite(b));
  }

  lemma {:induction false} DirectSound(B: seq<Column>, F: seq<Column>, I: seq<nat>, S: Sequence)
    requires |F| > 0 && Represents(B, F, S) && PrefixesIntegral(B, S)
    ensures AllBranchable(B, Direct(F, I, S))
  {
    if |I| > 0 {
      DirectSound(B, F, I[..|I| - 1], S);
      if !IsInt(Alpha(F, I[|I| - 1])) {
        ExtendedIsBranchable(B, F, S, UpperBound(F, I[|I| - 1]));
      }
    }
  }

  lemma {:induction false} SeparateSound(B: seq<Column>, F: seq<Column>, I: seq<nat>, S: Sequence)
    requires Represents(B, F, S) && PrefixesIntegral(B, S)
    ensures AllBranchable(B, Separations(F, I, S))
    decreases |F|
  {
    if |F| > 0 && |I| > 0 {
      DirectSound(B, F, I, S);
      var ch := SplitChoice(F, I);
      if Direct(F, I, S) == [] && ch.J != [] {
        var b := UpperBound(F, ch.origvar);
        DiscriminatingMembers(F, I);
        DiscriminatingShrinks(F, ch.origvar);
        AllAlphasIntegral(F, I, S, ch.origvar);
        SplitInherits(B, F, S, b);
        SeparateSound(B, Keep(F, b), ch.J, S + [b]);
        SeparateSound(B, Keep(F, Opposite(b)), ch.J, S + [Opposite(b)]);
        HalvesBranchable(B, F, I, S, b);
      }
    }
  }

  /** The branch of Separate that splits the columns at the bound b. */
  lemma HalvesBranchable(B: seq<Column>, F: seq<Column>, I: seq<nat>, S: Sequence, b: Bound)
    requires |F| > 0 && |I| > 0 && Direct(F, I, S) == [] && SplitChoice(F, I).J != []
    requires b == UpperBound(F, SplitChoice(F, I).origvar)
    requires |Keep(F, b)| < |F| && |Keep(F, Opposite(b))| < |F|
    requires AllBranchable(B, Separations(Keep(F, b), SplitChoice(F, I).J, S + [b]))
    requires AllBranchable(B, Separations(Keep(F, Opposite(b)), SplitChoice(F, I).J, S + [Opposite(b)]))
    ensures AllBranchable(B, Separations(F, I, S))
  {
    var J := SplitChoice(F, I).J;
    AllBranchableAppend(B, Separations(Keep(F, b), J, S + [b]),
      Separations(Keep(F, Opposite(b)), J, S + [Opposite(b)]));
  }

  lemma {:induction false} ExploreSound(B: seq<Column>, C: seq<Sequence>, p: nat, F: seq<Column>, I: seq<nat>,
    S: Sequence)
    requires p > 0 && Represents(B, F, S) && PrefixesIntegral(B, S)
    ensures AllBranchable(B, Explorations(C, p, F, I, S))
    decreases MaxLength(C) + 1 - p
  {
    var k := FirstLong(C, p);
    if |C| == 0 || |F| == 0 || |I| == 0 || k == |C| {
      SeparateSound(B, F, I, S);
    } else {
      var c := C[k][p - 1];
      var ge, lt := c.(sense := GE), c.(sense := LT);
      if !IsInt(Mass(F, [c])) {
        ExtendedIsBranchable(B, F, S, c);
      } else {
        SplitInherits(B, F, S, c);
        Sides(c);
        ExploreSound(B, WithSense(C, p, GE), p + 1, Keep(F, ge), I, S + [ge]);
        ExploreSound(B, WithSense(C, p, LT), p + 1, Keep(F, lt), I, S + [lt]);
        SidesBranchable(B, C, p, F, I, S, c);
      }
    }
  }

  /** The branch of Explore that looks at both sides of a recorded bound. */
  lemma SidesBranchable(B: seq<Column>, C: seq<Sequence>, p: nat, F: seq<Column>, I: seq<nat>, S: Sequence, c: Bound)
    requires p > 0 && |C| > 0 && |F| > 0 && |I| > 0 && FirstLong(C, p) < |C| && c == C[FirstLong(C, p)][p - 1]
    requires IsInt(Mass(F, [c]))
    requires AllBranchable(B, Explorations(WithSense(C, p, GE), p + 1, Keep(F, c.(sense := GE)), I,
                                           S + [c.(sense := GE)]))
    requires AllBranchable(B, Explorations(WithSense(C, p, LT), p + 1, Keep(F, c.(sense := LT)), I,
                                           S + [c.(sense := LT)]))
    ensures AllBranchable(B, Explorations(C, p, F, I, S))
  {
    var ge, lt := c.(sense := GE), c.(sense := LT);
    var upper := if |Keep(F, ge)| > 0 && !SkipsUpper(F, c)
      then Explorations(WithSense(C, p, GE), p + 1, Keep(F, ge), I, S + [ge]) else [];
    var lower := if |Keep(F, lt)| > 0 && !SkipsLower(F, c)
      then Explorations(WithSense(C, p, LT), p + 1, Keep(F, lt), I, S + [lt]) else [];
    AllBranchableAppend(B, upper, lower);
    assert Explorations(C, p, F, I, S) == upper + lower;
  }

  // ---------- soundness when the total is fractional ----------

  ghost predicate AllFractional(B: seq<Column>, R: seq<Sequence>) {
    forall k :: 0 <= k < |R| ==> |R[k]| > 0 && !IsInt(Mass(B, R[k]))
  }

  lemma {:induction false} DirectFractional(B: seq<Column>, F: seq<Column>, I: seq<nat>, S: Sequence)
    requires |F| > 0 && Represents(B, F, S)
    ensures AllFractional(B, Direct(F, I, S))
    ensures forall k :: 0 <= k < |Direct(F, I, S)| ==> |Direct(F, I, S)[k]| == |S| + 1
  {
    if |I| > 0 {
      DirectFractional(B, F, I[..|I| - 1], S);
      RepresentsPart(B, F, S, UpperBound(F, I[|I| - 1]));
    }
  }

  /** Whatever the total, every recorded sequence has fractional mass. */
  lemma AllFractionalAppend(B: seq<Column>, R: seq<Sequence>, Q: seq<Sequence>)
    requires AllFractional(B, R) && AllFractional(B, Q)
    ensures AllFractional(B, R + Q)
  {
  }

  lemma {:induction false} SeparateFractional(B: seq<Column>, F: seq<Column>, I: seq<nat>, S: Sequence)
    requires Represents(B, F, S)
    ensures AllFractional(B, Separations(F, I, S))
    decreases |F|
  {
    if |F| > 0 && |I| > 0 {
      DirectFractional(B, F, I, S);
      var ch := SplitChoice(F, I);
      if Direct(F, I, S) == [] && ch.J != [] {
        var b := UpperBound(F, ch.origvar);
        DiscriminatingMembers(F, I);
        DiscriminatingShrinks(F, ch.origvar);
        RepresentsPart(B, F, S, b);
        RepresentsPart(B, F, S, Opposite(b));
        SeparateFractional(B, Keep(F, b), ch.J, S + [b]);
        SeparateFractional(B, Keep(F, Opposite(b)), ch.J, S + [Opposite(b)]);
        SeparationsOfHalves(F, I, S);
        AllFractionalAppend(B, Separations(Keep(F, Opposite(b)), ch.J, S + [Opposite(b)]),
                            Separations(Keep(F, b), ch.J, S + [b]));
      }
    }
  }

  /** If nothing is recorded directly, the records of the lower half come first, then those of the upper half. */
  lemma SeparationsOfHalves(F: seq<Column>, I: seq<nat>, S: Sequence)
    requires |F| > 0 && |I| > 0 && Direct(F, I, S) == []
    ensures var ch := SplitChoice(F, I);
      var b := UpperBound(F, ch.origvar);
      Separations(F, I, S) == if ch.J == [] then []
        else Separations(Keep(F, Opposite(b)), ch.J, S + [Opposite(b)]) + Separations(Keep(F, b), ch.J, S + [b])
  {
    var ch := SplitChoice(F, I);
    if ch.J != [] {
      DiscriminatingMembers(F, I);
      DiscriminatingShrinks(F, ch.origvar);
    }
  }

  /** The fractional columns of a block stand in for the whole block at the empty sequence. */
  lemma FractionalPartRepresents(B: seq<Column>, F: seq<Column>, R: seq<Column>)
    requires multiset(B) == multiset(F + R) && Integral(R)
    ensures Represents(B, F, [])
  {
    forall T: Sequence ensures IsInt(Mass(B, [] + T) - Mass(F, T)) {
      assert [] + T == T;
      MassPermuted(B, F + R, T);
      MassAppend(F, R, T);
      MassIntegral(R, T);
    }
  }
}

/** The search as a whole: what it records when the total mass of the block is integral, and when it is not. */
module RootSearch {
  import opened Numbers
  import opened Columns
  import opened Separation
  import opened Search
  import opened Children

  /** What the search returns for a block: from the root, or steered by the sequences of the path. */
  function Found(C: seq<Sequence>, F: seq<Column>, I: seq<nat>): seq<Sequence> {
    if |C| == 0 then Separations(F, I, []) else Explorations(C, 1, F, I, [])
  }

  // ---------- every recorded sequence extends the one it was searched below ----------

  ghost predicate AllExtend(R: seq<Sequence>, S: Sequence) {
    forall k :: 0 <= k < |R| ==> |S| < |R[k]| && R[k][..|S|] == S
  }

  lemma ExtendWeakens(R: seq<Sequence>, S: Sequence, b: Bound)
    requires AllExtend(R, S + [b])
    ensures AllExtend(R, S)
  {
    forall k | 0 <= k < |R| ensures |S| < |R[k]| && R[k][..|S|] == S {
      assert R[k][..|S|] == R[k][..|S| + 1][..|S|] == (S + [b])[..|S|] == S;
    }
  }

  lemma {:induction false} DirectExtends(F: seq<Column>, I: seq<nat>, S: Sequence)
    requires |F| > 0
    ensures AllExtend(Separation.Direct(F, I, S), S)
  {
    if |I| > 0 { DirectExtends(F, I[..|I| - 1], S); }
  }

  lemma AllExtendAppend(R: seq<Sequence>, Q: seq<Sequence>, S: Sequence)
    requires AllExtend(R, S) && AllExtend(Q, S)
    ensures AllExtend(R + Q, S)
  {
  }

  lemma {:induction false} SeparationsExtend(F: seq<Column>, I: seq<nat>, S: Sequence)
    ensures AllExtend(Separations(F, I, S), S)
    decreases |F|
  {
    if |F| > 0 && |I| > 0 {
      DirectExtends(F, I, S);
      var ch := SplitChoice(F, I);
      var b := UpperBound(F, ch.origvar);
      if Separation.Direct(F, I, S) == [] && ch.J != [] {
        DiscriminatingShrinks(F, ch.origvar);
        SeparationsExtend(Keep(F, b), ch.J, S + [b]);
        SeparationsExtend(Keep(F, Opposite(b)), ch.J, S + [Opposite(b)]);
        ExtendWeakens(Separations(Keep(F, b), ch.J, S + [b]), S, b);
        ExtendWeakens(Separations(Keep(F, Opposite(b)), ch.J, S + [Opposite(b)]), S, Opposite(b));
        SeparationsOfHalves(F, I, S);
        AllExtendAppend(Separations(Keep(F, Opposite(b)), ch.J, S + [Opposite(b)]),
                        Separations(Keep(F, b), ch.J, S + [b]), S);
      }
    }
  }

  lemma {:induction false} ExplorationsExtend(C: seq<Sequence>, p: nat, F: seq<Column>, I: seq<nat>, S: Sequence)
    requires p > 0
    ensures AllExtend(Explorations(C, p, F, I, S), S)
    decreases MaxLength(C) + 1 - p
  {
    var k := FirstLong(C, p);
    if |C| == 0 || |F| == 0 || |I| == 0 || k == |C| {
      SeparationsExtend(F, I, S);
    } else {
      var c := C[k][p - 1];
      var ge, lt := c.(sense := GE), c.(sense := LT);
      ExplorationsStep(C, p, F, I, S);
      ExplorationsExtend(WithSense(C, p, GE), p + 1, Keep(F, ge), I, S + [ge]);
      ExplorationsExtend(WithSense(C, p, LT), p + 1, Keep(F, lt), I, S + [lt]);
      SidesExtend(C, p, F, I, S, c);
    }
  }

  lemma SidesExtend(C: seq<Sequence>, p: nat, F: seq<Column>, I: seq<nat>, S: Sequence, c: Bound)
    requires p > 0
    requires AllExtend(Explorations(WithSense(C, p, GE), p + 1, Keep(F, c.(sense := GE)), I, S + [c.(sense := GE)]),
                       S + [c.(sense := GE)])
    requires AllExtend(Explorations(WithSense(C, p, LT), p + 1, Keep(F, c.(sense := LT)), I, S + [c.(sense := LT)]),
                       S + [c.(sense := LT)])
    ensures AllExtend(UpperExplorations(C, p, F, I, S, c) + LowerExplorations(C, p, F, I, S, c), S)
  {
    var ge, lt := c.(sense := GE), c.(sense := LT);
    ExtendWeakens(Explorations(WithSense(C, p, GE), p + 1, Keep(F, ge), I, S + [ge]), S, ge);
    ExtendWeakens(Explorations(WithSense(C, p, LT), p + 1, Keep(F, lt), I, S + [lt]), S, lt);
    AllExtendAppend(UpperExplorations(C, p, F, I, S, c), LowerExplorations(C, p, F, I, S, c), S);
  }

  // ---------- the order of the records ----------

  /** At position n the sequences take side b first, and the opposite side after that. */
  ghost predicate SidesInOrder(R: seq<Sequence>, n: nat, b: Bound) {
    && (forall k :: 0 <= k < |R| ==> n < |R[k]| && (R[k][n] == b || R[k][n] == Opposite(b)))
    && (forall i, j :: 0 <= i < j < |R| && R[j][n] == b ==> R[i][n] == b)
  }

  lemma TakesLast(R: seq<Sequence>, S: Sequence, b: Bound)
    requires AllExtend(R, S + [b])
    ensures forall k :: 0 <= k < |R| ==> |S| < |R[k]| && R[k][|S|] == b
  {
    forall k | 0 <= k < |R| ensures |S| < |R[k]| && R[k][|S|] == b {
      assert R[k][|S|] == R[k][..|S| + 1][|S|] == (S + [b])[|S|];
    }
  }

  lemma JoinedInOrder(R: seq<Sequence>, Q: seq<Sequence>, S: Sequence, b: Bound)
    requires AllExtend(R, S + [b]) && AllExtend(Q, S + [Opposite(b)])
    ensures SidesInOrder(R + Q, |S|, b)
  {
    TakesLast(R, S, b);
    TakesLast(Q, S, Opposite(b));
    assert b != Opposite(b);
  }

  /** Component o of I is split at its median, below it first; no discriminating component is spread out farther. */
  ghost predicate SplitsOn(F: seq<Column>, I: seq<nat>, R: seq<Sequence>, n: nat, o: nat)
    requires |F| > 0
  {
    && o in I && SidesInOrder(R, n, Bound(o, LT, ComponentMedian(F, o)))
    && forall i :: i in I && Discriminates(F, i) ==> SpreadsAsFar(F, o, i)
  }

  /** When Separate splits, it searches the lower strip before the upper one. */
  lemma LowerStripFirst(F: seq<Column>, I: seq<nat>, S: Sequence)
    requires |F| > 0 && |I| > 0 && Separation.Direct(F, I, S) == []
    ensures Separations(F, I, S) == [] || exists o :: SplitsOn(F, I, Separations(F, I, S), |S|, o)
  {
    var ch := SplitChoice(F, I);
    var b := UpperBound(F, ch.origvar);
    SeparationsOfHalves(F, I, S);
    if ch.J != [] {
      SplitChoiceSpreads(F, I);
      SeparationsExtend(Keep(F, Opposite(b)), ch.J, S + [Opposite(b)]);
      SeparationsExtend(Keep(F, b), ch.J, S + [b]);
      assert Opposite(Opposite(b)) == b;
      JoinedInOrder(Separations(Keep(F, Opposite(b)), ch.J, S + [Opposite(b)]), Separations(Keep(F, b), ch.J, S + [b]),
                    S, Opposite(b));
      assert SplitsOn(F, I, Separations(F, I, S), |S|, ch.origvar);
    }
  }

  lemma SplitChoiceSpreads(F: seq<Column>, I: seq<nat>)
    requires |F| > 0 && |I| > 0 && SplitChoice(F, I).J != []
    ensures var o := SplitChoice(F, I).origvar;
      o in I && forall i :: i in I && Discriminates(F, i) ==> SpreadsAsFar(F, o, i)
  {
    var ch := SplitChoice(F, I);
    DiscriminatingMembers(F, I);
    PartitionPicksGreatest(F, ch.J, I[|I| - 1]);
    var k: nat :| PickedAt(F, ch.J, k) && ch.origvar == ch.J[k];
  }

  /** Explore splits as the first collected sequence that is long enough says, and searches the upper strip first. */
  lemma UpperStripFirst(C: seq<Sequence>, p: nat, F: seq<Column>, I: seq<nat>, S: Sequence, k: nat)
    requires p > 0 && |F| > 0 && |I| > 0 && k < |C| && |C[k]| >= p && forall j :: 0 <= j < k ==> |C[j]| < p
    ensures var c := C[k][p - 1];
      if IsInt(Mass(F, [c])) then SidesInOrder(Explorations(C, p, F, I, S), |S|, Bound(c.component, GE, c.bound))
      else Explorations(C, p, F, I, S) == [S + [c]]
  {
    assert k == FirstLong(C, p);
    var c := C[k][p - 1];
    var ge, lt := c.(sense := GE), c.(sense := LT);
    ExplorationsStep(C, p, F, I, S);
    if IsInt(Mass(F, [c])) {
      ExplorationsExtend(WithSense(C, p, GE), p + 1, Keep(F, ge), I, S + [ge]);
      ExplorationsExtend(WithSense(C, p, LT), p + 1, Keep(F, lt), I, S + [lt]);
      JoinedInOrder(UpperExplorations(C, p, F, I, S, c), LowerExplorations(C, p, F, I, S, c), S, ge);
    }
  }

  /** Some column of F lies on the given side of the bound. */
  ghost predicate Inhabited(F: seq<Column>, c: Bound, sense: Sense) {
    exists x :: x in F && Satisfies(x, c.(sense := sense))
  }

  ghost predicate NoneTakes(R: seq<Sequence>, n: nat, sense: Sense) {
    forall j :: 0 <= j < |R| ==> n < |R[j]| && R[j][n].sense != sense
  }

  /**
   * Explore skips the lower strip if the recorded side has no mass and some column lies above, and the upper strip if
   * the recorded side has all the mass and some column lies below; if both sums are the same, it skips both.
   */
  lemma PartsSkipped(C: seq<Sequence>, p: nat, F: seq<Column>, I: seq<nat>, S: Sequence, k: nat)
    requires p > 0 && |F| > 0 && |I| > 0 && k < |C| && |C[k]| >= p && forall j :: 0 <= j < k ==> |C[j]| < p
    requires IsInt(Mass(F, [C[k][p - 1]]))
    ensures var c, R := C[k][p - 1], Explorations(C, p, F, I, S);
      && (Mass(F, [c]) <= 0.0 && Inhabited(F, c, GE) ==> NoneTakes(R, |S|, LT))
      && (Mass(F, [c]) == Mass(F, []) && Inhabited(F, c, LT) ==> NoneTakes(R, |S|, GE))
      && (Mass(F, [c]) == Mass(F, []) <= 0.0 && Inhabited(F, c, GE) ==> R == [])
  {
    assert k == FirstLong(C, p);
    var c := C[k][p - 1];
    ExplorationsStep(C, p, F, I, S);
    UpperStripFirst(C, p, F, I, S, k);
    KeepMembers(F, c.(sense := GE));
    KeepMembers(F, c.(sense := LT));
    assert Inhabited(F, c, GE) ==> |Keep(F, c.(sense := GE))| > 0;
    assert Inhabited(F, c, LT) ==> |Keep(F, c.(sense := LT))| > 0;
    PartsInOrder(C, p, F, I, S, c);
  }

  lemma PartsInOrder(C: seq<Sequence>, p: nat, F: seq<Column>, I: seq<nat>, S: Sequence, c: Bound)
    requires p > 0
    ensures NoneTakes(UpperExplorations(C, p, F, I, S, c), |S|, LT)
    ensures NoneTakes(LowerExplorations(C, p, F, I, S, c), |S|, GE)
  {
    var ge, lt := c.(sense := GE), c.(sense := LT);
    ExplorationsExtend(WithSense(C, p, GE), p + 1, Keep(F, ge), I, S + [ge]);
    ExplorationsExtend(WithSense(C, p, LT), p + 1, Keep(F, lt), I, S + [lt]);
    TakesLast(UpperExplorations(C, p, F, I, S, c), S, ge);
    TakesLast(LowerExplorations(C, p, F, I, S, c), S, lt);
  }

  /** The direct records are in the order of the components. */
  lemma {:induction false} DirectInOrder(F: seq<Column>, I: seq<nat>, S: Sequence, i: nat, j: nat)
    returns (x: nat, y: nat)
    requires |F| > 0 && i < j < |Separation.Direct(F, I, S)|
    ensures x < y < |I|
    ensures RecordedFor(F, S, Separation.Direct(F, I, S)[i], I[x])
    ensures RecordedFor(F, S, Separation.Direct(F, I, S)[j], I[y])
  {
    var n := |I| - 1;
    var front := Separation.Direct(F, I[..n], S);
    if j < |front| {
      x, y := DirectInOrder(F, I[..n], S, i, j);
    } else {
      x := DirectAt(F, I[..n], S, i);
      y := n;
    }
  }

  // ---------- fractional masses ----------

  lemma {:induction false} ExploreFractional(B: seq<Column>, C: seq<Sequence>, p: nat, F: seq<Column>, I: seq<nat>,
                                             S: Sequence)
    requires p > 0 && Represents(B, F, S)
    ensures AllFractional(B, Explorations(C, p, F, I, S))
    decreases MaxLength(C) + 1 - p
  {
    var k := FirstLong(C, p);
    if |C| == 0 || |F| == 0 || |I| == 0 || k == |C| {
      SeparateFractional(B, F, I, S);
    } else {
      var c := C[k][p - 1];
      var ge, lt := c.(sense := GE), c.(sense := LT);
      ExplorationsStep(C, p, F, I, S);
      RepresentsPart(B, F, S, c);
      RepresentsPart(B, F, S, ge);
      RepresentsPart(B, F, S, lt);
      ExploreFractional(B, WithSense(C, p, GE), p + 1, Keep(F, ge), I, S + [ge]);
      ExploreFractional(B, WithSense(C, p, LT), p + 1, Keep(F, lt), I, S + [lt]);
      AllFractionalAppend(B, UpperExplorations(C, p, F, I, S, c), LowerExplorations(C, p, F, I, S, c));
    }
  }

  // ---------- when the prefix masses are integral ----------

  /** The side of the first split on which the masses are integral whatever the total is. */
  function FirstSense(C: seq<Sequence>): Sense {
    if FirstLong(C, 1) < |C| then C[FirstLong(C, 1)][0].sense else GE
  }

  /** A sequence that the search may return, and whose prefix masses are integral. */
  predicate Safe(total: real, sense: Sense, S: Sequence) {
    IsInt(total) || |S| == 1 || (|S| > 0 && S[0].sense == sense)
  }

  ghost predicate SafeIffIntegral(B: seq<Column>, R: seq<Sequence>, sense: Sense) {
    forall k :: 0 <= k < |R| ==> (PrefixMassesIntegral(B, R[k]) <==> Safe(Mass(B, []), sense, R[k]))
  }

  lemma SafeAppend(B: seq<Column>, R: seq<Sequence>, Q: seq<Sequence>, sense: Sense)
    requires SafeIffIntegral(B, R, sense) && SafeIffIntegral(B, Q, sense)
    ensures SafeIffIntegral(B, R + Q, sense)
  {
  }

  /** With an integral total all prefix masses are integral. */
  lemma BranchableIsSafe(B: seq<Column>, R: seq<Sequence>, sense: Sense)
    requires AllBranchable(B, R) && IsInt(Mass(B, []))
    ensures SafeIffIntegral(B, R, sense)
  {
    forall k | 0 <= k < |R| ensures PrefixMassesIntegral(B, R[k]) {
      assert Branchable(B, R[k]);
    }
  }

  /** Records below the side with integral mass. */
  lemma IntegralSideSafe(B: seq<Column>, R: seq<Sequence>, b: Bound)
    requires AllBranchable(B, R) && AllExtend(R, [b])
    ensures SafeIffIntegral(B, R, b.sense)
  {
    forall k | 0 <= k < |R| ensures PrefixMassesIntegral(B, R[k]) && R[k][0] == b {
      assert Branchable(B, R[k]);
      assert R[k][0] == R[k][..1][0];
    }
  }

  /** Records below the other side: already the first prefix has fractional mass. */
  lemma FractionalSideUnsafe(B: seq<Column>, R: seq<Sequence>, b: Bound, sense: Sense)
    requires !IsInt(Mass(B, [])) && !IsInt(Mass(B, [b])) && AllExtend(R, [b]) && b.sense != sense
    ensures SafeIffIntegral(B, R, sense)
  {
    forall k | 0 <= k < |R| ensures !PrefixMassesIntegral(B, R[k]) && R[k][0] == b {
      assert R[k][..1] == [b] && R[k][0] == R[k][..1][0];
    }
  }

  /** One bound with integral mass: the two sides of the first split. */
  lemma SidesOfTotal(B: seq<Column>, F: seq<Column>, b: Bound)
    requires Represents(B, F, []) && IsInt(Mass(F, [b]))
    ensures Represents(B, Keep(F, b), [b]) && PrefixesIntegral(B, [b])
    ensures Represents(B, Keep(F, Opposite(b)), [Opposite(b)])
    ensures IsInt(Mass(B, [Opposite(b)])) <==> IsInt(Mass(B, []))
  {
    var none: Sequence := [];
    assert none + [b] == [b] && none + [Opposite(b)] == [Opposite(b)];
    RepresentsPart(B, F, none, b);
    RepresentsPart(B, F, none, Opposite(b));
    MassSplit(B, none, b);
    SplitIntegral(Mass(B, none), Mass(B, [b]), Mass(B, [Opposite(b)]));
  }

  lemma SplitIntegral(total: real, x: real, y: real)
    requires total == x + y && IsInt(x)
    ensures IsInt(y) <==> IsInt(total)
  {
    if IsInt(y) {
      IntClosed(x, y);
    } else if IsInt(total) {
      IntClosed(total, x);
    }
  }

  lemma {:induction false} DirectSafe(B: seq<Column>, F: seq<Column>, I: seq<nat>, sense: Sense)
    requires |F| > 0 && Represents(B, F, [])
    ensures SafeIffIntegral(B, Separation.Direct(F, I, []), sense)
  {
    DirectFractional(B, F, I, []);
  }

  /**
   * Separate at the root: the prefix masses of a recorded sequence are integral exactly if the total is, or the
   * sequence has a single bound, or its first bound is a lower one.
   */
  lemma SeparateExactlySafe(B: seq<Column>, F: seq<Column>, I: seq<nat>)
    requires Represents(B, F, [])
    ensures SafeIffIntegral(B, Separations(F, I, []), GE)
  {
    if IsInt(Mass(B, [])) {
      SeparateSound(B, F, I, []);
      BranchableIsSafe(B, Separations(F, I, []), GE);
    } else if |F| > 0 && |I| > 0 {
      DirectSafe(B, F, I, GE);
      var ch := SplitChoice(F, I);
      if Separation.Direct(F, I, []) == [] && ch.J != [] {
        var b := UpperBound(F, ch.origvar);
        DiscriminatingMembers(F, I);
        AllAlphasIntegral(F, I, [], ch.origvar);
        HalvesSafe(B, F, ch.J, b);
        var none: Sequence := [];
        assert none + [b] == [b] && none + [Opposite(b)] == [Opposite(b)];
        SeparationsOfHalves(F, I, []);
      }
    }
  }

  lemma HalvesSafe(B: seq<Column>, F: seq<Column>, J: seq<nat>, b: Bound)
    requires Represents(B, F, []) && IsInt(Mass(F, [b])) && !IsInt(Mass(B, [])) && b.sense == GE
    ensures SafeIffIntegral(B, Separations(Keep(F, Opposite(b)), J, [Opposite(b)]) +
                               Separations(Keep(F, b), J, [b]), GE)
  {
    var upper, lower := Separations(Keep(F, b), J, [b]), Separations(Keep(F, Opposite(b)), J, [Opposite(b)]);
    SidesOfTotal(B, F, b);
    SeparateSound(B, Keep(F, b), J, [b]);
    SeparationsExtend(Keep(F, b), J, [b]);
    SeparationsExtend(Keep(F, Opposite(b)), J, [Opposite(b)]);
    IntegralSideSafe(B, upper, b);
    FractionalSideUnsafe(B, lower, Opposite(b), GE);
    SafeAppend(B, lower, upper, GE);
  }

  /** Explore: the same, with the sense of the bound that steers the first split. */
  lemma ExploreExactlySafe(B: seq<Column>, C: seq<Sequence>, F: seq<Column>, I: seq<nat>)
    requires Represents(B, F, []) && |C| > 0
    ensures SafeIffIntegral(B, Explorations(C, 1, F, I, []), FirstSense(C))
  {
    var k := FirstLong(C, 1);
    if IsInt(Mass(B, [])) {
      ExploreSound(B, C, 1, F, I, []);
      BranchableIsSafe(B, Explorations(C, 1, F, I, []), FirstSense(C));
    } else if |F| > 0 && |I| > 0 && k < |C| {
      var c := C[k][0];
      ExplorationsStep(C, 1, F, I, []);
      if IsInt(Mass(F, [c])) { SteeredSafe(B, C, F, I, c); }
    } else if k == |C| {
      SeparateExactlySafe(B, F, I);
    }
  }

  lemma SteeredSafe(B: seq<Column>, C: seq<Sequence>, F: seq<Column>, I: seq<nat>, c: Bound)
    requires Represents(B, F, []) && |C| > 0 && FirstLong(C, 1) < |C| && c == C[FirstLong(C, 1)][0]
    requires IsInt(Mass(F, [c])) && !IsInt(Mass(B, []))
    ensures SafeIffIntegral(B, UpperExplorations(C, 1, F, I, [], c) + LowerExplorations(C, 1, F, I, [], c), c.sense)
  {
    SidesOfTotal(B, F, c);
    Sides(c);
    SteeredSideSafe(B, C, F, I, c);
    SteeredOtherSide(B, C, F, I, c);
    SafeAppend(B, UpperExplorations(C, 1, F, I, [], c), LowerExplorations(C, 1, F, I, [], c), c.sense);
  }

  /** The explorations on one side of the first split. */
  function SideExplorations(C: seq<Sequence>, F: seq<Column>, I: seq<nat>, b: Bound): seq<Sequence> {
    Explorations(WithSense(C, 1, b.sense), 2, Keep(F, b), I, [b])
  }

  lemma SideOf(C: seq<Sequence>, F: seq<Column>, I: seq<nat>, c: Bound)
    ensures var upper, lower := UpperExplorations(C, 1, F, I, [], c), LowerExplorations(C, 1, F, I, [], c);
      && (upper == [] || upper == SideExplorations(C, F, I, c.(sense := GE)))
      && (lower == [] || lower == SideExplorations(C, F, I, c.(sense := LT)))
  {
    var none: Sequence := [];
    assert none + [c.(sense := GE)] == [c.(sense := GE)] && none + [c.(sense := LT)] == [c.(sense := LT)];
  }

  lemma SteeredSideSafe(B: seq<Column>, C: seq<Sequence>, F: seq<Column>, I: seq<nat>, c: Bound)
    requires Represents(B, Keep(F, c), [c]) && PrefixesIntegral(B, [c])
    ensures var upper, lower := UpperExplorations(C, 1, F, I, [], c), LowerExplorations(C, 1, F, I, [], c);
      SafeIffIntegral(B, if c.sense == GE then upper else lower, c.sense)
  {
    SideOf(C, F, I, c);
    assert c == c.(sense := c.sense);
    ExploreSound(B, WithSense(C, 1, c.sense), 2, Keep(F, c), I, [c]);
    ExplorationsExtend(WithSense(C, 1, c.sense), 2, Keep(F, c), I, [c]);
    IntegralSideSafe(B, SideExplorations(C, F, I, c), c);
  }

  lemma SteeredOtherSide(B: seq<Column>, C: seq<Sequence>, F: seq<Column>, I: seq<nat>, c: Bound)
    requires !IsInt(Mass(B, [])) && !IsInt(Mass(B, [Opposite(c)]))
    ensures var upper, lower := UpperExplorations(C, 1, F, I, [], c), LowerExplorations(C, 1, F, I, [], c);
      SafeIffIntegral(B, if c.sense == GE then lower else upper, c.sense)
  {
    var d := Opposite(c);
    SideOf(C, F, I, c);
    Sides(c);
    ExplorationsExtend(WithSense(C, 1, d.sense), 2, Keep(F, d), I, [d]);
    FractionalSideUnsafe(B, SideExplorations(C, F, I, d), d, c.sense);
  }

  /**
   * What the creation of children asserts about a sequence that the search returns: its mass is always fractional;
   * its prefix masses are integral exactly if it is safe.
   */
  lemma FoundExactlySafe(C: seq<Sequence>, B: seq<Column>, F: seq<Column>, R: seq<Column>, I: seq<nat>, S: Sequence)
    requires multiset(B) == multiset(F + R) && Integral(R) && S in Found(C, F, I)
    ensures |S| > 0 && !IsInt(Mass(B, S))
    ensures PrefixMassesIntegral(B, S) <==> Safe(Mass(B, []), FirstSense(C), S)
  {
    FractionalPartRepresents(B, F, R);
    if |C| == 0 {
      SeparateFractional(B, F, I, []);
      SeparateExactlySafe(B, F, I);
    } else {
      ExploreFractional(B, C, 1, F, I, []);
      ExploreExactlySafe(B, C, F, I);
    }
    var k :| 0 <= k < |Found(C, F, I)| && Found(C, F, I)[k] == S;
  }
}

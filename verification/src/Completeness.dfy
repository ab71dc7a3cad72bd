/** What the searches record nothing on: every class of columns that agree on the index set has integral total value. */
module Completeness {
  import opened Numbers
  import opened Columns
  import opened Separation
  import opened Search
  import opened RootSearch

  // ---------- classes of columns ----------

  /** The columns agree on every component of I. */
  predicate SameOn(c: Column, d: Column, I: seq<nat>) {
    forall k :: 0 <= k < |I| ==> GeneratorEntry(c, I[k]) == GeneratorEntry(d, I[k])
  }

  /** Total value of the columns of F that agree with c. */
  function ClassMass(F: seq<Column>, I: seq<nat>, c: Column): real {
    if |F| == 0 then 0.0
    else ClassMass(F[..|F| - 1], I, c) + if SameOn(F[|F| - 1], c, I) then F[|F| - 1].value else 0.0
  }

  ghost predicate ClassesIntegral(F: seq<Column>, I: seq<nat>) {
    forall c :: c in F ==> IsInt(ClassMass(F, I, c))
  }

  /** Every class has positive total value, as on positive columns, or where no copies outweigh the other columns. */
  ghost predicate ClassesPositive(F: seq<Column>, I: seq<nat>) {
    forall c :: c in F ==> ClassMass(F, I, c) > 0.0
  }

  lemma FractionalClasses(F: seq<Column>, I: seq<nat>)
    requires Fractional(F)
    ensures ClassesPositive(F, I)
  {
    forall c | c in F ensures ClassMass(F, I, c) > 0.0 { ClassOfPositive(F, I, c); }
  }

  lemma {:induction false} ClassOfPositive(F: seq<Column>, I: seq<nat>, c: Column)
    requires Fractional(F)
    ensures ClassMass(F, I, c) >= 0.0 && (c in F ==> ClassMass(F, I, c) > 0.0)
  {
    if |F| > 0 {
      ClassOfPositive(F[..|F| - 1], I, c);
      assert F == F[..|F| - 1] + [F[|F| - 1]];
    }
  }

  /** The columns of F that do not agree with c. */
  function Others(F: seq<Column>, I: seq<nat>, c: Column): (G: seq<Column>)
    ensures |G| <= |F|
  {
    if |F| == 0 then []
    else Others(F[..|F| - 1], I, c) + if SameOn(F[|F| - 1], c, I) then [] else [F[|F| - 1]]
  }

  lemma {:induction false} OthersMembers(F: seq<Column>, I: seq<nat>, c: Column)
    ensures forall d :: d in Others(F, I, c) <==> d in F && !SameOn(d, c, I)
    ensures c in F ==> |Others(F, I, c)| < |F|
  {
    if |F| > 0 {
      OthersMembers(F[..|F| - 1], I, c);
      assert F == F[..|F| - 1] + [F[|F| - 1]];
    }
  }

  lemma ClassOneMore(F: seq<Column>, d: Column, I: seq<nat>, c: Column)
    ensures ClassMass(F + [d], I, c) == ClassMass(F, I, c) + if SameOn(d, c, I) then d.value else 0.0
  {
    assert (F + [d])[..|F|] == F;
  }

  /** The other classes lose nothing when one class is taken away. */
  lemma {:induction false} ClassOfOthers(F: seq<Column>, I: seq<nat>, c: Column, d: Column)
    requires !SameOn(d, c, I)
    ensures ClassMass(Others(F, I, c), I, d) == ClassMass(F, I, d)
  {
    if |F| > 0 {
      var front, e := F[..|F| - 1], F[|F| - 1];
      ClassOfOthers(front, I, c, d);
      ClassOneMore(Others(front, I, c), e, I, d);
      NoMore(Others(front, I, c));
    }
  }

  /** No class is torn apart by S. */
  ghost predicate Closed(F: seq<Column>, I: seq<nat>, S: Sequence) {
    forall c, d :: c in F && d in F && SameOn(c, d, I) ==> (SatisfiesAll(c, S) <==> SatisfiesAll(d, S))
  }

  lemma {:induction false} MassWithoutClass(F: seq<Column>, I: seq<nat>, S: Sequence, c: Column)
    requires forall d :: d in F && SameOn(d, c, I) ==> (SatisfiesAll(d, S) <==> SatisfiesAll(c, S))
    ensures Mass(F, S) == Mass(Others(F, I, c), S) + if SatisfiesAll(c, S) then ClassMass(F, I, c) else 0.0
  {
    if |F| > 0 {
      var front, d := F[..|F| - 1], F[|F| - 1];
      MassWithoutClass(front, I, S, c);
      MassOneMore(Others(front, I, c), d, S);
      NoMore(Others(front, I, c));
    }
  }

  lemma OthersPositive(F: seq<Column>, I: seq<nat>, S: Sequence, c: Column)
    requires ClassesPositive(F, I) && Closed(F, I, S) && c in F
    ensures ClassesPositive(Others(F, I, c), I) && Closed(Others(F, I, c), I, S) && |Others(F, I, c)| < |F|
  {
    OthersMembers(F, I, c);
    forall d | d in Others(F, I, c) ensures ClassMass(Others(F, I, c), I, d) > 0.0 { ClassOfOthers(F, I, c, d); }
  }

  /** A nonempty union of positive classes has positive mass. */
  lemma {:induction false} UnionPositive(F: seq<Column>, I: seq<nat>, S: Sequence)
    requires ClassesPositive(F, I) && Closed(F, I, S)
    ensures Mass(F, S) >= 0.0
    ensures Mass(F, S) > 0.0 <==> exists c :: c in F && SatisfiesAll(c, S)
    decreases |F|
  {
    if |F| > 0 {
      var c := F[0];
      OthersPositive(F, I, S, c);
      UnionPositive(Others(F, I, c), I, S);
      MassWithoutClass(F, I, S, c);
      OthersMembers(F, I, c);
      assert c in F && ClassMass(F, I, c) > 0.0;
    }
  }

  lemma OthersIntegral(F: seq<Column>, I: seq<nat>, S: Sequence, c: Column)
    requires ClassesIntegral(F, I) && Closed(F, I, S) && c in F
    ensures ClassesIntegral(Others(F, I, c), I) && Closed(Others(F, I, c), I, S) && |Others(F, I, c)| < |F|
  {
    OthersMembers(F, I, c);
    forall d | d in Others(F, I, c) ensures IsInt(ClassMass(Others(F, I, c), I, d)) { ClassOfOthers(F, I, c, d); }
  }

  /** A union of integral classes has integral mass. */
  lemma {:induction false} UnionIntegral(F: seq<Column>, I: seq<nat>, S: Sequence)
    requires ClassesIntegral(F, I) && Closed(F, I, S)
    ensures IsInt(Mass(F, S))
    decreases |F|
  {
    if |F| == 0 {
      IntIsInt(0);
    } else {
      var c := F[0];
      var G := Others(F, I, c);
      OthersIntegral(F, I, S, c);
      UnionIntegral(G, I, S);
      MassWithoutClass(F, I, S, c);
      IntClosed(Mass(G, S), ClassMass(F, I, c));
    }
  }

  // ---------- splitting by a bound ----------

  /** Below b, agreeing on J is what agreeing on I is for the whole of F. */
  ghost predicate Inherits(F: seq<Column>, I: seq<nat>, b: Bound, J: seq<nat>) {
    forall c, d :: c in F && d in F && Satisfies(c, b) ==>
      (SameOn(d, c, I) <==> Satisfies(d, b) && SameOn(d, c, J))
  }

  lemma {:induction false} ClassOfPart(F: seq<Column>, I: seq<nat>, b: Bound, J: seq<nat>, c: Column)
    requires forall d :: d in F ==> (SameOn(d, c, I) <==> Satisfies(d, b) && SameOn(d, c, J))
    ensures ClassMass(Keep(F, b), J, c) == ClassMass(F, I, c)
  {
    if |F| > 0 {
      var front, d := F[..|F| - 1], F[|F| - 1];
      ClassOfPart(front, I, b, J, c);
      ClassOneMore(Keep(front, b), d, J, c);
      NoMore(Keep(front, b));
    }
  }

  /** The classes are integral exactly if they are in both halves, and so for positive ones. */
  lemma HalvesIntegral(F: seq<Column>, I: seq<nat>, b: Bound, J: seq<nat>)
    requires Inherits(F, I, b, J) && Inherits(F, I, Opposite(b), J)
    ensures ClassesIntegral(F, I) <==> ClassesIntegral(Keep(F, b), J) && ClassesIntegral(Keep(F, Opposite(b)), J)
    ensures ClassesPositive(F, I) <==> ClassesPositive(Keep(F, b), J) && ClassesPositive(Keep(F, Opposite(b)), J)
  {
    KeepMembers(F, b);
    KeepMembers(F, Opposite(b));
    forall c | c in Keep(F, b) ensures ClassMass(Keep(F, b), J, c) == ClassMass(F, I, c) {
      ClassOfPart(F, I, b, J, c);
    }
    forall c | c in Keep(F, Opposite(b)) ensures ClassMass(Keep(F, Opposite(b)), J, c) == ClassMass(F, I, c) {
      ClassOfPart(F, I, Opposite(b), J, c);
    }
    forall c | c in F ensures c in Keep(F, b) || c in Keep(F, Opposite(b)) {
    }
  }

  lemma AgreeMembers(F: seq<Column>, i: nat, c: Column, d: Column)
    requires Agree(F, i) && c in F && d in F
    ensures GeneratorEntry(c, i) == GeneratorEntry(d, i)
  {
    var x :| 0 <= x < |F| && F[x] == c;
    var y :| 0 <= y < |F| && F[y] == d;
  }

  lemma SameSide(c: Column, d: Column, I: seq<nat>, b: Bound)
    requires b.component in I && SameOn(d, c, I)
    ensures Satisfies(d, b) <==> Satisfies(c, b)
  {
    var k :| 0 <= k < |I| && I[k] == b.component;
    assert GeneratorEntry(d, I[k]) == GeneratorEntry(c, I[k]);
  }

  lemma OneBound(c: Column, b: Bound)
    ensures SatisfiesAll(c, [b]) <==> Satisfies(c, b)
  {
    if SatisfiesAll(c, [b]) { assert Satisfies(c, [b][0]); }
  }

  lemma CoveredSameSide(F: seq<Column>, I: seq<nat>, b: Bound, c: Column, d: Column)
    requires (b.component in I || Agree(F, b.component)) && c in F && d in F && SameOn(d, c, I)
    ensures Satisfies(d, b) <==> Satisfies(c, b)
  {
    if b.component in I { SameSide(c, d, I, b); } else { AgreeMembers(F, b.component, c, d); }
  }

  lemma CoveredBound(F: seq<Column>, I: seq<nat>, b: Bound)
    requires b.component in I || Agree(F, b.component)
    ensures Closed(F, I, [b]) && Inherits(F, I, b, I)
  {
    forall c, d | c in F && d in F && SameOn(c, d, I) ensures SatisfiesAll(c, [b]) <==> SatisfiesAll(d, [b]) {
      CoveredSameSide(F, I, b, d, c);
      OneBound(c, b);
      OneBound(d, b);
    }
    forall c, d | c in F && d in F && Satisfies(c, b)
      ensures SameOn(d, c, I) <==> Satisfies(d, b) && SameOn(d, c, I)
    {
      if SameOn(d, c, I) { CoveredSameSide(F, I, b, c, d); }
    }
  }

  /** A bound has positive mass exactly if a column satisfies it. */
  lemma PartPositive(F: seq<Column>, I: seq<nat>, b: Bound)
    requires ClassesPositive(F, I) && (b.component in I || Agree(F, b.component))
    ensures Mass(F, [b]) >= 0.0 && (Mass(F, [b]) > 0.0 <==> |Keep(F, b)| > 0)
  {
    CoveredBound(F, I, b);
    UnionPositive(F, I, [b]);
    KeepMembers(F, b);
    if |Keep(F, b)| > 0 {
      var c := Keep(F, b)[0];
      assert c in Keep(F, b);
      OneBound(c, b);
    }
    if c :| c in F && SatisfiesAll(c, [b]) {
      OneBound(c, b);
      assert c in Keep(F, b);
    }
  }

  /** With positive classes, a component discriminates exactly when it is not constant. */
  lemma DiscriminatesIffVaries(F: seq<Column>, I: seq<nat>, i: nat)
    requires |F| > 0 && ClassesPositive(F, I) && i in I
    ensures Discriminates(F, i) <==> !Agree(F, i)
  {
    var b := UpperBound(F, i);
    MedianSplitsColumns(F, i);
    MassOfParts(F, b);
    PartPositive(F, I, b);
    PartPositive(F, I, Opposite(b));
  }

  /** With positive classes the INT_MAX markers of Explore only ever skip an empty part. */
  lemma SkipsNothing(F: seq<Column>, I: seq<nat>, c: Bound)
    requires |F| > 0 && ClassesPositive(F, I) && (c.component in I || Agree(F, c.component))
    ensures SkipsLower(F, c) ==> |Keep(F, c.(sense := LT))| == 0
    ensures SkipsUpper(F, c) ==> |Keep(F, c.(sense := GE))| == 0
  {
    var ge, lt := c.(sense := GE), c.(sense := LT);
    Sides(c);
    MassOfParts(F, ge);
    PartPositive(F, I, ge);
    PartPositive(F, I, lt);
    KeepShares(F, ge);
  }

  /** On F, agreeing on the components that vary is agreeing on all of I. */
  lemma SameOnDiscriminating(F: seq<Column>, I: seq<nat>, c: Column, d: Column)
    requires |F| > 0 && ClassesPositive(F, I) && c in F && d in F
    ensures SameOn(d, c, Discriminating(F, I)) <==> SameOn(d, c, I)
  {
    var J := Discriminating(F, I);
    DiscriminatingMembers(F, I);
    if SameOn(d, c, J) {
      forall k | 0 <= k < |I| ensures GeneratorEntry(d, I[k]) == GeneratorEntry(c, I[k]) {
        DiscriminatesIffVaries(F, I, I[k]);
        if Discriminates(F, I[k]) {
          assert I[k] in J;
          var j :| 0 <= j < |J| && J[j] == I[k];
        } else {
          AgreeMembers(F, I[k], c, d);
        }
      }
    }
    if SameOn(d, c, I) {
      forall j | 0 <= j < |J| ensures GeneratorEntry(d, J[j]) == GeneratorEntry(c, J[j]) {
        assert J[j] in J;
        var k :| 0 <= k < |I| && I[k] == J[j];
      }
    }
  }

  /** A split of Separate, whose halves look at the varying components only. */
  lemma SplitInheritsClasses(F: seq<Column>, I: seq<nat>, b: Bound)
    requires |F| > 0 && ClassesPositive(F, I) && b.component in I
    ensures Inherits(F, I, b, Discriminating(F, I))
  {
    forall c, d | c in F && d in F && Satisfies(c, b)
      ensures SameOn(d, c, I) <==> Satisfies(d, b) && SameOn(d, c, Discriminating(F, I))
    {
      SameOnDiscriminating(F, I, c, d);
      if SameOn(d, c, I) { SameSide(c, d, I, b); }
    }
  }

  /** With integral classes no component has a fractional upper mass. */
  lemma NothingDirect(F: seq<Column>, I: seq<nat>, S: Sequence)
    requires |F| > 0 && ClassesIntegral(F, I)
    ensures Separation.Direct(F, I, S) == []
  {
    forall k | 0 <= k < |I| ensures IsInt(Alpha(F, I[k])) {
      CoveredBound(F, I, UpperBound(F, I[k]));
      UnionIntegral(F, I, [UpperBound(F, I[k])]);
    }
    DirectEmpty(F, I, S);
  }

  // ---------- classes that are integral, whatever the signs ----------

  /** The bounds that only the columns agreeing with c on J satisfy. */
  function Pin(c: Column, J: seq<nat>): Sequence {
    if |J| == 0 then []
    else
      var n := |J| - 1;
      Pin(c, J[..n]) + [Bound(J[n], GE, GeneratorEntry(c, J[n])), Bound(J[n], LT, GeneratorEntry(c, J[n]) + 1)]
  }

  lemma {:induction false} PinMeans(d: Column, c: Column, J: seq<nat>)
    ensures SatisfiesAll(d, Pin(c, J)) <==> SameOn(d, c, J)
    ensures forall k :: 0 <= k < |Pin(c, J)| ==> Pin(c, J)[k].component in J
  {
    if |J| > 0 {
      var n := |J| - 1;
      PinMeans(d, c, J[..n]);
      assert forall j :: j in J[..n] ==> j in J;
      SatisfiesMore(d, Pin(c, J[..n]), Bound(J[n], GE, GeneratorEntry(c, J[n])));
      SatisfiesMore(d, Pin(c, J[..n]) + [Bound(J[n], GE, GeneratorEntry(c, J[n]))],
                    Bound(J[n], LT, GeneratorEntry(c, J[n]) + 1));
      assert Pin(c, J) == (Pin(c, J[..n]) + [Bound(J[n], GE, GeneratorEntry(c, J[n]))]) +
        [Bound(J[n], LT, GeneratorEntry(c, J[n]) + 1)];
      assert SameOn(d, c, J) <==> SameOn(d, c, J[..n]) && GeneratorEntry(d, J[n]) == GeneratorEntry(c, J[n]);
    }
  }

  lemma {:induction false} ClassAsMass(F: seq<Column>, J: seq<nat>, c: Column)
    ensures ClassMass(F, J, c) == Mass(F, Pin(c, J))
  {
    if |F| > 0 {
      ClassAsMass(F[..|F| - 1], J, c);
      PinMeans(F[|F| - 1], c, J);
    }
  }

  lemma BoundsClosed(F: seq<Column>, I: seq<nat>, T: Sequence)
    requires forall k :: 0 <= k < |T| ==> T[k].component in I
    ensures Closed(F, I, T)
  {
    forall c, d, k | c in F && d in F && SameOn(c, d, I) && 0 <= k < |T|
      ensures Satisfies(c, T[k]) <==> Satisfies(d, T[k])
    {
      SameSide(d, c, I, T[k]);
    }
  }

  /** Classes on fewer components, on one side of a bound, are unions of classes. */
  lemma PartIntegral(F: seq<Column>, I: seq<nat>, b: Bound, J: seq<nat>)
    requires ClassesIntegral(F, I) && b.component in I && forall j :: j in J ==> j in I
    ensures ClassesIntegral(Keep(F, b), J)
  {
    forall c | c in Keep(F, b) ensures IsInt(ClassMass(Keep(F, b), J, c)) {
      PinMeans(c, c, J);
      ClassAsMass(Keep(F, b), J, c);
      MassKeep(F, b, Pin(c, J));
      BoundsClosed(F, I, [b] + Pin(c, J));
      UnionIntegral(F, I, [b] + Pin(c, J));
    }
  }

  /** With integral classes Separate records nothing, whatever the signs of the values. */
  lemma {:induction false} NothingSeparated(F: seq<Column>, I: seq<nat>, S: Sequence)
    requires I == [] || ClassesIntegral(F, I)
    ensures Separations(F, I, S) == []
    decreases |F|
  {
    if |F| > 0 && |I| > 0 {
      NothingDirect(F, I, S);
      SeparationsOfHalves(F, I, S);
      var ch := SplitChoice(F, I);
      if ch.J != [] {
        var b := UpperBound(F, ch.origvar);
        DiscriminatingMembers(F, I);
        DiscriminatingShrinks(F, ch.origvar);
        PartIntegral(F, I, b, ch.J);
        PartIntegral(F, I, Opposite(b), ch.J);
        NothingSeparated(Keep(F, b), ch.J, S + [b]);
        NothingSeparated(Keep(F, Opposite(b)), ch.J, S + [Opposite(b)]);
      }
    }
  }

  // ---------- Separate ----------

  lemma {:induction false} WholeClass(F: seq<Column>, I: seq<nat>, c: Column, S: Sequence)
    requires forall d :: d in F ==> SameOn(d, c, I) && SatisfiesAll(d, S)
    ensures ClassMass(F, I, c) == Mass(F, S)
  {
    if |F| > 0 { WholeClass(F[..|F| - 1], I, c, S); }
  }

  /** If no component varies, F is a single class, and its mass is that above any median. */
  lemma OneClass(F: seq<Column>, I: seq<nat>, S: Sequence)
    requires |F| > 0 && |I| > 0 && ClassesPositive(F, I)
    requires Discriminating(F, I) == [] && Separation.Direct(F, I, S) == []
    ensures ClassesIntegral(F, I)
  {
    var b := UpperBound(F, I[0]);
    DirectEmpty(F, I, S);
    DiscriminatingMembers(F, I);
    DiscriminatesIffVaries(F, I, I[0]);
    MedianSplitsColumns(F, I[0]);
    KeepMembers(F, Opposite(b));
    forall c | c in F ensures IsInt(ClassMass(F, I, c)) {
      forall d | d in F ensures SameOn(d, c, I) && SatisfiesAll(d, [b]) {
        SameOnDiscriminating(F, I, c, d);
        assert d !in Keep(F, Opposite(b));
        OneBound(d, b);
      }
      WholeClass(F, I, c, [b]);
    }
  }

  /**
   * On columns whose classes have positive totals, Separate records nothing exactly if there is no component to look
   * at or every class of columns that agree on the index set has integral total value.
   */
  lemma {:induction false} SeparateComplete(F: seq<Column>, I: seq<nat>, S: Sequence)
    requires ClassesPositive(F, I)
    ensures Separations(F, I, S) == [] <==> I == [] || ClassesIntegral(F, I)
    decreases |F|
  {
    if |F| > 0 && |I| > 0 {
      if ClassesIntegral(F, I) { NothingDirect(F, I, S); }
      if Separation.Direct(F, I, S) == [] {
        SeparationsOfHalves(F, I, S);
        if Discriminating(F, I) == [] { OneClass(F, I, S); } else { SeparateHalves(F, I, S); }
      }
    }
  }

  lemma {:induction false} SeparateHalves(F: seq<Column>, I: seq<nat>, S: Sequence)
    requires |F| > 0 && |I| > 0 && ClassesPositive(F, I)
    requires Discriminating(F, I) != [] && Separation.Direct(F, I, S) == []
    ensures Separations(F, I, S) == [] <==> ClassesIntegral(F, I)
    decreases |F|, 0
  {
    var ch := SplitChoice(F, I);
    var b := UpperBound(F, ch.origvar);
    SplitShares(F, I, ch.origvar);
    SeparateComplete(Keep(F, b), ch.J, S + [b]);
    SeparateComplete(Keep(F, Opposite(b)), ch.J, S + [Opposite(b)]);
    SeparationsOfHalves(F, I, S);
  }

  /** The halves are smaller, have positive classes, and integral ones exactly if F has. */
  lemma SplitShares(F: seq<Column>, I: seq<nat>, origvar: nat)
    requires |F| > 0 && ClassesPositive(F, I) && origvar in Discriminating(F, I)
    ensures var b, J := UpperBound(F, origvar), Discriminating(F, I);
      && |Keep(F, b)| < |F| && ClassesPositive(Keep(F, b), J)
      && |Keep(F, Opposite(b))| < |F| && ClassesPositive(Keep(F, Opposite(b)), J)
      && (ClassesIntegral(F, I) <==>
            ClassesIntegral(Keep(F, b), J) && ClassesIntegral(Keep(F, Opposite(b)), J))
  {
    var b := UpperBound(F, origvar);
    DiscriminatingMembers(F, I);
    DiscriminatingShrinks(F, origvar);
    SplitInheritsClasses(F, I, b);
    SplitInheritsClasses(F, I, Opposite(b));
    HalvesIntegral(F, I, b, Discriminating(F, I));
  }

  // ---------- Explore ----------

  /** Every bound of C is on a component that I looks at, or on which all columns agree. */
  ghost predicate Covered(C: seq<Sequence>, F: seq<Column>, I: seq<nat>) {
    forall A: Sequence, q :: A in C && 0 <= q < |A| ==> A[q].component in I || Agree(F, A[q].component)
  }

  lemma AgreeOnPart(F: seq<Column>, b: Bound, i: nat)
    requires Agree(F, i)
    ensures Agree(Keep(F, b), i)
  {
    KeepMembers(F, b);
    var G := Keep(F, b);
    forall k | 0 <= k < |G| ensures GeneratorEntry(G[k], i) == GeneratorEntry(G[0], i) {
      assert G[k] in G && G[0] in G;
      AgreeMembers(F, i, G[k], G[0]);
    }
  }

  lemma {:induction false} WithSenseSubset(C: seq<Sequence>, p: nat, sense: Sense)
    requires p > 0
    ensures forall A :: A in WithSense(C, p, sense) ==> A in C
  {
    if |C| > 0 { WithSenseSubset(C[..|C| - 1], p, sense); }
  }

  lemma CoveredPart(C: seq<Sequence>, p: nat, F: seq<Column>, I: seq<nat>, b: Bound)
    requires p > 0 && Covered(C, F, I)
    ensures Covered(WithSense(C, p, b.sense), Keep(F, b), I)
  {
    WithSenseSubset(C, p, b.sense);
    forall A: Sequence, q | A in WithSense(C, p, b.sense) && 0 <= q < |A|
      ensures A[q].component in I || Agree(Keep(F, b), A[q].component)
    {
      if A[q].component !in I { AgreeOnPart(F, b, A[q].component); }
    }
  }

  /** Explore records nothing in the same cases, whatever collected sequences on those components steer it. */
  lemma {:induction false} ExploreComplete(C: seq<Sequence>, p: nat, F: seq<Column>, I: seq<nat>, S: Sequence)
    requires p > 0 && ClassesPositive(F, I) && Covered(C, F, I)
    ensures Explorations(C, p, F, I, S) == [] <==> I == [] || ClassesIntegral(F, I)
    decreases MaxLength(C) + 1 - p, 1
  {
    var k := FirstLong(C, p);
    if |C| == 0 || |F| == 0 || |I| == 0 || k == |C| {
      SeparateComplete(F, I, S);
    } else {
      var c := C[k][p - 1];
      assert C[k] in C;
      CoveredBound(F, I, c);
      ExplorationsStep(C, p, F, I, S);
      if IsInt(Mass(F, [c])) {
        ExploreHalves(C, p, F, I, S, c);
      } else if ClassesIntegral(F, I) {
        UnionIntegral(F, I, [c]);
      }
    }
  }

  lemma {:induction false} ExploreHalves(C: seq<Sequence>, p: nat, F: seq<Column>, I: seq<nat>, S: Sequence, c: Bound)
    requires 0 < p <= MaxLength(C) && |F| > 0 && |I| > 0 && ClassesPositive(F, I) && Covered(C, F, I)
    requires c.component in I || Agree(F, c.component)
    ensures UpperExplorations(C, p, F, I, S, c) + LowerExplorations(C, p, F, I, S, c) == [] <==> ClassesIntegral(F, I)
    decreases MaxLength(C) + 1 - p, 0
  {
    var ge, lt := c.(sense := GE), c.(sense := LT);
    SkipsNothing(F, I, c);
    CoveredBound(F, I, ge);
    CoveredBound(F, I, lt);
    Sides(c);
    HalvesIntegral(F, I, ge, I);
    CoveredPart(C, p, F, I, ge);
    CoveredPart(C, p, F, I, lt);
    ExploreComplete(WithSense(C, p, GE), p + 1, Keep(F, ge), I, S + [ge]);
    ExploreComplete(WithSense(C, p, LT), p + 1, Keep(F, lt), I, S + [lt]);
  }

  /** The same for Explore. */
  lemma {:induction false} NothingExplored(C: seq<Sequence>, p: nat, F: seq<Column>, I: seq<nat>, S: Sequence)
    requires p > 0 && Covered(C, F, I) && (I == [] || ClassesIntegral(F, I))
    ensures Explorations(C, p, F, I, S) == []
    decreases MaxLength(C) + 1 - p
  {
    var k := FirstLong(C, p);
    if |C| == 0 || |F| == 0 || |I| == 0 || k == |C| {
      NothingSeparated(F, I, S);
    } else {
      var c := C[k][p - 1];
      var ge, lt := c.(sense := GE), c.(sense := LT);
      assert C[k] in C;
      CoveredBound(F, I, c);
      CoveredBound(F, I, ge);
      CoveredBound(F, I, lt);
      UnionIntegral(F, I, [c]);
      Sides(c);
      HalvesIntegral(F, I, ge, I);
      CoveredPart(C, p, F, I, ge);
      CoveredPart(C, p, F, I, lt);
      ExplorationsStep(C, p, F, I, S);
      NothingExplored(WithSense(C, p, GE), p + 1, Keep(F, ge), I, S + [ge]);
      NothingExplored(WithSense(C, p, LT), p + 1, Keep(F, lt), I, S + [lt]);
    }
  }

  // ---------- the search as a whole ----------

  /**
   * At the root and below it: nothing is found if there is no component to look at or all classes are integral, and
   * only then if the classes have positive totals.
   */
  lemma SearchSucceeds(C: seq<Sequence>, F: seq<Column>, I: seq<nat>)
    requires Covered(C, F, I)
    ensures I == [] || ClassesIntegral(F, I) ==> Found(C, F, I) == []
    ensures ClassesPositive(F, I) ==> (Found(C, F, I) == [] <==> I == [] || ClassesIntegral(F, I))
  {
    if I == [] || ClassesIntegral(F, I) {
      NothingSeparated(F, I, []);
      NothingExplored(C, 1, F, I, []);
    }
    if ClassesPositive(F, I) {
      SeparateComplete(F, I, []);
      ExploreComplete(C, 1, F, I, []);
    }
  }

  // ---------- the components that occur in what is found ----------

  ghost predicate IntegerBounds(C: seq<Sequence>, integer: set<nat>) {
    forall A: Sequence, q :: A in C && 0 <= q < |A| ==> A[q].component in integer
  }

  lemma BoundsAppend(C: seq<Sequence>, D: seq<Sequence>, integer: set<nat>)
    requires IntegerBounds(C, integer) && IntegerBounds(D, integer)
    ensures IntegerBounds(C + D, integer)
  {
  }

  lemma ExtendedInteger(S: Sequence, b: Bound, integer: set<nat>)
    requires IntegerBounds([S], integer) && b.component in integer
    ensures IntegerBounds([S + [b]], integer)
  {
    forall q | 0 <= q < |S + [b]| ensures (S + [b])[q].component in integer {
      if q < |S| { assert S in [S] && S[q].component in integer; }
    }
  }

  lemma {:induction false} DirectInteger(F: seq<Column>, I: seq<nat>, S: Sequence, integer: set<nat>)
    requires |F| > 0 && IntegerBounds([S], integer) && forall i :: i in I ==> i in integer
    ensures IntegerBounds(Separation.Direct(F, I, S), integer)
  {
    if |I| > 0 {
      var b := UpperBound(F, I[|I| - 1]);
      DirectInteger(F, I[..|I| - 1], S, integer);
      ExtendedInteger(S, b, integer);
      BoundsAppend(Separation.Direct(F, I[..|I| - 1], S), [S + [b]], integer);
      BoundsAppend(Separation.Direct(F, I[..|I| - 1], S), [], integer);
    }
  }

  lemma {:induction false} SeparationsInteger(F: seq<Column>, I: seq<nat>, S: Sequence, integer: set<nat>)
    requires IntegerBounds([S], integer) && forall i :: i in I ==> i in integer
    ensures IntegerBounds(Separations(F, I, S), integer)
    decreases |F|
  {
    if |F| > 0 && |I| > 0 {
      DirectInteger(F, I, S, integer);
      if Separation.Direct(F, I, S) == [] {
        var ch := SplitChoice(F, I);
        SeparationsOfHalves(F, I, S);
        if ch.J != [] {
          var b := UpperBound(F, ch.origvar);
          DiscriminatingMembers(F, I);
          DiscriminatingShrinks(F, ch.origvar);
          ExtendedInteger(S, b, integer);
          ExtendedInteger(S, Opposite(b), integer);
          SeparationsInteger(Keep(F, b), ch.J, S + [b], integer);
          SeparationsInteger(Keep(F, Opposite(b)), ch.J, S + [Opposite(b)], integer);
          BoundsAppend(Separations(Keep(F, Opposite(b)), ch.J, S + [Opposite(b)]),
                       Separations(Keep(F, b), ch.J, S + [b]), integer);
        }
      }
    }
  }

  lemma {:induction false} ExplorationsInteger(C: seq<Sequence>, p: nat, F: seq<Column>, I: seq<nat>, S: Sequence,
                                               integer: set<nat>)
    requires p > 0 && IntegerBounds(C, integer) && IntegerBounds([S], integer) && forall i :: i in I ==> i in integer
    ensures IntegerBounds(Explorations(C, p, F, I, S), integer)
    decreases MaxLength(C) + 1 - p, 1
  {
    var k := FirstLong(C, p);
    if |C| == 0 || |F| == 0 || |I| == 0 || k == |C| {
      SeparationsInteger(F, I, S, integer);
    } else {
      var c := C[k][p - 1];
      assert C[k] in C;
      ExplorationsStep(C, p, F, I, S);
      ExtendedInteger(S, c, integer);
      PartInteger(C, p, F, I, S, c.(sense := GE), integer);
      PartInteger(C, p, F, I, S, c.(sense := LT), integer);
      BoundsAppend(UpperExplorations(C, p, F, I, S, c), LowerExplorations(C, p, F, I, S, c), integer);
    }
  }

  /** One of the two parts of Explore. */
  lemma {:induction false} PartInteger(C: seq<Sequence>, p: nat, F: seq<Column>, I: seq<nat>, S: Sequence, b: Bound,
                                       integer: set<nat>)
    requires 0 < p <= MaxLength(C) && b.component in integer
    requires IntegerBounds(C, integer) && IntegerBounds([S], integer) && forall i :: i in I ==> i in integer
    ensures IntegerBounds(Explorations(WithSense(C, p, b.sense), p + 1, Keep(F, b), I, S + [b]), integer)
    decreases MaxLength(C) + 1 - p, 0
  {
    ExtendedInteger(S, b, integer);
    WithSenseSubset(C, p, b.sense);
    ExplorationsInteger(WithSense(C, p, b.sense), p + 1, Keep(F, b), I, S + [b], integer);
  }

  lemma FoundInteger(C: seq<Sequence>, F: seq<Column>, I: seq<nat>, integer: set<nat>)
    requires IntegerBounds(C, integer) && forall i :: i in I ==> i in integer
    ensures IntegerBounds(Found(C, F, I), integer)
  {
    var none: Sequence := [];
    assert IntegerBounds([none], integer);
    SeparationsInteger(F, I, none, integer);
    ExplorationsInteger(C, 1, F, I, none, integer);
  }

  /** Columns that differ pairwise on the index set are classes of their own: then something is recorded. */
  lemma DistinctClasses(F: seq<Column>, I: seq<nat>)
    requires Fractional(F) && Distinct(F, I) && |F| > 0
    ensures !ClassesIntegral(F, I)
  {
    var n := |F| - 1;
    forall d | d in F[..n] ensures !SameOn(d, F[n], I) {
      var x :| 0 <= x < n && F[x] == d;
      assert Differ(F[x], F[n], I);
    }
    NoneSame(F[..n], I, F[n]);
    assert F[n] in F && ClassMass(F, I, F[n]) == F[n].value;
  }

  lemma {:induction false} NoneSame(F: seq<Column>, I: seq<nat>, c: Column)
    requires forall d :: d in F ==> !SameOn(d, c, I)
    ensures ClassMass(F, I, c) == 0.0
  {
    if |F| > 0 { NoneSame(F[..|F| - 1], I, c); }
  }
}

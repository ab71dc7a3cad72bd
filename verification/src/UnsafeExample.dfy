/**
 * An LP solution of a problem with a continuous variable, from which the branching rule creates children that all
 * reject an integer solution.
 */
module UnsafeExample {
  import opened Numbers
  import opened Columns
  import opened Median
  import opened Separation
  import opened Search
  import opened Children
  import opened RootSearch
  import opened Exhaustiveness
  import opened BranchTree
  import opened BlockSelection
  import opened GenericBranching
  import opened BranchExamples
  import Completeness

  /**
   * Variable 0 is an integer variable of block 0, variable 1 links blocks 0 and 1, a third one is continuous and zero.
   * Each block has a single convexity constraint; the columns of either block and the copy agree on variable 1.
   */
  const LEFT := Column(0, 0, {}, [Entry(0, -1)], 0.5)
  const RIGHT := Column(1, 0, {}, [Entry(1, 1)], 0.5)
  const COPY := Column(2, -1, {0, 1}, [Entry(1, 1)], 0.5)
  const OTHER_ONE := Column(3, 1, {}, [Entry(1, 1)], 0.5)
  const OTHER_ZERO := Column(4, 1, {}, [], 0.5)

  const X0 := OrigVar(true, 0, -0.5)
  const X1 := OrigVar(true, -2, 0.5)
  const X2 := OrigVar(false, 0, 0.0)

  const LOWER := Bound(1, LT, 1)
  const UPPER := Bound(1, GE, 1)
  const FIRST := Bound(0, GE, -1)
  const SECOND := Bound(1, GE, 0)

  function Block(): seq<Column> {
    [LEFT, RIGHT, COPY]
  }

  function AllColumns(): seq<Column> {
    [LEFT, RIGHT, COPY, OTHER_ONE, OTHER_ZERO]
  }

  function Rel(): Relaxation {
    Relaxation(AllColumns(), [], [X0, X1, X2], [0, 1], true, 2, {0, 1})
  }

  lemma Entries()
    ensures GeneratorEntry(LEFT, 0) == -1 && GeneratorEntry(LEFT, 1) == 0
    ensures GeneratorEntry(RIGHT, 0) == 0 && GeneratorEntry(RIGHT, 1) == 1
    ensures GeneratorEntry(COPY, 0) == 0 && GeneratorEntry(COPY, 1) == 1
  {
    assert [Entry(0, -1)][1..] == [] && [Entry(1, 1)][1..] == [];
  }

  // ---------- the block ----------

  lemma FractionalMore(F: seq<Column>, c: Column, block: nat)
    ensures FractionalColumns(F + [c], block) == FractionalColumns(F, block) + if IsCandidate(c, block) then [c] else []
  {
    assert (F + [c])[..|F|] == F;
  }

  lemma Grow()
    ensures Block() + [OTHER_ONE] + [OTHER_ZERO] == AllColumns()
    ensures [LEFT] + [RIGHT] == [LEFT, RIGHT] && [LEFT, RIGHT] + [COPY] == Block()
  {
  }

  lemma BlockZero()
    ensures BlockColumns(AllColumns(), 0) == Block() && OwnColumns(AllColumns(), 0) == [LEFT, RIGHT]
  {
    BlockOfThree(LEFT, RIGHT, COPY, 0);
    BlockMore(Block(), OTHER_ONE, 0);
    BlockMore(Block() + [OTHER_ONE], OTHER_ZERO, 0);
    Grow();
  }

  lemma CandidatesZero()
    ensures FractionalColumns(AllColumns(), 0) == Block()
  {
    var none: seq<Column> := [];
    HalfIsFractional();
    FractionalMore(none, LEFT, 0);
    FractionalMore([LEFT], RIGHT, 0);
    FractionalMore([LEFT, RIGHT], COPY, 0);
    FractionalMore(Block(), OTHER_ONE, 0);
    FractionalMore(Block() + [OTHER_ONE], OTHER_ZERO, 0);
    Grow();
    assert none + [LEFT] == [LEFT];
  }

  lemma OwnOne()
    ensures OwnColumns(AllColumns(), 1) == [OTHER_ONE, OTHER_ZERO]
  {
    var none: seq<Column> := [];
    BlockMore(none, LEFT, 1);
    BlockMore([LEFT], RIGHT, 1);
    BlockMore([LEFT, RIGHT], COPY, 1);
    BlockMore(Block(), OTHER_ONE, 1);
    BlockMore(Block() + [OTHER_ONE], OTHER_ZERO, 1);
    Grow();
    assert none + [LEFT] == [LEFT] && none + [OTHER_ONE] + [OTHER_ZERO] == [OTHER_ONE, OTHER_ZERO];
  }

  lemma OwnMasses()
    ensures Mass(OwnColumns(AllColumns(), 0), []) == 1.0 && Mass(OwnColumns(AllColumns(), 1), []) == 1.0
  {
    BlockZero();
    OwnOne();
    MassOfTwo(LEFT, RIGHT, []);
    MassOfTwo(OTHER_ONE, OTHER_ZERO, []);
  }

  lemma AllProper()
    ensures forall k :: 0 <= k < |AllColumns()| ==> ProperColumn(AllColumns()[k])
  {
    forall k | 0 <= k < |AllColumns()| ensures ProperColumn(AllColumns()[k]) {
      assert |AllColumns()[k].entries| <= 1;
    }
  }

  lemma OnlyBlockZero(v: OrigVar, b: nat)
    requires v in Rel().origvars && PointsTo(v, Rel().representative, b)
    ensures b == 0
  {
    assert v == X0 || v == X1 || v == X2;
  }

  lemma RelIsSound(K: nat -> int)
    requires K(0) == 1 && K(1) == 1
    ensures Sound(Rel(), K)
  {
    OwnMasses();
    AllProper();
    CandidatesZero();
    forall b: nat | b < 2 ensures Mass(OwnColumns(AllColumns(), b), []) == K(b) as real {
      assert b == 0 || b == 1;
    }
    forall v, b: nat | v in Rel().origvars && PointsTo(v, Rel().representative, b) ensures b == 0 {
      OnlyBlockZero(v, b);
    }
  }

  // ---------- the search ----------

  lemma UpperBounds()
    ensures UpperBound(Block(), 0) == Bound(0, GE, 0) && UpperBound(Block(), 1) == UPPER
  {
    Entries();
    NeighbourMedian(Block(), 0, 0, 1, -1);
    NeighbourMedian(Block(), 1, 0, 1, 0);
  }

  lemma Masses()
    ensures Mass(Block(), [Bound(0, GE, 0)]) == 1.0 && Mass(Block(), [UPPER]) == 1.0 && Mass(Block(), []) == 1.5
  {
    var b := Bound(0, GE, 0);
    Entries();
    MassOfThree(LEFT, RIGHT, COPY, [b]);
    MassOfThree(LEFT, RIGHT, COPY, [UPPER]);
    MassOfThree(LEFT, RIGHT, COPY, []);
    assert !Satisfies(LEFT, [b][0]) && !Satisfies(LEFT, [UPPER][0]);
    assert Satisfies(RIGHT, b) && Satisfies(COPY, b) && Satisfies(RIGHT, UPPER) && Satisfies(COPY, UPPER);
  }

  lemma AlphasOfBlock()
    ensures Alpha(Block(), 0) == 1.0 && Alpha(Block(), 1) == 1.0
  {
    UpperBounds();
    Masses();
  }

  lemma OneMoreDiscriminates(F: seq<Column>, I: seq<nat>, i: nat)
    requires |F| > 0 && IsInt(Alpha(F, i)) && Discriminates(F, i)
    ensures Separation.Direct(F, I + [i], []) == Separation.Direct(F, I, [])
    ensures Discriminating(F, I + [i]) == Discriminating(F, I) + [i]
  {
    assert (I + [i])[..|I|] == I;
  }

  lemma NothingDirectInBlock()
    ensures Separation.Direct(Block(), [0, 1], []) == [] && Discriminating(Block(), [0, 1]) == [0, 1]
  {
    var none: seq<nat> := [];
    AlphasOfBlock();
    Masses();
    OneMoreDiscriminates(Block(), none, 0);
    OneMoreDiscriminates(Block(), none + [0], 1);
    assert none + [0] + [1] == [0, 1];
  }

  lemma Priorities()
    ensures Priority(Block(), 0) == 0 && Priority(Block(), 1) == 1
  {
    Entries();
    var r, s := RoundedValues(Block(), 0), RoundedValues(Block(), 1);
    assert r == [0, 0, 0] && s == [0, 1, 1];
    assert MaxOf(r) in r && MinOf(r) in r && r[0] in r;
    assert MaxOf(s) in s && MinOf(s) in s && s[0] in s && s[1] in s;
  }

  lemma SplitsOnLinkingVariable()
    ensures SplitChoice(Block(), [0, 1]) == Choice([0, 1], 1)
  {
    NothingDirectInBlock();
    FirstOfTwo();
    DiscriminatingMembers(Block(), [0, 1]);
    PartitionKeepsAll(Block(), [0, 1], 1);
  }

  lemma FirstOfTwo()
    ensures FirstMax(Block(), [0, 1]) == 1
  {
    Priorities();
    SecondIsGreater(Block(), 0, 1, Priority(Block(), 0), Priority(Block(), 1));
  }

  lemma SecondIsGreater(F: seq<Column>, i: nat, j: nat, first: int, second: int)
    requires |F| > 0 && first == Priority(F, i) && second == Priority(F, j) && first < second
    ensures FirstMax(F, [i, j]) == 1
  {
    var J: seq<nat> := [i, j];
    assert J[..1] == [i];
  }

  lemma Halves()
    ensures Keep(Block(), LOWER) == [LEFT] && Keep(Block(), UPPER) == [RIGHT, COPY]
  {
    var none: seq<Column> := [];
    Entries();
    KeepMore(none, LEFT, LOWER);
    KeepMore([LEFT], RIGHT, LOWER);
    KeepMore([LEFT, RIGHT], COPY, LOWER);
    KeepMore(none, LEFT, UPPER);
    KeepMore([LEFT], RIGHT, UPPER);
    KeepMore([LEFT, RIGHT], COPY, UPPER);
    Grow();
    assert none + [LEFT] == [LEFT] && none + [RIGHT] == [RIGHT] && [RIGHT] + [COPY] == [RIGHT, COPY];
  }

  /** The lower half is a single column: both its masses are fractional, and both bounds are recorded. */
  lemma LowerHalf()
    ensures Separations([LEFT], [0, 1], [LOWER]) == [[LOWER, FIRST], [LOWER, SECOND]]
  {
    var I: seq<nat>, S := [0, 1], [LOWER];
    Entries();
    HalfIsFractional();
    ConstantMedian([LEFT], 0, -1);
    ConstantMedian([LEFT], 1, 0);
    MassOfOne(LEFT, [FIRST]);
    MassOfOne(LEFT, [SECOND]);
    assert I[..1] == [0] && [0][..0] == [];
    assert S + [FIRST] == [LOWER, FIRST] && S + [SECOND] == [LOWER, SECOND];
    assert Separation.Direct([LEFT], [0], S) == [[LOWER, FIRST]];
    assert Separation.Direct([LEFT], I, S) == [[LOWER, FIRST], [LOWER, SECOND]];
  }

  /** The upper half does not vary and has mass one: nothing is recorded. */
  lemma UpperHalf()
    ensures Separations([RIGHT, COPY], [0, 1], [UPPER]) == []
  {
    var F, I: seq<nat> := [RIGHT, COPY], [0, 1];
    Entries();
    HalfIsFractional();
    forall c | c in F ensures IsInt(Completeness.ClassMass(F, I, c)) {
      assert Completeness.SameOn(RIGHT, c, I) && Completeness.SameOn(COPY, c, I);
      assert F[..1] == [RIGHT] && [RIGHT][..0] == [];
      assert Completeness.ClassMass([RIGHT], I, c) == 0.5;
    }
    Completeness.NothingSeparated(F, I, [UPPER]);
  }

  lemma HalvesOfBlock()
    ensures Separations(Block(), [0, 1], []) ==
      Separations([LEFT], [0, 1], [LOWER]) + Separations([RIGHT, COPY], [0, 1], [UPPER])
  {
    var none: Sequence := [];
    UpperBounds();
    NothingDirectInBlock();
    SplitsOnLinkingVariable();
    Halves();
    assert none + [LOWER] == [LOWER] && none + [UPPER] == [UPPER];
    SeparationsOfHalves(Block(), [0, 1], none);
  }

  lemma FoundInBlock()
    ensures Found([], Block(), [0, 1]) == [[LOWER, FIRST], [LOWER, SECOND]]
  {
    HalvesOfBlock();
    LowerHalf();
    UpperHalf();
  }

  lemma IndexSetOfBlock()
    ensures IndexSet(Block(), {0, 1}) == [0, 1]
  {
    var none: seq<Column> := [];
    OneEntryMore(none, LEFT);
    OneEntryMore([LEFT], RIGHT);
    OneEntryMore([LEFT, RIGHT], COPY);
    Grow();
    assert none + [LEFT] == [LEFT];
  }

  lemma OneEntryMore(F: seq<Column>, c: Column)
    requires |c.entries| == 1
    ensures var I, v := IndexSet(F, {0, 1}), c.entries[0].origvar;
      IndexSet(F + [c], {0, 1}) == if v in {0, 1} && v !in I then I + [v] else I
  {
    assert (F + [c])[..|F|] == F && c.entries[..0] == [];
    assert Merged(IndexSet(F, {0, 1}), c.entries[..0], {0, 1}) == IndexSet(F, {0, 1});
    assert Merged(IndexSet(F, {0, 1}), c.entries, {0, 1}) == IndexSet(F + [c], {0, 1});
  }

  /** The selection ends in block 0, and the search finds two sequences there. */
  lemma SelectedBlock()
    ensures Final(Rel(), [], []) == InBlockNr(0)
    ensures Rel().FoundIn([], 0) == [[LOWER, FIRST], [LOWER, SECOND]]
  {
    FoundInRel();
    FirstVariableDecides();
  }

  lemma FoundInRel()
    ensures Rel().FoundIn([], 0) == [[LOWER, FIRST], [LOWER, SECOND]]
  {
    CandidatesZero();
    IndexSetOfBlock();
    FoundInBlock();
  }

  lemma FirstVariableDecides()
    ensures Rel().Select([]) == InBlockNr(0)
  {
    FloorUnique(-0.5, -1);
    assert Rel().origvars[0] == X0 && IsFractionalInteger(X0);
  }

  // ---------- the children ----------

  lemma Levels()
    ensures ChildLhs(Block(), 1, [LOWER, FIRST], 0) == 1.5
    ensures ChildLhs(Block(), 1, [LOWER, FIRST], 1) == 0.5
    ensures ChildLhs(Block(), 1, [LOWER, FIRST], 2) == 1.0
  {
    var S := [LOWER, FIRST];
    HalfIsFractional();
    Entries();
    assert S[..1] == [LOWER];
    MassOfThree(LEFT, RIGHT, COPY, [LOWER]);
    MassOfThree(LEFT, RIGHT, COPY, S);
    assert !Satisfies(RIGHT, [LOWER][0]) && !Satisfies(COPY, [LOWER][0]) && Satisfies(LEFT, LOWER);
    assert !Satisfies(RIGHT, S[0]) && !Satisfies(COPY, S[0]);
    assert Satisfies(LEFT, S[0]) && Satisfies(LEFT, S[1]);
    assert Mass(Block(), [LOWER]) == 0.5 && Mass(Block(), S) == 0.5;
  }

  /** The prefix of the sequence has mass one half: the assertion on it fails. */
  lemma UnsafeSplitArises(K: nat -> int)
    requires K(0) == 1 && K(1) == 1
    ensures Sound(Rel(), K) && Final(Rel(), [], []) == InBlockNr(0) && FirstShortest(Rel().FoundIn([], 0), 0)
    ensures Rel().FoundIn([], 0)[0] == [LOWER, FIRST] && Mass(BlockColumns(AllColumns(), 0), [LOWER]) == 0.5
  {
    RelIsSound(K);
    SelectedBlock();
    FirstOfSameLength(Rel().FoundIn([], 0));
    BlockZero();
    PrefixMass();
  }

  lemma FirstOfSameLength(R: seq<Sequence>)
    requires |R| == 2 && |R[0]| == |R[1]|
    ensures FirstShortest(R, 0)
  {
  }

  lemma PrefixMass()
    ensures Mass(Block(), [LOWER]) == 0.5
  {
    Entries();
    MassOfThree(LEFT, RIGHT, COPY, [LOWER]);
    assert !Satisfies(RIGHT, [LOWER][0]) && !Satisfies(COPY, [LOWER][0]) && Satisfies(LEFT, LOWER);
  }

  const WHOLE_RIGHT := RIGHT.(value := 1.0)
  const WHOLE_COPY := COPY.(value := 1.0)
  const WHOLE_ONE := OTHER_ONE.(value := 1.0)

  /** All variables 1 are one, all variables 0 are zero: the integer solution. */
  function IntegerPoint(): seq<Column> {
    [WHOLE_RIGHT, WHOLE_COPY, WHOLE_ONE]
  }

  lemma OwnOfPoint()
    ensures OwnColumns(IntegerPoint(), 0) == [WHOLE_RIGHT] && OwnColumns(IntegerPoint(), 1) == [WHOLE_ONE]
  {
    var none: seq<Column> := [];
    BlockMore(none, WHOLE_RIGHT, 0);
    BlockMore([WHOLE_RIGHT], WHOLE_COPY, 0);
    BlockMore([WHOLE_RIGHT, WHOLE_COPY], WHOLE_ONE, 0);
    BlockMore(none, WHOLE_RIGHT, 1);
    BlockMore([WHOLE_RIGHT], WHOLE_COPY, 1);
    BlockMore([WHOLE_RIGHT, WHOLE_COPY], WHOLE_ONE, 1);
    assert none + [WHOLE_RIGHT] == [WHOLE_RIGHT] && none + [WHOLE_ONE] == [WHOLE_ONE];
    assert [WHOLE_RIGHT] + [WHOLE_COPY] == [WHOLE_RIGHT, WHOLE_COPY];
    assert [WHOLE_RIGHT, WHOLE_COPY] + [WHOLE_ONE] == IntegerPoint();
  }

  lemma PointIsInteger()
    ensures Integral(IntegerPoint())
    ensures Mass(OwnColumns(IntegerPoint(), 0), []) == 1.0 && Mass(OwnColumns(IntegerPoint(), 1), []) == 1.0
  {
    HalfIsFractional();
    OwnOfPoint();
    MassOfOne(WHOLE_RIGHT, []);
    MassOfOne(WHOLE_ONE, []);
  }

  /** The priced column of the point is in the part of the first child, whose left-hand side exceeds it. */
  lemma PointRejected(p: nat)
    requires p <= 2
    ensures Mass(OwnColumns(IntegerPoint(), 0), ChildSequence([LOWER, FIRST], p)) <
            ChildLhs(Block(), 1, [LOWER, FIRST], p)
  {
    var T := ChildSequence([LOWER, FIRST], p);
    OwnOfPoint();
    Levels();
    assert [Entry(1, 1)][1..] == [] && GeneratorEntry(WHOLE_RIGHT, 1) == 1;
    assert T[0] == if p == 0 then UPPER else LOWER;
    MassOfOne(WHOLE_RIGHT, T);
  }

  /** The branching rule creates three children here, and none of them takes the integer solution. */
  method UnsafeSplitExample(K: nat -> int) returns (o: Outcome)
    requires K(0) == 1 && K(1) == 1
    ensures o.Split? && o.block == 0 && |o.children| == 3
    ensures forall p :: 0 <= p < 3 ==>
      Mass(OwnColumns(IntegerPoint(), 0), o.children[p].consS) < o.children[p].lhs
  {
    RelIsSound(K);
    SelectedBlock();
    o := InitBranch(Rel(), [], K, []);
    BlockZero();
    var R := Rel().FoundIn([], 0);
    ghost var k :| FirstShortest(R, k) &&
      SplitInto(o.children, Situation(AllColumns(), AllColumns(), 0, {0, 1}, R[k]), [], K);
    assert k == 0 by { assert |R[0]| == 2 && |R[1]| == 2; }
    ChildrenOfUnsafe(o.children, K);
  }

  lemma ChildrenOfUnsafe(children: seq<Child>, K: nat -> int)
    requires K(0) == 1 && SplitInto(children, Situation(AllColumns(), AllColumns(), 0, {0, 1}, [LOWER, FIRST]), [], K)
    ensures |children| == 3
    ensures forall p :: 0 <= p < 3 ==> Mass(OwnColumns(IntegerPoint(), 0), children[p].consS) < children[p].lhs
  {
    BlockZero();
    forall p | 0 <= p < 3 ensures Mass(OwnColumns(IntegerPoint(), 0), children[p].consS) < children[p].lhs {
      PointRejected(p);
    }
  }
}

/** Inputs on which block selection ends in an error, outside the table of blocks, in a loop, or at a linking copy. */
module SelectionExamples {
  import opened Numbers
  import opened Columns
  import opened Median
  import opened Separation
  import opened Search
  import opened RootSearch
  import opened Completeness
  import opened BranchTree
  import opened BlockSelection
  import opened GenericBranching
  import opened BranchExamples
  import opened InducedOrder
  import opened Exhaustiveness
  import opened Disaggregation
  import opened OriginalSolution
  import UnsafeExample

  // ---------- an error ----------

  /** Two columns of a block that differ in variable 0 only, whose type is implicit integer. */
  const IMPLICIT_ONE := Column(0, 0, {}, [Entry(0, 1)], 0.5)
  const IMPLICIT_ZERO := Column(1, 0, {}, [], 0.5)

  function FailedInput(): Relaxation {
    Relaxation([IMPLICIT_ONE, IMPLICIT_ZERO], [IMPLICIT_ONE, IMPLICIT_ZERO], [], [0], false, 1, {})
  }

  lemma {:induction false} NothingMerged(given: seq<nat>, entries: seq<Entry>)
    ensures Merged(given, entries, {}) == given
  {
    if |entries| > 0 { NothingMerged(given, entries[..|entries| - 1]); }
  }

  lemma {:induction false} NoIntegerNoIndex(F: seq<Column>)
    ensures IndexSet(F, {}) == []
  {
    if |F| > 0 {
      NoIntegerNoIndex(F[..|F| - 1]);
      NothingMerged([], F[|F| - 1].entries);
    }
  }

  lemma OwnImplicit()
    ensures OwnColumns([IMPLICIT_ONE, IMPLICIT_ZERO], 0) == [IMPLICIT_ONE, IMPLICIT_ZERO]
  {
    var none: seq<Column> := [];
    OwnOfTwo(none, IMPLICIT_ONE, IMPLICIT_ZERO, 0);
    assert none + [IMPLICIT_ONE] + [IMPLICIT_ZERO] == [IMPLICIT_ONE, IMPLICIT_ZERO];
  }

  lemma FailedIsSound(K: nat -> int)
    requires K(0) == 1
    ensures Sound(FailedInput(), K)
  {
    OwnImplicit();
    MassOfTwo(IMPLICIT_ONE, IMPLICIT_ZERO, []);
    HalfIsFractional();
    forall k | 0 <= k < 2 ensures ProperColumn([IMPLICIT_ONE, IMPLICIT_ZERO][k]) {
      assert |[IMPLICIT_ONE, IMPLICIT_ZERO][k].entries| <= 1;
    }
  }

  /** The index set is empty, and the procedure returns an error. */
  method FailedExample(K: nat -> int) returns (o: Outcome)
    requires K(0) == 1
    ensures o.Failed? && IndexSet(FailedInput().BlockCandidates(0), {}) == [] && |FailedInput().BlockCandidates(0)| > 0
  {
    FailedIsSound(K);
    var rel := FailedInput();
    FinalFromCandidates(rel, [], []);
    NoIntegerNoIndex(rel.BlockCandidates(0));
    FractionalMember(rel.branchcands, 0, IMPLICIT_ONE);
    HalfIsFractional();
    assert rel.FoundIn([], 0) == [] by { FoundIffClassFractional(rel, [], 0); }
    o := InitBranch(rel, [], K, []);
  }

  // ---------- a linking copy ----------

  const HALF_COPY := Column(0, -1, {0, 1}, [Entry(0, 1)], 0.5)

  /** A fractional copy of a linking variable is branched on directly, against the assertion. */
  lemma LinkingCopySelected(rel: Relaxation, path: Path)
    requires !rel.continuous && |rel.branchcands| > 0 && rel.branchcands[0] == HALF_COPY
    ensures Final(rel, path, []) == DirectCopy(HALF_COPY) && HALF_COPY.linkingBlocks != {}
  {
    FirstCopySelected(rel.branchcands, [], rel.nblocks, 0);
    assert 0 in HALF_COPY.linkingBlocks;
  }

  // ---------- outside the table ----------

  /** The relaxation of UnsafeExample, with the linking variable listed before the one of block 0. */
  function OutsideInput(): Relaxation {
    UnsafeExample.Rel().(origvars := [UnsafeExample.X1, UnsafeExample.X0, UnsafeExample.X2])
  }

  method OutsideExample(K: nat -> int) returns (o: Outcome)
    requires K(0) == 1 && K(1) == 1
    ensures o.OutsideBlocks?
  {
    var rel := OutsideInput();
    UnsafeExample.RelIsSound(K);
    HalfIsFractional();
    forall v, b: nat | v in rel.origvars && PointsTo(v, rel.representative, b)
      ensures v in UnsafeExample.Rel().origvars
    {
      assert v == UnsafeExample.X0 || v == UnsafeExample.X1 || v == UnsafeExample.X2;
    }
    assert rel.origvars[0] == UnsafeExample.X1 && IsFractionalInteger(UnsafeExample.X1);
    assert Final(rel, [], []) == OutOfRange;
    o := InitBranch(rel, [], K, []);
  }

  // ---------- calls without end ----------

  /**
   * Variable 0 is continuous and links blocks 0 and 1, variable 1 is an integer variable of block 0. The values of the
   * original variables are those that the columns give them: -1/2 for both.
   */
  const BELOW_BOTH := Column(0, 0, {}, [Entry(0, -1), Entry(1, -1)], 0.5)
  const ZERO_BOTH := Column(1, 0, {}, [], 0.5)
  const NEGATIVE_COPY := Column(2, -1, {0, 1}, [Entry(0, 1)], -0.5)
  const BELOW_LINK := Column(3, 1, {}, [Entry(0, -1)], 0.5)
  const ZERO_LINK := Column(4, 1, {}, [], 0.5)

  const Y0 := OrigVar(false, -2, -0.5)
  const Y1 := OrigVar(true, 0, -0.5)

  function First(): seq<Column> {
    [BELOW_BOTH, ZERO_BOTH, NEGATIVE_COPY]
  }

  function All(): seq<Column> {
    [BELOW_BOTH, ZERO_BOTH, NEGATIVE_COPY, BELOW_LINK, ZERO_LINK]
  }

  function EndlessInput(): Relaxation {
    Relaxation(All(), [], [Y0, Y1], [0, 1], true, 2, {1})
  }

  lemma EndlessEntries()
    ensures GeneratorEntry(BELOW_BOTH, 1) == -1 && GeneratorEntry(ZERO_BOTH, 1) == 0
    ensures GeneratorEntry(NEGATIVE_COPY, 1) == 0 && GeneratorEntry(BELOW_LINK, 1) == 0
    ensures GeneratorEntry(ZERO_LINK, 1) == 0
  {
    assert [Entry(0, -1), Entry(1, -1)][1..] == [Entry(1, -1)];
    assert [Entry(0, -1)][1..] == [] && [Entry(0, 1)][1..] == [];
  }

  lemma Growing()
    ensures [BELOW_BOTH] + [ZERO_BOTH] == [BELOW_BOTH, ZERO_BOTH]
    ensures [BELOW_BOTH, ZERO_BOTH] + [NEGATIVE_COPY] == First()
    ensures First() + [BELOW_LINK] + [ZERO_LINK] == All()
  {
  }

  lemma MinusHalfIsFractional()
    ensures !IsInt(-0.5)
  {
    FloorUnique(-0.5, -1);
  }

  lemma FractionalOfBlock()
    ensures FractionalColumns(All(), 0) == First()
  {
    var none: seq<Column> := [];
    HalfIsFractional();
    MinusHalfIsFractional();
    UnsafeExample.FractionalMore(none, BELOW_BOTH, 0);
    UnsafeExample.FractionalMore([BELOW_BOTH], ZERO_BOTH, 0);
    UnsafeExample.FractionalMore([BELOW_BOTH, ZERO_BOTH], NEGATIVE_COPY, 0);
    UnsafeExample.FractionalMore(First(), BELOW_LINK, 0);
    UnsafeExample.FractionalMore(First() + [BELOW_LINK], ZERO_LINK, 0);
    Growing();
    assert none + [BELOW_BOTH] == [BELOW_BOTH];
  }

  lemma OwnOfBlocks()
    ensures OwnColumns(All(), 0) == [BELOW_BOTH, ZERO_BOTH] && OwnColumns(All(), 1) == [BELOW_LINK, ZERO_LINK]
  {
    var none: seq<Column> := [];
    OwnOfTwo(none, BELOW_BOTH, ZERO_BOTH, 0);
    OwnOfTwo(none, BELOW_BOTH, ZERO_BOTH, 1);
    BlockMore([BELOW_BOTH, ZERO_BOTH], NEGATIVE_COPY, 0);
    BlockMore([BELOW_BOTH, ZERO_BOTH], NEGATIVE_COPY, 1);
    OwnOfTwo(First(), BELOW_LINK, ZERO_LINK, 0);
    OwnOfTwo(First(), BELOW_LINK, ZERO_LINK, 1);
    Growing();
    assert none + [BELOW_BOTH] + [ZERO_BOTH] == [BELOW_BOTH, ZERO_BOTH];
    assert none + [BELOW_LINK] + [ZERO_LINK] == [BELOW_LINK, ZERO_LINK];
  }

  lemma OwnOfTwo(F: seq<Column>, a: Column, b: Column, block: nat)
    ensures OwnColumns(F + [a] + [b], block) ==
            OwnColumns(F, block) + (if a.block == block then [a] else []) + (if b.block == block then [b] else [])
  {
    BlockMore(F, a, block);
    BlockMore(F + [a], b, block);
  }

  lemma EndlessIsSound(K: nat -> int)
    requires K(0) == 1 && K(1) == 1
    ensures Sound(EndlessInput(), K)
  {
    var rel := EndlessInput();
    OwnOfBlocks();
    FractionalOfBlock();
    MassOfTwo(BELOW_BOTH, ZERO_BOTH, []);
    MassOfTwo(BELOW_LINK, ZERO_LINK, []);
    forall k | 0 <= k < |All()| ensures ProperColumn(All()[k]) {
      EndlessProper(k);
    }
    forall b: nat | b < 2 ensures Mass(OwnColumns(All(), b), []) == K(b) as real {
      assert b == 0 || b == 1;
    }
    forall v, b: nat | v in rel.origvars && PointsTo(v, rel.representative, b) ensures b == 0 {
      assert v == Y0 || v == Y1;
    }
  }

  lemma EndlessProper(k: nat)
    requires k < |All()|
    ensures ProperColumn(All()[k])
  {
    assert k == 0 || |All()[k].entries| <= 1;
  }

  lemma IndexOfBlock()
    ensures IndexSet(First(), {1}) == [1]
  {
    assert First()[..2] == [BELOW_BOTH, ZERO_BOTH] && [BELOW_BOTH, ZERO_BOTH][..1] == [BELOW_BOTH];
    assert BELOW_BOTH.entries[..1] == [Entry(0, -1)] && [Entry(0, -1)][..0] == [];
    assert [Entry(0, 1)][..0] == [] && [BELOW_BOTH][..0] == [];
    assert Merged([], [Entry(0, -1)], {1}) == [];
    assert Merged([], BELOW_BOTH.entries, {1}) == [1];
    assert Merged([1], [Entry(0, 1)], {1}) == [1];
    assert IndexSet([BELOW_BOTH], {1}) == [1];
    assert IndexSet([BELOW_BOTH, ZERO_BOTH], {1}) == [1];
  }

  /** The negative copy makes the upper mass zero: the component neither counts as fractional nor as discriminating. */
  lemma NothingFoundInBlock()
    ensures Separations(First(), [1], []) == []
  {
    var b := Bound(1, GE, 0);
    EndlessEntries();
    NeighbourMedian(First(), 1, 0, 1, -1);
    MassOfThree(BELOW_BOTH, ZERO_BOTH, NEGATIVE_COPY, [b]);
    assert !Satisfies(BELOW_BOTH, [b][0]) && Satisfies(ZERO_BOTH, b) && Satisfies(NEGATIVE_COPY, b);
    assert UpperBound(First(), 1) == b && Alpha(First(), 1) == 0.0;
    IntIsInt(0);
    assert [1][..0] == [];
    assert Separation.Direct(First(), [1], []) == [] && Discriminating(First(), [1]) == [];
    SeparationsOfHalves(First(), [1], []);
  }

  lemma AlwaysSelected(checked: seq<nat>)
    requires checked == [] || checked == [0]
    ensures EndlessInput().Select(checked) == InBlockNr(0)
  {
    var vars, rep := [Y0, Y1], [0, 1];
    MinusHalfIsFractional();
    assert vars[1..] == [Y1] && [Y1][1..] == [] && IsFractionalInteger(Y1) && !IsFractionalInteger(Y0);
    assert FromOriginals([Y1], rep, checked, NoBlock) == InBlockNr(0);
    assert FromOriginals(vars, rep, checked, NoBlock) == InBlockNr(0);
  }

  lemma InVainHere()
    ensures EndlessInput().FoundIn([], 0) == []
  {
    FractionalOfBlock();
    IndexOfBlock();
    NothingFoundInBlock();
  }

  lemma EndlessSettles()
    ensures EndlessInput().FoundIn([], 0) == [] && Final(EndlessInput(), [], []) == InBlockNr(0)
  {
    var rel, none: seq<nat> := EndlessInput(), [];
    InVainHere();
    AlwaysSelected([]);
    AlwaysSelected([0]);
    assert none + [0] == [0];
    assert Final(rel, [], [0]) == InBlockNr(0);
  }

  /** The procedure searches block 0 in vain, and selects it again. */
  method EndlessExample(K: nat -> int) returns (o: Outcome)
    requires K(0) == 1 && K(1) == 1
    ensures o == Endless(0)
  {
    EndlessIsSound(K);
    EndlessSettles();
    o := InitBranch(EndlessInput(), [], K, []);
  }

  /** Except for the class of the negative copy, which has no positive total, all is as NeverEndless demands. */
  lemma EndlessDespiteAssembly(K: nat -> int, rep: nat -> nat, pos: nat -> nat)
    requires K(0) == 1 && K(1) == 1 && rep(1) == 1 && pos(1) == 0
    ensures FromMaster(EndlessInput(), K, SortedAll(), [1], rep, pos)
    ensures !PositiveBlocks(EndlessInput()) && IntegerPath([], {1})
  {
    EndlessSorted();
    EndlessCopies();
    ZeroClass();
    OrderedAll();
    forall x: nat | x < 2 && InTable(EndlessInput(), x)
      ensures ValueIs(EndlessInput(), K, SortedAll(), x, rep(x), pos(x))
    {
      assert x == 1;
      EndlessValueIs(K);
    }
  }

  function SortedAll(): seq<Column> {
    [ZERO_BOTH, NEGATIVE_COPY, BELOW_LINK, ZERO_LINK, BELOW_BOTH]
  }

  lemma OrderedAll()
    ensures multiset(SortedAll()) == multiset(All())
  {
  }

  lemma EndlessValueIs(K: nat -> int)
    requires K(0) == 1
    ensures InTable(EndlessInput(), 1) && ValueIs(EndlessInput(), K, SortedAll(), 1, 1, 0)
  {
    MinusHalfIsFractional();
    OwnSorted();
    EndlessValue();
  }

  lemma OwnSorted()
    ensures OwnColumns(SortedAll(), 0) == [ZERO_BOTH, BELOW_BOTH]
  {
    var none: seq<Column> := [];
    OwnOfTwo(none, ZERO_BOTH, NEGATIVE_COPY, 0);
    OwnOfTwo([ZERO_BOTH, NEGATIVE_COPY], BELOW_LINK, ZERO_LINK, 0);
    BlockMore([ZERO_BOTH, NEGATIVE_COPY, BELOW_LINK, ZERO_LINK], BELOW_BOTH, 0);
    assert none + [ZERO_BOTH] + [NEGATIVE_COPY] == [ZERO_BOTH, NEGATIVE_COPY];
    assert [ZERO_BOTH, NEGATIVE_COPY] + [BELOW_LINK] + [ZERO_LINK] == [ZERO_BOTH, NEGATIVE_COPY, BELOW_LINK, ZERO_LINK];
    assert [ZERO_BOTH, NEGATIVE_COPY, BELOW_LINK, ZERO_LINK] + [BELOW_BOTH] == SortedAll();
  }

  lemma EndlessSorted()
    ensures Sorted(SortedAll(), [1], {1})
  {
    var cols, vars: seq<nat> := SortedAll(), [1];
    EndlessEntries();
    assert vars[1..] == [];
    forall j, k | 0 <= j < k < |cols| ensures PtrComp(cols[j], cols[k], vars, {1}) <= 0 {
      assert GeneratorEntry(cols[j], 1) == 0 && GeneratorEntry(cols[k], 1) <= 0;
    }
  }

  lemma EndlessValue()
    ensures NonnegativeValues([ZERO_BOTH, BELOW_BOTH]) && Assembled([ZERO_BOTH, BELOW_BOTH], 1, 1) == [-0.5]
  {
    var G := [ZERO_BOTH, BELOW_BOTH];
    EndlessEntries();
    AssembledTotal(G, 1, 1);
    assert G[..1] == [ZERO_BOTH] && [ZERO_BOTH][..0] == [];
    assert Contribution([ZERO_BOTH], 1) == 0.0;
    assert Contribution(G, 1) == -0.5;
    var vals := Assembled(G, 1, 1);
    assert vals == [vals[0]] && vals[..0] == [];
  }

  lemma EndlessCopies()
    ensures FractionalCopiesZero(All(), {1})
  {
    EndlessEntries();
  }

  /** The block is searched in vain although a class is fractional: another one has no positive total. */
  lemma InVainDespiteFractionalClass()
    ensures var F := EndlessInput().BlockCandidates(0);
      && EndlessInput().FoundIn([], 0) == [] && IndexSet(F, {1}) == [1]
      && ClassMass(F, [1], BELOW_BOTH) == 0.5 && ClassMass(F, [1], ZERO_BOTH) == 0.0
  {
    InVainHere();
    FractionalOfBlock();
    IndexOfBlock();
    ClassesHere();
  }

  lemma ClassesHere()
    ensures ClassMass(First(), [1], BELOW_BOTH) == 0.5 && ClassMass(First(), [1], ZERO_BOTH) == 0.0
  {
    EndlessEntries();
    OneSided(BELOW_BOTH, ZERO_BOTH);
    OneSided(BELOW_BOTH, NEGATIVE_COPY);
    var one := [BELOW_BOTH];
    assert First()[..2] == [BELOW_BOTH, ZERO_BOTH] && [BELOW_BOTH, ZERO_BOTH][..1] == one && one[..0] == [];
    assert ClassMass(one, [1], BELOW_BOTH) == 0.5 && ClassMass(one, [1], ZERO_BOTH) == 0.0;
    assert ClassMass([BELOW_BOTH, ZERO_BOTH], [1], BELOW_BOTH) == 0.5;
    assert ClassMass([BELOW_BOTH, ZERO_BOTH], [1], ZERO_BOTH) == 0.5;
  }

  lemma OneSided(c: Column, d: Column)
    requires GeneratorEntry(c, 1) != GeneratorEntry(d, 1)
    ensures !SameOn(c, d, [1]) && !SameOn(d, c, [1])
  {
    assert GeneratorEntry(c, [1][0]) != GeneratorEntry(d, [1][0]);
  }

  lemma ZeroClass()
    ensures !PositiveBlocks(EndlessInput())
  {
    InVainDespiteFractionalClass();
    FractionalOfBlock();
    assert First()[1] == ZERO_BOTH && ZERO_BOTH in EndlessInput().BlockCandidates(0);
    assert !ClassesPositive(EndlessInput().BlockCandidates(0), [1]);
    assert 0 < EndlessInput().nblocks;
  }
}

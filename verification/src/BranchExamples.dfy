/** Evaluating small examples, and an LP solution that the first child of its split keeps. */
module BranchExamples {
  import opened Numbers
  import opened Columns
  import opened Median
  import opened Separation
  import opened Children
  import opened RootSearch
  import opened BranchTree

  // ---------- evaluation ----------

  function Weight(c: Column, S: Sequence): real {
    if SatisfiesAll(c, S) then c.value else 0.0
  }

  lemma MassOfTwo(a: Column, b: Column, S: Sequence)
    ensures Mass([a, b], S) == Weight(a, S) + Weight(b, S)
  {
    assert [a, b][..1] == [a];
    MassOfOne(a, S);
  }

  lemma MassOfThree(a: Column, b: Column, c: Column, S: Sequence)
    ensures Mass([a, b, c], S) == Weight(a, S) + Weight(b, S) + Weight(c, S)
  {
    assert [a, b, c][..2] == [a, b];
    MassOfTwo(a, b, S);
  }

  lemma MassOfOne(c: Column, S: Sequence)
    ensures Mass([c], S) == Weight(c, S)
  {
    assert [c][..0] == [];
  }

  lemma KeepMore(F: seq<Column>, c: Column, b: Bound)
    ensures Keep(F + [c], b) == Keep(F, b) + if Satisfies(c, b) then [c] else []
  {
    assert (F + [c])[..|F|] == F;
  }

  lemma BlockMore(F: seq<Column>, c: Column, block: nat)
    ensures BlockColumns(F + [c], block) == BlockColumns(F, block) + if InBlock(c, block) then [c] else []
    ensures OwnColumns(F + [c], block) == OwnColumns(F, block) + if c.block == block then [c] else []
  {
    assert (F + [c])[..|F|] == F;
  }

  lemma LinkingMore(F: seq<Column>, c: Column, block: nat)
    ensures LinkingColumns(F + [c], block) ==
            LinkingColumns(F, block) + if c.block == -1 && InBlock(c, block) then [c] else []
  {
    assert (F + [c])[..|F|] == F;
  }

  /** Two columns of the block and a linking one. */
  lemma BlockOfThree(a: Column, b: Column, l: Column, block: nat)
    requires a.block == block && b.block == block && l.block == -1 && InBlock(l, block)
    ensures BlockColumns([a, b, l], block) == [a, b, l]
    ensures OwnColumns([a, b, l], block) == [a, b]
  {
    var none: seq<Column> := [];
    BlockMore(none, a, block);
    BlockMore([a], b, block);
    BlockMore([a, b], l, block);
    assert none + [a] == [a] && [a] + [b] == [a, b] && [a, b] + [l] == [a, b, l];
  }

  lemma LinkingOfThree(a: Column, b: Column, l: Column, block: nat)
    requires a.block == block && b.block == block && l.block == -1 && InBlock(l, block)
    ensures LinkingColumns([a, b, l], block) == [l]
  {
    var none: seq<Column> := [];
    LinkingMore(none, a, block);
    LinkingMore([a], b, block);
    LinkingMore([a, b], l, block);
    assert none + [a] == [a] && [a] + [b] == [a, b] && [a, b] + [l] == [a, b, l];
  }

  /** A component with two neighbouring values: its median is the greater one. */
  lemma NeighbourMedian(F: seq<Column>, i: nat, x: nat, y: nat, lo: int)
    requires x < |F| && y < |F| && GeneratorEntry(F[x], i) == lo && GeneratorEntry(F[y], i) == lo + 1
    requires forall k :: 0 <= k < |F| ==> lo <= GeneratorEntry(F[k], i) <= lo + 1
    ensures ComponentMedian(F, i) == lo + 1
  {
    var s := Values(F, i);
    MedianSeparates(s);
    assert s[x] in s && s[y] in s;
    assert MinOf(s) == lo && MaxOf(s) == lo + 1;
  }

  lemma ConstantMedian(F: seq<Column>, i: nat, v: int)
    requires |F| > 0 && forall k :: 0 <= k < |F| ==> GeneratorEntry(F[k], i) == v
    ensures ComponentMedian(F, i) == v
  {
    var s := Values(F, i);
    MedianSeparates(s);
    assert MinOf(s) in s && MaxOf(s) in s;
  }

  lemma HalfIsFractional()
    ensures !IsInt(0.5) && IsInt(1.0) && Ceil(0.5) == 1 && Ceil(1.5) == 2 && Ceil(1.0) == 1
  {
    IntIsInt(1);
  }

  /** At the root, on the columns of one block. */
  lemma MakeBranchedOn(lp: LpNode, K: nat -> int, own: seq<Column>)
    requires BlockColumns(lp.columns, lp.block) == lp.columns == lp.F + lp.R && Integral(lp.R)
    requires OwnColumns(lp.columns, lp.block) == own && Mass(own, []) == K(lp.block) as real
    requires lp.S in Found([], lp.F, lp.I)
    ensures BranchedOn(lp, [], K)
  {
  }

  // ---------- a first child that keeps the LP solution ----------

  /** Variable 1 links block 0 to others and is one in both columns of the block; variable 0 differs. */
  const ZERO := Column(0, 0, {}, [Entry(1, 1)], 0.5)
  const BELOW := Column(1, 0, {}, [Entry(0, -1), Entry(1, 1)], 0.5)
  const LINK := Column(2, -1, {0}, [Entry(1, 1)], 1.0)

  function KeptSplit(): LpNode {
    LpNode([ZERO, BELOW, LINK], 0, [ZERO, BELOW], [LINK], [1, 0], [Bound(0, GE, 0)])
  }

  lemma KeptBounds()
    ensures UpperBound([ZERO, BELOW], 0) == Bound(0, GE, 0) && UpperBound([ZERO, BELOW], 1) == Bound(1, GE, 1)
    ensures Alpha([ZERO, BELOW], 0) == 0.5 && Alpha([ZERO, BELOW], 1) == 1.0
  {
    KeptEntries();
    NeighbourMedian([ZERO, BELOW], 0, 1, 0, -1);
    ConstantMedian([ZERO, BELOW], 1, 1);
    MassOfTwo(ZERO, BELOW, [Bound(0, GE, 0)]);
    MassOfTwo(ZERO, BELOW, [Bound(1, GE, 1)]);
    assert !Satisfies(BELOW, [Bound(0, GE, 0)][0]);
  }

  lemma KeptFound()
    ensures Found([], [ZERO, BELOW], [1, 0]) == [[Bound(0, GE, 0)]]
  {
    var F, none: seq<Bound> := [ZERO, BELOW], [];
    KeptBounds();
    HalfIsFractional();
    assert [1, 0][..1] == [1] && [1][..0] == [];
    assert none + [Bound(0, GE, 0)] == [Bound(0, GE, 0)];
    assert Separation.Direct(F, [1], none) == [];
    assert Separation.Direct(F, [1, 0], none) == [[Bound(0, GE, 0)]];
  }

  lemma KeptBlock()
    ensures BlockColumns([ZERO, BELOW, LINK], 0) == [ZERO, BELOW, LINK]
    ensures OwnColumns([ZERO, BELOW, LINK], 0) == [ZERO, BELOW] && LinkingColumns([ZERO, BELOW, LINK], 0) == [LINK]
  {
    BlockOfThree(ZERO, BELOW, LINK, 0);
    LinkingOfThree(ZERO, BELOW, LINK, 0);
  }

  lemma KeptMasses()
    ensures Mass([ZERO, BELOW], []) == 1.0 && Mass([LINK], [Bound(0, GE, 0)]) == 1.0
    ensures Mass([ZERO, BELOW, LINK], [Bound(0, GE, 0)]) == 1.5
  {
    var b := Bound(0, GE, 0);
    MassOfTwo(ZERO, BELOW, []);
    MassOfOne(LINK, [b]);
    MassOfThree(ZERO, BELOW, LINK, [b]);
    KeptEntries();
    assert Satisfies(ZERO, b) && !Satisfies(BELOW, [b][0]) && Satisfies(LINK, b);
  }

  lemma KeptTotals()
    ensures Mass([ZERO, BELOW], []) == 1.0 && Integral([LINK])
  {
    KeptMasses();
    IntIsInt(1);
  }

  lemma KeptEntries()
    ensures GeneratorEntry(ZERO, 0) == 0 && GeneratorEntry(BELOW, 0) == -1 && GeneratorEntry(LINK, 0) == 0
    ensures GeneratorEntry(ZERO, 1) == 1 && GeneratorEntry(BELOW, 1) == 1
  {
    assert [Entry(0, -1), Entry(1, 1)][1..] == [Entry(1, 1)];
    assert [Entry(1, 1)][1..] == [];
  }

  lemma KeptBranchedOn(K: nat -> int)
    requires K(0) == 1
    ensures BranchedOn(KeptSplit(), [], K)
  {
    KeptFound();
    KeptBlock();
    KeptTotals();
    assert [ZERO, BELOW] + [LINK] == [ZERO, BELOW, LINK];
    MakeBranchedOn(KeptSplit(), K, [ZERO, BELOW]);
  }

  lemma KeptSlack()
    ensures Slack([ZERO, BELOW, LINK], 1, [Bound(0, GE, 0)]) == 0.5
  {
    var S := [Bound(0, GE, 0)];
    HalfIsFractional();
    KeptMasses();
    assert S[..1] == S;
  }

  /** A safe split of an LP solution that the first child still accepts: the linking column outweighs the slack. */
  lemma FirstChildKeepsLpSolution(K: nat -> int)
    requires K(0) == 1
    ensures BranchedOn(KeptSplit(), [], K) && SafeSplit(KeptSplit(), [])
    ensures Accepts([ZERO, BELOW, LINK], GenericNode(KeptSplit(), K, 0))
  {
    var S := [Bound(0, GE, 0)];
    KeptBranchedOn(K);
    KeptBlock();
    KeptMasses();
    KeptSlack();
    FirstKeeps(KeptSplit(), K, [ZERO, BELOW], [LINK]);
  }

  lemma FirstKeeps(lp: LpNode, K: nat -> int, own: seq<Column>, linking: seq<Column>)
    requires |lp.S| == 1 && BlockColumns(lp.columns, lp.block) == lp.columns
    requires OwnColumns(lp.columns, lp.block) == own && LinkingColumns(lp.columns, lp.block) == linking
    requires Mass(own, []) == K(lp.block) as real && Mass(linking, lp.S) >= Slack(lp.columns, K(lp.block), lp.S)
    ensures Accepts(lp.columns, GenericNode(lp, K, 0))
  {
    assert lp.S[..1] == lp.S;
    FirstChildCutsOff(lp.columns, lp.block, K(lp.block), lp.S);
  }

  // ---------- a last child that keeps the LP solution ----------

  /** Variable 0 links block 0 to others; its copy is negative, and integral, as its columns add up to -1. */
  const MINUS_TWO := Column(0, 0, {}, [Entry(0, -2)], 0.5)
  const NONE := Column(1, 0, {}, [], 0.5)
  const NEGATIVE := Column(2, -1, {0, 1}, [Entry(0, 1)], -1.0)

  function NegativeSplit(): LpNode {
    LpNode([MINUS_TWO, NONE, NEGATIVE], 0, [MINUS_TWO, NONE], [NEGATIVE], [0], [UpperBound([MINUS_TWO, NONE], 0)])
  }

  lemma NegativeEntries()
    ensures GeneratorEntry(MINUS_TWO, 0) == -2 && GeneratorEntry(NONE, 0) == 0 && GeneratorEntry(NEGATIVE, 0) == 1
  {
  }

  /** The median lies between the two entries; on either side is one column. */
  lemma NegativeBound()
    ensures -2 < ComponentMedian([MINUS_TWO, NONE], 0) <= 0
  {
    var s := Values([MINUS_TWO, NONE], 0);
    NegativeEntries();
    MedianSeparates(s);
    assert s == [-2, 0];
    assert MinOf(s) in s && MaxOf(s) in s;
    assert s[0] in s && s[1] in s;
  }

  lemma NegativeFound()
    ensures Found([], [MINUS_TWO, NONE], [0]) == [[UpperBound([MINUS_TWO, NONE], 0)]]
  {
    var F, none: seq<Bound> := [MINUS_TWO, NONE], [];
    var b := UpperBound(F, 0);
    NegativeEntries();
    NegativeBound();
    HalfIsFractional();
    MassOfTwo(MINUS_TWO, NONE, [b]);
    assert Satisfies(NONE, b) && !Satisfies(MINUS_TWO, [b][0]);
    assert [0][..0] == [] && none + [b] == [b];
    assert Separation.Direct(F, [0], none) == [[b]];
  }

  lemma NegativeMasses()
    ensures var b := UpperBound([MINUS_TWO, NONE], 0);
      && Mass([MINUS_TWO, NONE], []) == 1.0 && Mass([NEGATIVE], [b]) == -1.0 && Mass([NEGATIVE], []) == -1.0
      && Mass([MINUS_TWO, NONE, NEGATIVE], [b]) == -0.5
  {
    var b := UpperBound([MINUS_TWO, NONE], 0);
    NegativeEntries();
    NegativeBound();
    MassOfTwo(MINUS_TWO, NONE, []);
    MassOfOne(NEGATIVE, [b]);
    MassOfOne(NEGATIVE, []);
    MassOfThree(MINUS_TWO, NONE, NEGATIVE, [b]);
    assert Satisfies(NONE, b) && !Satisfies(MINUS_TWO, [b][0]) && Satisfies(NEGATIVE, b);
  }

  lemma NegativeBranchedOn(K: nat -> int)
    requires K(0) == 1
    ensures BranchedOn(NegativeSplit(), [], K)
  {
    NegativeFound();
    NegativeMasses();
    BlockOfThree(MINUS_TWO, NONE, NEGATIVE, 0);
    IntIsInt(-1);
    assert [MINUS_TWO, NONE] + [NEGATIVE] == [MINUS_TWO, NONE, NEGATIVE];
    MakeBranchedOn(NegativeSplit(), K, [MINUS_TWO, NONE]);
  }

  /** A safe split of an LP solution that the last child still accepts: the linking column is negative. */
  lemma LastChildKeepsLpSolution(K: nat -> int)
    requires K(0) == 1
    ensures BranchedOn(NegativeSplit(), [], K) && SafeSplit(NegativeSplit(), [])
    ensures Accepts(NegativeSplit().columns, GenericNode(NegativeSplit(), K, 1))
  {
    NegativeBranchedOn(K);
    NegativeMasses();
    BlockOfThree(MINUS_TWO, NONE, NEGATIVE, 0);
    LinkingOfThree(MINUS_TWO, NONE, NEGATIVE, 0);
    LastKeeps(NegativeSplit(), K, [NEGATIVE]);
  }

  lemma LastKeeps(lp: LpNode, K: nat -> int, linking: seq<Column>)
    requires BranchedOn(lp, [], K) && |lp.S| == 1 && BlockColumns(lp.columns, lp.block) == lp.columns
    requires LinkingColumns(lp.columns, lp.block) == linking && Mass(lp.columns, lp.S) == -0.5
    requires Mass(linking, lp.S) <= -0.5
    ensures Accepts(lp.columns, GenericNode(lp, K, 1))
  {
    GenericSplitCutsOff(lp, [], K, 1);
    FloorUnique(-0.5, -1);
  }
}

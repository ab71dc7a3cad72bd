/** GCGbranchGenericInitbranch: from the LP solution and the path to the block, the sequence and the child nodes. */
module GenericBranching {
  import opened Numbers
  import opened Columns
  import opened Separation
  import opened Search
  import opened Children
  import opened RootSearch
  import opened Completeness
  import opened BranchTree
  import opened BlockSelection

  datatype Option<+T> = None | Some(value: T)

  lemma {:induction false} NonzeroOccurs(entries: seq<Entry>, v: nat, integer: set<nat>)
    requires LookUp(entries, v) != 0 && v in integer
    ensures v in IntegerVars(entries, integer)
  {
    if entries[0].origvar == v {
      assert entries[0] in entries;
    } else {
      NonzeroOccurs(entries[1..], v, integer);
      assert forall e :: e in entries[1..] ==> e in entries;
    }
  }

  lemma {:induction false} OccursInUnion(F: seq<Column>, k: nat, integer: set<nat>)
    requires k < |F|
    ensures IntegerVars(F[k].entries, integer) <= UnionOfVars(F, integer)
  {
    if k < |F| - 1 { OccursInUnion(F[..|F| - 1], k, integer); }
  }

  lemma {:induction false} MergedElements(given: seq<nat>, entries: seq<Entry>, integer: set<nat>)
    ensures Elements(Merged(given, entries, integer)) == Elements(given) + IntegerVars(entries, integer)
  {
    if |entries| > 0 {
      var n := |entries| - 1;
      MergedElements(given, entries[..n], integer);
      assert entries == entries[..n] + [entries[n]];
      ElementsGrow(Merged(given, entries[..n], integer), entries[n].origvar);
      assert IntegerVars(entries, integer) == IntegerVars(entries[..n], integer) +
        if entries[n].origvar in integer then {entries[n].origvar} else {};
    }
  }

  lemma {:induction false} IndexSetElements(F: seq<Column>, integer: set<nat>)
    ensures Elements(IndexSet(F, integer)) == UnionOfVars(F, integer)
  {
    if |F| > 0 {
      IndexSetElements(F[..|F| - 1], integer);
      MergedElements(IndexSet(F[..|F| - 1], integer), F[|F| - 1].entries, integer);
    }
  }

  /** An integer variable outside the index set is zero in all columns of F. */
  lemma ZeroOutside(F: seq<Column>, integer: set<nat>, k: nat, v: nat)
    requires k < |F| && v in integer && v !in IndexSet(F, integer)
    ensures GeneratorEntry(F[k], v) == 0
  {
    IndexSetElements(F, integer);
    if GeneratorEntry(F[k], v) != 0 {
      NonzeroOccurs(F[k].entries, v, integer);
      OccursInUnion(F, k, integer);
    }
  }

  lemma {:induction false} UnionIsInteger(F: seq<Column>, integer: set<nat>)
    ensures UnionOfVars(F, integer) <= integer
  {
    if |F| > 0 { UnionIsInteger(F[..|F| - 1], integer); }
  }

  /** Two columns of F agree on the index set exactly if they agree on all integer variables. */
  lemma IndexSetDistinguishes(F: seq<Column>, integer: set<nat>, x: nat, y: nat)
    requires x < |F| && y < |F|
    ensures SameOn(F[x], F[y], IndexSet(F, integer)) <==>
            forall v :: v in integer ==> GeneratorEntry(F[x], v) == GeneratorEntry(F[y], v)
  {
    var I := IndexSet(F, integer);
    IndexSetElements(F, integer);
    UnionIsInteger(F, integer);
    if SameOn(F[x], F[y], I) {
      forall v | v in integer ensures GeneratorEntry(F[x], v) == GeneratorEntry(F[y], v) {
        if v in I {
          var k :| 0 <= k < |I| && I[k] == v;
        } else {
          ZeroOutside(F, integer, x, v);
          ZeroOutside(F, integer, y, v);
        }
      }
    }
    if forall v :: v in integer ==> GeneratorEntry(F[x], v) == GeneratorEntry(F[y], v) {
      forall k | 0 <= k < |I| ensures GeneratorEntry(F[x], I[k]) == GeneratorEntry(F[y], I[k]) {
        assert I[k] in Elements(I);
      }
    }
  }

  /** Separate at the root, Explore below it, then the choice among what was recorded. */
  method ChooseSeparateMethod(F: seq<Column>, C: seq<Sequence>, integer: set<nat>)
    returns (S: Option<Sequence>)
    requires |F| > 0 && forall k :: 0 <= k < |F| ==> ProperColumn(F[k])
    ensures Elements(IndexSet(F, integer)) == UnionOfVars(F, integer)
    ensures var R := Found(C, F, IndexSet(F, integer));
      if R == [] then S.None? else S.Some? && exists k :: FirstShortest(R, k) && S.value == R[k]
  {
    var record := new Record();
    var indexSet := InitIndexSet(F, integer);
    if |C| == 0 {
      Separate(F, indexSet, [], record);
    } else {
      Explore(C, 1, F, indexSet, [], record);
    }
    assert record.sequences == Found(C, F, IndexSet(F, integer));
    if |record.sequences| == 0 { return None; }
    var T := ChoseS(record);
    S := Some(T);
  }

  predicate IsCandidate(c: Column, block: nat) {
    InBlock(c, block) && !IsInt(c.value)
  }

  function FractionalColumns(columns: seq<Column>, block: nat): (F: seq<Column>)
    ensures forall k :: 0 <= k < |F| ==> IsCandidate(F[k], block)
  {
    if |columns| == 0 then []
    else FractionalColumns(columns[..|columns| - 1], block) +
         if IsCandidate(columns[|columns| - 1], block) then [columns[|columns| - 1]] else []
  }

  function IntegralColumns(columns: seq<Column>, block: nat): (R: seq<Column>)
    ensures Integral(R)
  {
    if |columns| == 0 then []
    else
      var c := columns[|columns| - 1];
      IntegralColumns(columns[..|columns| - 1], block) + if InBlock(c, block) && IsInt(c.value) then [c] else []
  }

  lemma {:induction false} BlockShares(columns: seq<Column>, block: nat)
    ensures multiset(BlockColumns(columns, block)) ==
            multiset(FractionalColumns(columns, block)) + multiset(IntegralColumns(columns, block))
  {
    if |columns| > 0 { BlockShares(columns[..|columns| - 1], block); }
  }

  /** The fractional candidates that lie in the block. */
  method CollectFractional(branchcands: seq<Column>, block: nat) returns (F: seq<Column>)
    ensures F == FractionalColumns(branchcands, block)
  {
    F := [];
    for i := 0 to |branchcands|
      invariant F == FractionalColumns(branchcands[..i], block)
    {
      assert branchcands[..i + 1][..i] == branchcands[..i];
      if InBlock(branchcands[i], block) {
        if !IsInt(branchcands[i].value) {
          F := F + [branchcands[i]];
        }
      }
    }
    assert branchcands[..|branchcands|] == branchcands;
  }

  /** What holds when the branching rule is called on a block. */
  ghost predicate BranchingSituation(mastervars: seq<Column>, branchcands: seq<Column>, block: nat, K: int) {
    && (forall k :: 0 <= k < |branchcands| ==> ProperColumn(branchcands[k]))
    && |FractionalColumns(branchcands, block)| > 0
    && multiset(FractionalColumns(branchcands, block)) == multiset(FractionalColumns(mastervars, block))
    && Mass(OwnColumns(mastervars, block), []) == K as real
  }

  lemma {:induction false} FractionalColumnsProper(columns: seq<Column>, block: nat)
    requires forall k :: 0 <= k < |columns| ==> ProperColumn(columns[k])
    ensures forall k :: 0 <= k < |FractionalColumns(columns, block)| ==>
              ProperColumn(FractionalColumns(columns, block)[k])
  {
    if |columns| > 0 { FractionalColumnsProper(columns[..|columns| - 1], block); }
  }

  /** The situation, with a choice of S, as the theorems on branch-and-bound trees see it. */
  function Situation(mastervars: seq<Column>, branchcands: seq<Column>, block: nat, integer: set<nat>,
                     S: Sequence): LpNode
  {
    var F := FractionalColumns(branchcands, block);
    LpNode(mastervars, block, F, IntegralColumns(mastervars, block), IndexSet(F, integer), S)
  }

  /** The children are those of a generic split on lp. */
  ghost predicate SplitInto(children: seq<Child>, lp: LpNode, path: Path, K: nat -> int) {
    && BranchedOn(lp, path, K) && |children| == |lp.S| + 1
    && forall p :: 0 <= p <= |lp.S| ==>
         NodeData.Generic(children[p].block, children[p].consS, children[p].lhs) == GenericNode(lp, K, p)
  }

  /** The sequences that the search finds for a block. */
  function FoundOn(path: Path, F: seq<Column>, block: nat, integer: set<nat>): seq<Sequence> {
    Found(Collect(path, block, []), F, IndexSet(F, integer))
  }

  /** The children of a sequence that the search has found. */
  method BranchOn(mastervars: seq<Column>, ghost branchcands: seq<Column>, ghost path: Path, block: nat,
                  ghost K: nat -> int, nblocks: int, ghost integer: set<nat>, S: Sequence)
    returns (children: seq<Child>)
    requires nblocks == K(block) && BranchingSituation(mastervars, branchcands, block, nblocks)
    requires S in FoundOn(path, FractionalColumns(branchcands, block), block, integer)
    ensures |children| > 0 && SplitInto(children, Situation(mastervars, branchcands, block, integer, S), path, K)
  {
    ghost var lp := Situation(mastervars, branchcands, block, integer, S);
    BlockShares(mastervars, block);
    assert BranchedOn(lp, path, K);
    FoundBranchable(lp, path, K);
    children := CreateChildNodes(mastervars, S, block, nblocks);
  }

  // ---------- the whole procedure ----------

  /**
   * What the branching rule is given: master variables, LP branching candidates, the original variables with their
   * values, the representatives of the blocks, whether the original problem has continuous variables, and its integer
   * variables.
   */
  datatype Relaxation = Relaxation(mastervars: seq<Column>, branchcands: seq<Column>, origvars: seq<OrigVar>,
                                   representative: seq<nat>, continuous: bool, nblocks: nat, integer: set<nat>)
  {
    /** With continuous variables every master variable is a candidate. */
    function Candidates(): seq<Column> {
      if continuous then mastervars else branchcands
    }

    function BlockCandidates(block: nat): seq<Column> {
      FractionalColumns(Candidates(), block)
    }

    function Select(checked: seq<nat>): Selection {
      if continuous then FromOriginals(origvars, representative, checked, NoBlock)
      else FromCandidates(branchcands, checked, nblocks)
    }

    function FoundIn(path: Path, block: nat): seq<Sequence> {
      FoundOn(path, BlockCandidates(block), block, integer)
    }
  }

  /**
   * The LP solution meets the convexity constraints; the candidates are the fractional variables; and a fractional
   * value of an integer original variable comes from a fractional column of the block that represents it.
   */
  ghost predicate Sound(rel: Relaxation, K: nat -> int) {
    && (forall k :: 0 <= k < |rel.Candidates()| ==> ProperColumn(rel.Candidates()[k]))
    && (forall b: nat :: b < rel.nblocks ==> Mass(OwnColumns(rel.mastervars, b), []) == K(b) as real)
    && (forall b: nat :: multiset(rel.BlockCandidates(b)) == multiset(FractionalColumns(rel.mastervars, b)))
    && (!rel.continuous ==> forall c :: c in rel.branchcands ==> !IsInt(c.value))
    && (rel.continuous ==> forall v, b: nat :: v in rel.origvars && PointsTo(v, rel.representative, b) ==>
          b < rel.nblocks && |rel.BlockCandidates(b)| > 0)
  }

  /** Error code, read outside the table of blocks, direct branching, children in a block, or calls without end. */
  datatype Outcome =
    | Failed
    | OutsideBlocks
    | BranchDirectly(up: NodeData, down: NodeData)
    | Split(block: nat, children: seq<Child>)
    | Endless(block: nat)

  ghost function Unchecked(nblocks: nat, checked: seq<nat>): set<nat> {
    set b: nat | b < nblocks && b !in checked
  }

  /** The selection on which the attempts settle: a block without a sequence is checked, and another one tried. */
  ghost function Final(rel: Relaxation, path: Path, checked: seq<nat>): Selection
    decreases Unchecked(rel.nblocks, checked)
  {
    var s := rel.Select(checked);
    if s.InBlockNr? && s.nr < rel.nblocks && s.nr !in checked && rel.FoundIn(path, s.nr) == [] then
      OneMoreChecked(rel.nblocks, checked, s.nr);
      Final(rel, path, checked + [s.nr])
    else s
  }

  lemma OneMoreChecked(nblocks: nat, checked: seq<nat>, b: nat)
    requires b < nblocks && b !in checked
    ensures Unchecked(nblocks, checked + [b]) < Unchecked(nblocks, checked)
  {
    assert b in Unchecked(nblocks, checked) && b !in Unchecked(nblocks, checked + [b]);
  }

  ghost predicate SplitsBy(rel: Relaxation, path: Path, K: nat -> int, block: nat, children: seq<Child>) {
    exists k :: FirstShortest(rel.FoundIn(path, block), k) &&
      SplitInto(children, Situation(rel.mastervars, rel.Candidates(), block, rel.integer, rel.FoundIn(path, block)[k]),
                path, K)
  }

  ghost predicate Settles(rel: Relaxation, path: Path, K: nat -> int, s: Selection, o: Outcome) {
    match s
    case NoBlock => o.Failed?
    case OutOfRange => o.OutsideBlocks?
    case DirectCopy(c) =>
      o == BranchDirectly(NodeData.Direct(c.id, GE, DirectBound(c.value)),
                          NodeData.Direct(c.id, LT, DirectBound(c.value)))
    case InBlockNr(b) =>
      if rel.FoundIn(path, b) == [] then o == Endless(b)
      else o.Split? && o.block == b && SplitsBy(rel, path, K, b, o.children)
  }

  method SelectBlock(rel: Relaxation, checked: seq<nat>) returns (s: Selection)
    ensures s == rel.Select(checked)
  {
    if rel.continuous {
      s := SelectFromOriginals(rel.origvars, rel.representative, checked);
    } else {
      s := SelectFromCandidates(rel.branchcands, checked, rel.nblocks);
    }
  }

  /** A selected block is one of the table and has a fractional candidate. */
  lemma SelectedInhabited(rel: Relaxation, K: nat -> int, checked: seq<nat>)
    requires Sound(rel, K) && rel.Select(checked).InBlockNr?
    ensures var b := rel.Select(checked).nr;
      b < rel.nblocks && |rel.BlockCandidates(b)| > 0 && (b in checked ==> rel.continuous)
  {
    var b := rel.Select(checked).nr;
    if rel.continuous {
      SelectedFromOriginals(rel.origvars, rel.representative, checked, NoBlock);
    } else {
      SelectedFromCandidates(rel.branchcands, checked, rel.nblocks);
      var c :| c in rel.branchcands && InBlock(c, b);
      FractionalMember(rel.branchcands, b, c);
    }
  }

  lemma {:induction false} FractionalMember(columns: seq<Column>, block: nat, c: Column)
    ensures c in FractionalColumns(columns, block) <==> c in columns && IsCandidate(c, block)
  {
    if |columns| > 0 {
      FractionalMember(columns[..|columns| - 1], block, c);
      assert columns == columns[..|columns| - 1] + [columns[|columns| - 1]];
    }
  }

  /** The search in one block, from scratch. */
  method SearchBlock(rel: Relaxation, path: Path, block: nat) returns (S: Option<Sequence>)
    requires forall k :: 0 <= k < |rel.Candidates()| ==> ProperColumn(rel.Candidates()[k])
    requires |rel.BlockCandidates(block)| > 0
    ensures var R := rel.FoundIn(path, block);
      if R == [] then S.None? else S.Some? && exists k :: FirstShortest(R, k) && S.value == R[k]
  {
    var F := CollectFractional(rel.Candidates(), block);
    FractionalColumnsProper(rel.Candidates(), block);
    var C := CollectSequences(path, block);
    S := ChooseSeparateMethod(F, C, rel.integer);
  }

  /**
   * Branches on an LP solution. A block is selected and searched; when nothing is found there, it counts as checked and
   * the procedure calls itself. If a block is selected that has been checked already, it would do so forever.
   */
  method InitBranch(rel: Relaxation, path: Path, K: nat -> int, checked: seq<nat>) returns (o: Outcome)
    requires Sound(rel, K) && forall b :: b in checked ==> rel.FoundIn(path, b) == []
    ensures Settles(rel, path, K, Final(rel, path, checked), o)
    decreases Unchecked(rel.nblocks, checked)
  {
    var s := SelectBlock(rel, checked);
    match s {
      case NoBlock => return Failed;
      case OutOfRange => return OutsideBlocks;
      case DirectCopy(c) =>
        var bound := DirectBound(c.value);
        return BranchDirectly(NodeData.Direct(c.id, GE, bound), NodeData.Direct(c.id, LT, bound));
      case InBlockNr(b) =>
        SelectedInhabited(rel, K, checked);
        var isChecked := IsChecked(checked, b);
        if isChecked { return Endless(b); }
        var S := SearchBlock(rel, path, b);
        if S.None? {
          OneMoreChecked(rel.nblocks, checked, b);
          o := InitBranch(rel, path, K, checked + [b]);
        } else {
          var children := BranchOn(rel.mastervars, rel.Candidates(), path, b, K, K(b), rel.integer, S.value);
          o := Split(b, children);
        }
    }
  }

  // ---------- what it settles on ----------

  /** Every checked block has been searched in vain. */
  ghost predicate InVain(rel: Relaxation, path: Path, checked: seq<nat>) {
    forall b :: b in checked ==> rel.FoundIn(path, b) == []
  }

  /** Some candidate of the block, among those that the LP hands out. */
  ghost predicate HasCandidate(rel: Relaxation, b: nat) {
    exists c :: c in rel.branchcands && InBlock(c, b)
  }

  /**
   * Without continuous variables: direct branching exactly if some candidate is a direct copy, an error exactly if none
   * is and every block with a candidate is searched in vain, and otherwise a split in a block. The calls always end.
   */
  lemma {:induction false} FinalFromCandidates(rel: Relaxation, path: Path, checked: seq<nat>)
    requires !rel.continuous && InVain(rel, path, checked)
    ensures var s := Final(rel, path, checked);
      && (s.DirectCopy? <==> exists c :: c in rel.branchcands && c.block == -1)
      && (s.NoBlock? <==> (forall c :: c in rel.branchcands ==> c.block != -1) &&
                          forall b: nat :: b < rel.nblocks && HasCandidate(rel, b) ==> rel.FoundIn(path, b) == [])
      && (s.InBlockNr? ==> s.nr < rel.nblocks && HasCandidate(rel, s.nr) && rel.FoundIn(path, s.nr) != [])
      && !s.OutOfRange?
    decreases Unchecked(rel.nblocks, checked)
  {
    var s := rel.Select(checked);
    SelectedFromCandidates(rel.branchcands, checked, rel.nblocks);
    if s.InBlockNr? {
      if rel.FoundIn(path, s.nr) == [] {
        OneMoreChecked(rel.nblocks, checked, s.nr);
        FinalFromCandidates(rel, path, checked + [s.nr]);
      }
    } else if s.NoBlock? {
      NothingMatters(rel, path, checked);
    }
  }

  /**
   * Which block without continuous variables: it is one of candidate i, all blocks of later candidates have been
   * searched in vain, and so have the blocks of candidate i with smaller numbers.
   */
  lemma {:induction false} FinalIsLastCandidate(rel: Relaxation, path: Path, checked: seq<nat>) returns (i: nat)
    requires !rel.continuous && InVain(rel, path, checked) && Final(rel, path, checked).InBlockNr?
    ensures i < |rel.branchcands| && InBlock(rel.branchcands[i], Final(rel, path, checked).nr)
    ensures forall d: nat :: d < Final(rel, path, checked).nr && InBlock(rel.branchcands[i], d) ==>
              rel.FoundIn(path, d) == []
    ensures forall j, d: nat :: i < j < |rel.branchcands| && d < rel.nblocks && InBlock(rel.branchcands[j], d) ==>
              rel.FoundIn(path, d) == []
    decreases Unchecked(rel.nblocks, checked)
  {
    var s := rel.Select(checked);
    SelectedFromCandidates(rel.branchcands, checked, rel.nblocks);
    i := 0;
    if s.InBlockNr? {
      if rel.FoundIn(path, s.nr) == [] {
        OneMoreChecked(rel.nblocks, checked, s.nr);
        i := FinalIsLastCandidate(rel, path, checked + [s.nr]);
      } else {
        i := LastCandidateDecides(rel.branchcands, checked, rel.nblocks);
      }
    }
  }

  /**
   * Which block with continuous variables, when something is found there: that of the first fractional integer variable
   * whose block has not been searched in vain.
   */
  lemma {:induction false} FinalIsFirstVariable(rel: Relaxation, path: Path, K: nat -> int, checked: seq<nat>)
    returns (i: nat)
    requires Sound(rel, K) && rel.continuous && InVain(rel, path, checked) && Final(rel, path, checked).InBlockNr?
    requires rel.FoundIn(path, Final(rel, path, checked).nr) != []
    ensures i < |rel.origvars| && PointsTo(rel.origvars[i], rel.representative, Final(rel, path, checked).nr)
    ensures forall j :: 0 <= j < i && IsFractionalInteger(rel.origvars[j]) ==>
              0 <= rel.origvars[j].block < |rel.representative| &&
              rel.FoundIn(path, rel.representative[rel.origvars[j].block]) == []
    decreases Unchecked(rel.nblocks, checked)
  {
    var s := rel.Select(checked);
    SelectedInhabited(rel, K, checked);
    if s.nr !in checked && rel.FoundIn(path, s.nr) == [] {
      OneMoreChecked(rel.nblocks, checked, s.nr);
      i := FinalIsFirstVariable(rel, path, K, checked + [s.nr]);
    } else {
      FirstOpenDecides(rel.origvars, rel.representative, checked, NoBlock, s.nr);
      i :| FirstOpenAt(rel.origvars, rel.representative, checked, i) &&
           rel.representative[rel.origvars[i].block] == s.nr;
    }
  }

  /** The assertion on direct branching, that the copy is not a linking one, fails exactly if the first copy is one. */
  lemma FinalIsLinking(rel: Relaxation, path: Path, checked: seq<nat>)
    requires !rel.continuous
    ensures Final(rel, path, checked).DirectCopy? && Final(rel, path, checked).col.linkingBlocks != {} <==>
            exists i: nat :: FirstCopyAt(rel.branchcands, i) && rel.branchcands[i].linkingBlocks != {}
    decreases Unchecked(rel.nblocks, checked)
  {
    SelectedFromCandidates(rel.branchcands, checked, rel.nblocks);
    if i: nat :| FirstCopyAt(rel.branchcands, i) {
      FirstCopySelected(rel.branchcands, checked, rel.nblocks, i);
    } else {
      var s := rel.Select(checked);
      if c :| c in rel.branchcands && c.block == -1 { SomeFirstCopy(rel.branchcands, c); }
      if s.InBlockNr? && s.nr !in checked && rel.FoundIn(path, s.nr) == [] {
        OneMoreChecked(rel.nblocks, checked, s.nr);
        FinalIsLinking(rel, path, checked + [s.nr]);
      }
    }
  }

  lemma NothingMatters(rel: Relaxation, path: Path, checked: seq<nat>)
    requires InVain(rel, path, checked) && forall c :: c in rel.branchcands ==> !Matters(c, checked, rel.nblocks)
    ensures forall c :: c in rel.branchcands ==> c.block != -1
    ensures forall b: nat :: b < rel.nblocks && HasCandidate(rel, b) ==> rel.FoundIn(path, b) == []
  {
    forall b: nat | b < rel.nblocks && HasCandidate(rel, b) ensures rel.FoundIn(path, b) == [] {
      var c :| c in rel.branchcands && InBlock(c, b);
      assert !Matters(c, checked, rel.nblocks);
    }
  }

  lemma {:induction false} LinkingAreIntegral(columns: seq<Column>, block: nat)
    requires forall c :: c in FractionalColumns(columns, block) ==> c.block != -1
    ensures Integral(LinkingColumns(columns, block))
  {
    if |columns| > 0 {
      var front, c := columns[..|columns| - 1], columns[|columns| - 1];
      FractionalMember(columns, block, c);
      forall d | d in FractionalColumns(front, block) ensures d.block != -1 {
        assert d in FractionalColumns(columns, block);
      }
      LinkingAreIntegral(front, block);
      assert c in columns;
    }
  }

  /**
   * Without continuous variables a block is selected only if its linking columns are integral: every split is safe, and
   * the assertions on the masses hold.
   */
  lemma SplitsAreSafe(rel: Relaxation, path: Path, K: nat -> int, checked: seq<nat>, S: Sequence)
    requires Sound(rel, K) && !rel.continuous && InVain(rel, path, checked) && Final(rel, path, checked).InBlockNr?
    ensures SafeSplit(Situation(rel.mastervars, rel.Candidates(), Final(rel, path, checked).nr, rel.integer, S), path)
  {
    var b := Final(rel, path, checked).nr;
    FinalFromCandidates(rel, path, checked);
    forall c | c in FractionalColumns(rel.mastervars, b) ensures c.block != -1 {
      assert c in multiset(rel.BlockCandidates(b));
      FractionalMember(rel.branchcands, b, c);
    }
    LinkingAreIntegral(rel.mastervars, b);
    MassIntegral(LinkingColumns(rel.mastervars, b), []);
  }

  /** Every fractional integer variable lies in a block whose representative is searched in vain. */
  ghost predicate AllInVain(rel: Relaxation, path: Path) {
    forall v :: v in rel.origvars && IsFractionalInteger(v) ==>
      0 <= v.block < |rel.representative| && rel.FoundIn(path, rel.representative[v.block]) == []
  }

  /**
   * With continuous variables: an error exactly if no integer variable is fractional, and endless calls exactly if some
   * is, but all of them lie in blocks that are searched in vain.
   */
  lemma {:induction false} FinalFromOriginals(rel: Relaxation, path: Path, K: nat -> int, checked: seq<nat>)
    requires Sound(rel, K) && rel.continuous && InVain(rel, path, checked)
    ensures var s := Final(rel, path, checked);
      && (s.NoBlock? <==> forall v :: v in rel.origvars ==> !IsFractionalInteger(v))
      && (s.InBlockNr? && rel.FoundIn(path, s.nr) == [] <==>
            AllInVain(rel, path) && exists v :: v in rel.origvars && IsFractionalInteger(v))
      && !s.DirectCopy?
    decreases Unchecked(rel.nblocks, checked)
  {
    var s := rel.Select(checked);
    SelectedFromOriginals(rel.origvars, rel.representative, checked, NoBlock);
    OriginalsInVain(rel.origvars, rel, path, checked, NoBlock);
    if s.InBlockNr? {
      SelectedInhabited(rel, K, checked);
      var v :| v in rel.origvars && PointsTo(v, rel.representative, s.nr);
      if s.nr !in checked && rel.FoundIn(path, s.nr) == [] {
        OneMoreChecked(rel.nblocks, checked, s.nr);
        FinalFromOriginals(rel, path, K, checked + [s.nr]);
      }
    } else if s.NoBlock? {
      assert forall v :: v in rel.origvars ==> !IsFractionalInteger(v);
    }
  }

  /** If all are searched in vain, the loop over the variables never leaves the table. */
  lemma {:induction false} OriginalsInVain(vars: seq<OrigVar>, rel: Relaxation, path: Path, checked: seq<nat>,
                                           last: Selection)
    requires last.NoBlock? || last.InBlockNr?
    ensures var s := FromOriginals(vars, rel.representative, checked, last);
      (forall v :: v in vars && IsFractionalInteger(v) ==>
         0 <= v.block < |rel.representative| && rel.FoundIn(path, rel.representative[v.block]) == []) ==>
      !s.OutOfRange?
  {
    if |vars| > 0 {
      var v, rest := vars[0], vars[1..];
      assert vars == [v] + rest;
      OriginalsInVain(rest, rel, path, checked, last);
      if IsFractionalInteger(v) && 0 <= v.block < |rel.representative| {
        OriginalsInVain(rest, rel, path, checked, InBlockNr(rel.representative[v.block]));
      }
    }
  }

  /** Position i holds a fractional integer variable outside the table; those before lie in blocks searched in vain. */
  ghost predicate OutsideAt(rel: Relaxation, path: Path, i: nat) {
    && i < |rel.origvars| && IsFractionalInteger(rel.origvars[i])
    && !(0 <= rel.origvars[i].block < |rel.representative|)
    && forall j :: 0 <= j < i && IsFractionalInteger(rel.origvars[j]) ==>
         0 <= rel.origvars[j].block < |rel.representative| &&
         rel.FoundIn(path, rel.representative[rel.origvars[j].block]) == []
  }

  /** With continuous variables the table of representatives is read outside its range exactly in that case. */
  lemma {:induction false} FinalOutside(rel: Relaxation, path: Path, K: nat -> int, checked: seq<nat>)
    requires Sound(rel, K) && rel.continuous && InVain(rel, path, checked)
    ensures Final(rel, path, checked).OutOfRange? <==> exists i: nat :: OutsideAt(rel, path, i)
    decreases Unchecked(rel.nblocks, checked)
  {
    var s := rel.Select(checked);
    LeavesTable(rel.origvars, rel.representative, checked, NoBlock);
    SelectedFromOriginals(rel.origvars, rel.representative, checked, NoBlock);
    if s.OutOfRange? {
      var i: nat :| LeavesAt(rel.origvars, rel.representative, checked, i);
      assert OutsideAt(rel, path, i);
    } else if s.InBlockNr? {
      SelectedInhabited(rel, K, checked);
      if s.nr !in checked && rel.FoundIn(path, s.nr) == [] {
        OneMoreChecked(rel.nblocks, checked, s.nr);
        FinalOutside(rel, path, K, checked + [s.nr]);
      } else if i: nat :| OutsideAt(rel, path, i) {
        FirstDecides(rel.origvars, rel, path, checked, NoBlock, i);
      }
    }
  }

  /** A variable outside the table decides, if every block before it has been searched in vain. */
  lemma {:induction false} FirstDecides(vars: seq<OrigVar>, rel: Relaxation, path: Path, checked: seq<nat>,
                                        last: Selection, i: nat)
    requires i < |vars| && IsFractionalInteger(vars[i]) && !(0 <= vars[i].block < |rel.representative|)
    requires forall j :: 0 <= j < i && IsFractionalInteger(vars[j]) ==>
      0 <= vars[j].block < |rel.representative| && rel.FoundIn(path, rel.representative[vars[j].block]) == []
    ensures var s := FromOriginals(vars, rel.representative, checked, last);
      s.OutOfRange? || (s.InBlockNr? && s.nr !in checked && rel.FoundIn(path, s.nr) == [])
    decreases |vars|
  {
    if i > 0 {
      var next := if !IsFractionalInteger(vars[0]) then last else InBlockNr(rel.representative[vars[0].block]);
      assert vars[1..][i - 1] == vars[i];
      forall j | 0 <= j < i - 1 && IsFractionalInteger(vars[1..][j])
        ensures 0 <= vars[1..][j].block < |rel.representative|
        ensures rel.FoundIn(path, rel.representative[vars[1..][j].block]) == []
      {
        assert vars[1..][j] == vars[j + 1];
      }
      FirstDecides(vars[1..], rel, path, checked, next, i - 1);
    }
  }

  function Repeated(b: nat, n: nat): (s: seq<nat>)
    ensures |s| == n
  {
    seq(n, i => b)
  }

  /** Endless calls: however often the block has been checked, it is selected again. */
  lemma {:induction false} EndlessForever(rel: Relaxation, checked: seq<nat>, b: nat, n: nat)
    requires rel.continuous && rel.Select(checked) == InBlockNr(b) && b in checked
    ensures rel.Select(checked + Repeated(b, n)) == InBlockNr(b)
  {
    if n == 0 {
      assert checked + Repeated(b, 0) == checked;
    } else {
      EndlessForever(rel, checked, b, n - 1);
      assert checked + Repeated(b, n) == (checked + Repeated(b, n - 1)) + [b];
      CheckedAgain(rel.origvars, rel.representative, checked + Repeated(b, n - 1), b, NoBlock);
    }
  }

  // ---------- which blocks are searched in vain ----------

  /** The sequences that the path carries bound integer variables only. */
  ghost predicate IntegerPath(path: Path, integer: set<nat>) {
    forall k, q :: 0 <= k < |path| && path[k].Generic? && 0 <= q < |path[k].consS| ==>
      path[k].consS[q].component in integer
  }

  /** Branching keeps it so. */
  lemma ChildIsInteger(path: Path, F: seq<Column>, block: nat, integer: set<nat>, S: Sequence, p: nat, lhs: real)
    requires IntegerPath(path, integer) && S in FoundOn(path, F, block, integer) && p <= |S|
    ensures IntegerPath([Generic(block, ChildSequence(S, p), lhs)] + path, integer)
  {
    FoundOnInteger(path, F, block, integer);
    forall q | 0 <= q < |ChildSequence(S, p)| ensures ChildSequence(S, p)[q].component in integer {
      SameComponents(S, p, q);
    }
    IntegerPathGrows(path, block, ChildSequence(S, p), lhs, integer);
  }

  lemma IntegerPathGrows(path: Path, block: nat, T: Sequence, lhs: real, integer: set<nat>)
    requires IntegerPath(path, integer) && forall q :: 0 <= q < |T| ==> T[q].component in integer
    ensures IntegerPath([Generic(block, T, lhs)] + path, integer)
  {
    var child := [Generic(block, T, lhs)] + path;
    forall k, q | 0 <= k < |child| && child[k].Generic? && 0 <= q < |child[k].consS|
      ensures child[k].consS[q].component in integer
    {
      if k > 0 { assert child[k] == path[k - 1]; }
    }
  }

  lemma SameComponents(S: Sequence, p: nat, q: nat)
    requires p <= |S| && q < |ChildSequence(S, p)|
    ensures q < |S| && ChildSequence(S, p)[q].component == S[q].component
  {
  }

  lemma FoundOnInteger(path: Path, F: seq<Column>, block: nat, integer: set<nat>)
    requires IntegerPath(path, integer)
    ensures IntegerBounds(FoundOn(path, F, block, integer), integer)
  {
    var I := IndexSet(F, integer);
    IndexSetElements(F, integer);
    UnionIsInteger(F, integer);
    forall i | i in I ensures i in integer { assert i in Elements(I); }
    CollectedInteger(path, block, [], integer);
    FoundInteger(Collect(path, block, []), F, I, integer);
  }

  lemma {:induction false} CollectedInteger(path: Path, block: nat, C: seq<Sequence>, integer: set<nat>)
    requires IntegerPath(path, integer) && IntegerBounds(C, integer)
    ensures IntegerBounds(Collect(path, block, C), integer)
    decreases |path|
  {
    if |path| > 0 {
      CollectedInteger(path[1..], block, C, integer);
      if path[0].Generic? {
        CollectedInteger(path[1..], block, if path[0].consS in C then C else C + [path[0].consS], integer);
      }
    }
  }

  /**
   * A block is searched in vain if no integer variable occurs in its fractional columns, or every class of them that
   * agrees on the integer variables has integral total value; and only then if those totals are positive.
   */
  lemma FoundIffClassFractional(rel: Relaxation, path: Path, block: nat)
    requires IntegerPath(path, rel.integer)
    ensures var F, I := rel.BlockCandidates(block), IndexSet(rel.BlockCandidates(block), rel.integer);
      && (I == [] || ClassesIntegral(F, I) ==> rel.FoundIn(path, block) == [])
      && (ClassesPositive(F, I) ==> (rel.FoundIn(path, block) == [] <==> I == [] || ClassesIntegral(F, I)))
  {
    var F, C := rel.BlockCandidates(block), Collect(path, block, []);
    var I := IndexSet(F, rel.integer);
    CollectedInteger(path, block, [], rel.integer);
    forall A: Sequence, q | A in C && 0 <= q < |A| ensures A[q].component in I || Agree(F, A[q].component) {
      if A[q].component !in I {
        forall k | 0 <= k < |F| ensures GeneratorEntry(F[k], A[q].component) == GeneratorEntry(F[0], A[q].component) {
          ZeroOutside(F, rel.integer, k, A[q].component);
          ZeroOutside(F, rel.integer, 0, A[q].component);
        }
      }
    }
    SearchSucceeds(C, F, I);
  }

  /** Nonnegative candidates have positive classes. */
  lemma CandidatesPositive(F: seq<Column>, block: nat, I: seq<nat>)
    requires forall k :: 0 <= k < |F| ==> IsCandidate(F[k], block) && F[k].value >= 0.0
    ensures ClassesPositive(F, I)
  {
    IntIsInt(0);
    FractionalClasses(F, I);
  }
}

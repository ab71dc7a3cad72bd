/**
 * Branching on the original solution that is assembled from the master solution: with positive classes, the procedure
 * never calls itself without end.
 */
module OriginalSolution {
  import opened Numbers
  import opened Columns
  import opened Separation
  import opened Search
  import opened Completeness
  import opened BranchTree
  import opened BlockSelection
  import opened GenericBranching
  import opened InducedOrder
  import opened Disaggregation

  // ---------- the integer variables ----------

  function IntegerOnes(vars: seq<nat>, integer: set<nat>): seq<nat> {
    if |vars| == 0 then []
    else IntegerOnes(vars[..|vars| - 1], integer) + if vars[|vars| - 1] in integer then [vars[|vars| - 1]] else []
  }

  lemma {:induction false} IntegerOnesCompared(vars: seq<nat>, integer: set<nat>)
    ensures Compared(IntegerOnes(vars, integer), vars, integer)
  {
    if |vars| > 0 {
      IntegerOnesCompared(vars[..|vars| - 1], integer);
      assert vars == vars[..|vars| - 1] + [vars[|vars| - 1]];
    }
  }

  /** The columns agree on all integer variables. */
  ghost predicate Alike(c: Column, d: Column, integer: set<nat>) {
    forall v :: v in integer ==> GeneratorEntry(c, v) == GeneratorEntry(d, v)
  }

  ghost predicate AllInteger(I: seq<nat>, integer: set<nat>) {
    forall v :: v in I <==> v in integer
  }

  lemma SameIsAlike(c: Column, d: Column, I: seq<nat>, integer: set<nat>)
    requires AllInteger(I, integer)
    ensures SameOn(c, d, I) <==> Alike(c, d, integer)
  {
    if SameOn(c, d, I) {
      forall v | v in integer ensures GeneratorEntry(c, v) == GeneratorEntry(d, v) {
        assert v in I;
        var k :| 0 <= k < |I| && I[k] == v;
      }
    }
    if Alike(c, d, integer) {
      forall k | 0 <= k < |I| ensures GeneratorEntry(c, I[k]) == GeneratorEntry(d, I[k]) { assert I[k] in I; }
    }
  }

  // ---------- the classes of the columns of a block ----------

  /** No integer variable occurs in the column. */
  ghost predicate IntegerZero(c: Column, integer: set<nat>) {
    forall v :: v in integer ==> GeneratorEntry(c, v) == 0
  }

  /** On the fractional columns of the block: classes on all integer variables, if not zero, are integral. */
  lemma FractionalClassIntegral(F: seq<Column>, integer: set<nat>, I: seq<nat>, c: Column)
    requires AllInteger(I, integer) && !IntegerZero(c, integer)
    requires IndexSet(F, integer) == [] || ClassesIntegral(F, IndexSet(F, integer))
    ensures IsInt(ClassMass(F, I, c))
  {
    var J := IndexSet(F, integer);
    if x :| 0 <= x < |F| && SameOn(F[x], c, I) {
      SameIsAlike(F[x], c, I, integer);
      if J == [] {
        forall v | v in integer ensures GeneratorEntry(c, v) == 0 { ZeroOutside(F, integer, x, v); }
        assert false;
      } else {
        forall d | d in F ensures SameOn(d, c, I) <==> SameOn(d, F[x], J) {
          var y :| 0 <= y < |F| && F[y] == d;
          SameIsAlike(d, c, I, integer);
          IndexSetDistinguishes(F, integer, y, x);
        }
        SameClass(F, I, c, J, F[x]);
        assert F[x] in F;
      }
    } else {
      IntIsInt(0);
      NoneSame(F, I, c);
    }
  }

  lemma {:induction false} SameClass(F: seq<Column>, I: seq<nat>, c: Column, J: seq<nat>, d: Column)
    requires forall e :: e in F ==> (SameOn(e, c, I) <==> SameOn(e, d, J))
    ensures ClassMass(F, I, c) == ClassMass(F, J, d)
  {
    if |F| > 0 {
      SameClass(F[..|F| - 1], I, c, J, d);
      assert F[|F| - 1] in F;
    }
  }

  /** Copies whose values are fractional are those of continuous variables. */
  ghost predicate FractionalCopiesZero(columns: seq<Column>, integer: set<nat>) {
    forall c :: c in columns && c.block == -1 && !IsInt(c.value) ==> IntegerZero(c, integer)
  }

  lemma {:induction false} LinkingClassIntegral(columns: seq<Column>, block: nat, integer: set<nat>, I: seq<nat>,
                                                c: Column)
    requires AllInteger(I, integer) && !IntegerZero(c, integer) && FractionalCopiesZero(columns, integer)
    ensures IsInt(ClassMass(LinkingColumns(columns, block), I, c))
  {
    IntIsInt(0);
    if |columns| > 0 {
      var front, d := columns[..|columns| - 1], columns[|columns| - 1];
      assert d in columns && forall e :: e in front ==> e in columns;
      LinkingClassIntegral(front, block, integer, I, c);
      SameIsAlike(d, c, I, integer);
      ClassOneMore(LinkingColumns(front, block), d, I, c);
      NoMore(LinkingColumns(front, block));
      if IsInt(d.value) { IntClosed(ClassMass(LinkingColumns(front, block), I, c), d.value); }
    }
  }

  /** The own columns of the block, fractional or not: classes that are not zero are integral. */
  lemma OwnClassIntegral(columns: seq<Column>, block: nat, integer: set<nat>, I: seq<nat>, c: Column)
    requires AllInteger(I, integer) && !IntegerZero(c, integer) && FractionalCopiesZero(columns, integer)
    requires var F := FractionalColumns(columns, block);
      IndexSet(F, integer) == [] || ClassesIntegral(F, IndexSet(F, integer))
    ensures IsInt(ClassMass(OwnColumns(columns, block), I, c))
  {
    FractionalClassIntegral(FractionalColumns(columns, block), integer, I, c);
    LinkingClassIntegral(columns, block, integer, I, c);
    ClassAsMass(FractionalColumns(columns, block), I, c);
    ClassAsMass(LinkingColumns(columns, block), I, c);
    ClassAsMass(OwnColumns(columns, block), I, c);
    OwnMassIntegral(columns, block, Pin(c, I));
  }

  lemma OwnMassIntegral(columns: seq<Column>, block: nat, T: Sequence)
    requires IsInt(Mass(FractionalColumns(columns, block), T)) && IsInt(Mass(LinkingColumns(columns, block), T))
    ensures IsInt(Mass(OwnColumns(columns, block), T))
  {
    var F, R := FractionalColumns(columns, block), IntegralColumns(columns, block);
    BlockMassSplits(columns, block, T);
    MassOfShares(columns, block, T);
    MassIntegral(R, T);
    IntegralDifference(Mass(F, T), Mass(R, T), Mass(LinkingColumns(columns, block), T),
                       Mass(OwnColumns(columns, block), T));
  }

  lemma MassOfShares(columns: seq<Column>, block: nat, T: Sequence)
    ensures Mass(BlockColumns(columns, block), T) ==
            Mass(FractionalColumns(columns, block), T) + Mass(IntegralColumns(columns, block), T)
  {
    BlockShares(columns, block);
    MassPermuted(BlockColumns(columns, block), FractionalColumns(columns, block) + IntegralColumns(columns, block), T);
    MassAppend(FractionalColumns(columns, block), IntegralColumns(columns, block), T);
  }

  lemma IntegralDifference(f: real, r: real, l: real, o: real)
    requires IsInt(f) && IsInt(r) && IsInt(l) && f + r == o + l
    ensures IsInt(o)
  {
    IntClosed(f, r);
    IntClosed(f + r, l);
  }

  /** Hence all classes of the own columns are integral: what is left over for the zero one is an integer. */
  lemma OwnClassesIntegral(columns: seq<Column>, block: nat, integer: set<nat>, I: seq<nat>, n: nat)
    requires AllInteger(I, integer) && FractionalCopiesZero(columns, integer)
    requires var F := FractionalColumns(columns, block);
      IndexSet(F, integer) == [] || ClassesIntegral(F, IndexSet(F, integer))
    requires Mass(OwnColumns(columns, block), []) == n as real
    ensures ClassesIntegral(OwnColumns(columns, block), I)
  {
    var G := OwnColumns(columns, block);
    forall c | c in G ensures IsInt(ClassMass(G, I, c)) {
      if IntegerZero(c, integer) {
        ZeroClassIntegral(columns, block, integer, I, n, c);
      } else {
        OwnClassIntegral(columns, block, integer, I, c);
      }
    }
  }

  lemma ZeroClassIntegral(columns: seq<Column>, block: nat, integer: set<nat>, I: seq<nat>, n: nat, c: Column)
    requires AllInteger(I, integer) && FractionalCopiesZero(columns, integer) && IntegerZero(c, integer)
    requires var F := FractionalColumns(columns, block);
      IndexSet(F, integer) == [] || ClassesIntegral(F, IndexSet(F, integer))
    requires Mass(OwnColumns(columns, block), []) == n as real
    ensures IsInt(ClassMass(OwnColumns(columns, block), I, c))
  {
    var G := OwnColumns(columns, block);
    forall d | d in G && !SameOn(d, c, I) ensures IsInt(ClassMass(G, I, d)) {
      SameIsAlike(d, c, I, integer);
      OwnClassIntegral(columns, block, integer, I, d);
    }
    IntIsInt(n);
    LastClassIntegral(G, I, c);
  }

  /** If the total and all other classes are integral, so is the last class. */
  lemma LastClassIntegral(G: seq<Column>, I: seq<nat>, c: Column)
    requires IsInt(Mass(G, [])) && forall d :: d in G && !SameOn(d, c, I) ==> IsInt(ClassMass(G, I, d))
    ensures IsInt(ClassMass(G, I, c))
  {
    OthersIntegral(G, I, c);
    MassWithoutClass(G, I, [], c);
    IntClosed(Mass(G, []), Mass(Others(G, I, c), []));
  }

  lemma OthersIntegral(G: seq<Column>, I: seq<nat>, c: Column)
    requires forall d :: d in G && !SameOn(d, c, I) ==> IsInt(ClassMass(G, I, d))
    ensures IsInt(Mass(Others(G, I, c), []))
  {
    var H := Others(G, I, c);
    OthersMembers(G, I, c);
    forall d | d in H ensures IsInt(ClassMass(H, I, d)) { ClassOfOthers(G, I, c, d); }
    UnionIntegral(H, I, []);
  }

  // ---------- sorting ----------

  lemma {:induction false} OwnCount(A: seq<Column>, block: nat, c: Column)
    ensures multiset(OwnColumns(A, block))[c] == if c.block == block then multiset(A)[c] else 0
  {
    if |A| > 0 {
      OwnCount(A[..|A| - 1], block, c);
      assert A == A[..|A| - 1] + [A[|A| - 1]];
    }
  }

  lemma OwnPermuted(A: seq<Column>, B: seq<Column>, block: nat)
    requires multiset(A) == multiset(B)
    ensures multiset(OwnColumns(A, block)) == multiset(OwnColumns(B, block))
  {
    forall c ensures multiset(OwnColumns(A, block))[c] == multiset(OwnColumns(B, block))[c] {
      OwnCount(A, block, c);
      OwnCount(B, block, c);
    }
  }

  lemma ClassesPermuted(A: seq<Column>, B: seq<Column>, I: seq<nat>)
    requires multiset(A) == multiset(B) && ClassesIntegral(A, I)
    ensures ClassesIntegral(B, I)
  {
    forall c | c in B ensures IsInt(ClassMass(B, I, c)) {
      assert c in multiset(B);
      ClassAsMass(A, I, c);
      ClassAsMass(B, I, c);
      MassPermuted(A, B, Pin(c, I));
    }
  }

  lemma {:induction false} SortedOwn(cols: seq<Column>, block: nat, vars: seq<nat>, integer: set<nat>)
    requires Sorted(cols, vars, integer)
    ensures Sorted(OwnColumns(cols, block), vars, integer)
    ensures forall c :: c in OwnColumns(cols, block) ==> c in cols
  {
    if |cols| > 0 {
      var front, d := cols[..|cols| - 1], cols[|cols| - 1];
      assert Sorted(front, vars, integer);
      SortedOwn(front, block, vars, integer);
      var G := OwnColumns(front, block);
      forall j | 0 <= j < |G| ensures PtrComp(G[j], d, vars, integer) <= 0 {
        assert G[j] in G;
        var k :| 0 <= k < |front| && front[k] == G[j];
      }
      assert d in cols && forall c :: c in front ==> c in cols;
    }
  }

  // ---------- the values of the original variables ----------

  /**
   * The original solution comes from the master solution: cols are the master variables in sorted order; rep(x) is the
   * variable that stands for original variable x in the representative of its block, pos(x) the position of its block
   * among the identical ones. A fractional copy shows in its variable, which is in no single block.
   */
  ghost predicate FromMaster(rel: Relaxation, K: nat -> int, cols: seq<Column>, vars: seq<nat>, rep: nat -> nat,
                             pos: nat -> nat) {
    && multiset(cols) == multiset(rel.mastervars) && Sorted(cols, vars, rel.integer)
    && (forall v :: v in rel.integer ==> v in vars)
    && (forall x: nat :: x < |rel.origvars| && InTable(rel, x) ==> ValueIs(rel, K, cols, x, rep(x), pos(x)))
    && (!FractionalCopiesZero(rel.mastervars, rel.integer) ==>
          exists x: nat :: x < |rel.origvars| && IsFractionalInteger(rel.origvars[x]) && !InTable(rel, x))
  }

  ghost predicate InTable(rel: Relaxation, x: nat)
    requires x < |rel.origvars|
  {
    IsFractionalInteger(rel.origvars[x]) && 0 <= rel.origvars[x].block < |rel.representative|
  }

  ghost predicate ValueIs(rel: Relaxation, K: nat -> int, cols: seq<Column>, x: nat, v: nat, p: nat)
    requires x < |rel.origvars| && InTable(rel, x)
  {
    var b := rel.representative[rel.origvars[x].block];
    && v in rel.integer && p < K(b) && NonnegativeValues(OwnColumns(cols, b))
    && rel.origvars[x].value == Assembled(OwnColumns(cols, b), v, K(b))[p]
  }

  ghost predicate PositiveBlocks(rel: Relaxation) {
    forall b: nat :: b < rel.nblocks ==>
      ClassesPositive(rel.BlockCandidates(b), IndexSet(rel.BlockCandidates(b), rel.integer))
  }

  /** On nonnegative candidates it holds; a negative value can only come from the copy of a linking variable. */
  lemma NonnegativeIsPositive(rel: Relaxation)
    requires forall c :: c in rel.Candidates() ==> c.value >= 0.0
    ensures PositiveBlocks(rel)
  {
    forall b: nat | b < rel.nblocks
      ensures ClassesPositive(rel.BlockCandidates(b), IndexSet(rel.BlockCandidates(b), rel.integer))
    {
      var F := rel.BlockCandidates(b);
      forall k | 0 <= k < |F| ensures IsCandidate(F[k], b) && F[k].value >= 0.0 {
        assert F[k] in F;
        FractionalMember(rel.Candidates(), b, F[k]);
      }
      CandidatesPositive(F, b, IndexSet(F, rel.integer));
    }
  }

  /** A variable of a block that is searched in vain has an integral value. */
  lemma InVainIsIntegral(rel: Relaxation, path: Path, K: nat -> int, cols: seq<Column>, vars: seq<nat>, b: nat,
                         v: nat)
    requires Sound(rel, K) && rel.continuous && IntegerPath(path, rel.integer) && PositiveBlocks(rel)
    requires b < rel.nblocks && rel.FoundIn(path, b) == [] && FractionalCopiesZero(rel.mastervars, rel.integer)
    requires multiset(cols) == multiset(rel.mastervars) && Sorted(cols, vars, rel.integer)
    requires v in rel.integer && K(b) > 0 && NonnegativeValues(OwnColumns(cols, b))
    requires forall w :: w in rel.integer ==> w in vars
    ensures forall k :: 0 <= k < K(b) ==> IsInt(Assembled(OwnColumns(cols, b), v, K(b))[k])
  {
    var I, G := IntegerOnes(vars, rel.integer), OwnColumns(cols, b);
    IntegerOnesCompared(vars, rel.integer);
    FoundIffClassFractional(rel, path, b);
    OwnClassesIntegral(rel.mastervars, b, rel.integer, I, K(b));
    OwnPermuted(rel.mastervars, cols, b);
    ClassesPermuted(OwnColumns(rel.mastervars, b), G, I);
    MassPermuted(OwnColumns(rel.mastervars, b), G, []);
    SortedOwn(cols, b, vars, rel.integer);
    AssembledIntegral(G, v, K(b), I, vars, rel.integer);
  }

  /**
   * With continuous variables, on the assembled solution and with positive classes: the selection never settles on a
   * block that has been searched in vain.
   */
  lemma NeverEndless(rel: Relaxation, path: Path, K: nat -> int, cols: seq<Column>, vars: seq<nat>, rep: nat -> nat,
                     pos: nat -> nat)
    requires Sound(rel, K) && rel.continuous && IntegerPath(path, rel.integer) && PositiveBlocks(rel)
    requires FromMaster(rel, K, cols, vars, rep, pos)
    ensures var s := Final(rel, path, []);
      s.InBlockNr? ==> rel.FoundIn(path, s.nr) != []
  {
    FinalFromOriginals(rel, path, K, []);
    if AllInVain(rel, path) && exists v :: v in rel.origvars && IsFractionalInteger(v) {
      SomeNotInVain(rel, path, K, cols, vars, rep, pos);
    }
  }

  /** If some variable is fractional, one is not of a block searched in vain. */
  lemma SomeNotInVain(rel: Relaxation, path: Path, K: nat -> int, cols: seq<Column>, vars: seq<nat>, rep: nat -> nat,
                      pos: nat -> nat)
    requires Sound(rel, K) && rel.continuous && IntegerPath(path, rel.integer) && PositiveBlocks(rel)
    requires FromMaster(rel, K, cols, vars, rep, pos) && exists v :: v in rel.origvars && IsFractionalInteger(v)
    ensures !AllInVain(rel, path)
  {
    if AllInVain(rel, path) {
      var v :| v in rel.origvars && IsFractionalInteger(v);
      var x: nat :| x < |rel.origvars| && rel.origvars[x] == v;
      InTableWhenInVain(rel, path, x);
      InVainIsIntegral(rel, path, K, cols, vars, rel.representative[v.block], rep(x));
    }
  }

  lemma InTableWhenInVain(rel: Relaxation, path: Path, x: nat)
    requires AllInVain(rel, path) && x < |rel.origvars| && IsFractionalInteger(rel.origvars[x])
    ensures InTable(rel, x) && rel.FoundIn(path, rel.representative[rel.origvars[x].block]) == []
    ensures PointsTo(rel.origvars[x], rel.representative, rel.representative[rel.origvars[x].block])
    ensures rel.origvars[x] in rel.origvars
  {
    assert rel.origvars[x] in rel.origvars;
  }
}

/** Master columns, component bounds, and the LP mass of the columns that satisfy a bound sequence. */
module Columns {
  import opened Numbers
  import opened Permutations

  datatype Sense = GE | LT

  /** One component bound: the generator entry of `component` is at least, or below, `bound`. */
  datatype Bound = Bound(component: nat, sense: Sense, bound: int)

  type Sequence = seq<Bound>

  datatype Entry = Entry(origvar: nat, val: int)

  /**
   * A master variable: the block it was priced for (-1 for a direct copy of an original variable,
   * which belongs to the blocks it links), its generator, and its value in a master solution.
   */
  datatype Column = Column(id: nat, block: int, linkingBlocks: set<nat>, entries: seq<Entry>, value: real)

  function LookUp(entries: seq<Entry>, origvar: nat): int {
    if |entries| == 0 then 0
    else if entries[0].origvar == origvar then entries[0].val
    else LookUp(entries[1..], origvar)
  }

  function GeneratorEntry(c: Column, origvar: nat): int {
    LookUp(c.entries, origvar)
  }

  method GetGeneratorEntry(c: Column, origvar: nat) returns (entry: int)
    ensures entry == GeneratorEntry(c, origvar)
  {
    for i := 0 to |c.entries|
      invariant LookUp(c.entries[i..], origvar) == LookUp(c.entries, origvar)
    {
      if c.entries[i].origvar == origvar { return c.entries[i].val; }
    }
    return 0;
  }

  predicate InBlock(c: Column, block: nat) {
    if c.block == -1 then block in c.linkingBlocks else c.block == block
  }

  function Opposite(b: Bound): Bound {
    b.(sense := if b.sense == GE then LT else GE)
  }

  predicate Satisfies(c: Column, b: Bound) {
    match b.sense
    case GE => GeneratorEntry(c, b.component) >= b.bound
    case LT => GeneratorEntry(c, b.component) < b.bound
  }

  predicate SatisfiesAll(c: Column, S: Sequence) {
    forall k :: 0 <= k < |S| ==> Satisfies(c, S[k])
  }

  /** Total value of the columns of F that satisfy every bound of S. */
  function Mass(F: seq<Column>, S: Sequence): real {
    if |F| == 0 then 0.0
    else Mass(F[..|F| - 1], S) + if SatisfiesAll(F[|F| - 1], S) then F[|F| - 1].value else 0.0
  }

  /** The columns of F that satisfy b, in the order of F. */
  function Keep(F: seq<Column>, b: Bound): (G: seq<Column>)
    ensures |G| <= |F|
  {
    if |F| == 0 then []
    else Keep(F[..|F| - 1], b) + if Satisfies(F[|F| - 1], b) then [F[|F| - 1]] else []
  }

  /** The columns of the block, in the order of `columns`. */
  function BlockColumns(columns: seq<Column>, block: nat): (B: seq<Column>)
    ensures forall c :: c in B ==> InBlock(c, block)
  {
    if |columns| == 0 then []
    else BlockColumns(columns[..|columns| - 1], block) +
         if InBlock(columns[|columns| - 1], block) then [columns[|columns| - 1]] else []
  }

  /** The columns priced for the block: those that a branching constraint of the block can contain. */
  function OwnColumns(columns: seq<Column>, block: nat): seq<Column> {
    if |columns| == 0 then []
    else OwnColumns(columns[..|columns| - 1], block) +
         if columns[|columns| - 1].block == block then [columns[|columns| - 1]] else []
  }

  /** Copies of linking variables that count as block columns although they were not priced for the block. */
  function LinkingColumns(columns: seq<Column>, block: nat): seq<Column> {
    if |columns| == 0 then []
    else
      var c := columns[|columns| - 1];
      LinkingColumns(columns[..|columns| - 1], block) + if c.block == -1 && InBlock(c, block) then [c] else []
  }

  predicate Integral(F: seq<Column>) {
    forall k :: 0 <= k < |F| ==> IsInt(F[k].value)
  }

  /** LP branching candidates: positive and fractional. */
  predicate Fractional(F: seq<Column>) {
    forall k :: 0 <= k < |F| ==> F[k].value > 0.0 && !IsInt(F[k].value)
  }

  ghost predicate Differ(c: Column, d: Column, I: seq<nat>) {
    exists k :: 0 <= k < |I| && GeneratorEntry(c, I[k]) != GeneratorEntry(d, I[k])
  }

  /** The columns are pairwise distinct as points on the components of I. */
  ghost predicate Distinct(F: seq<Column>, I: seq<nat>) {
    forall x, y :: 0 <= x < y < |F| ==> Differ(F[x], F[y], I)
  }

  /** All columns of F agree on the component. */
  predicate Agree(F: seq<Column>, component: nat) {
    forall k :: 0 <= k < |F| ==> GeneratorEntry(F[k], component) == GeneratorEntry(F[0], component)
  }

  // ---------- the mass is additive and does not depend on the order ----------

  lemma {:induction false} MassAppend(A: seq<Column>, B: seq<Column>, S: Sequence)
    ensures Mass(A + B, S) == Mass(A, S) + Mass(B, S)
  {
    if |B| == 0 {
      assert A + B == A;
    } else {
      assert (A + B)[..|A + B| - 1] == A + B[..|B| - 1];
      MassAppend(A, B[..|B| - 1], S);
    }
  }

  lemma {:induction false} MassPermuted(A: seq<Column>, B: seq<Column>, S: Sequence)
    requires multiset(A) == multiset(B)
    ensures Mass(A, S) == Mass(B, S)
  {
    if |A| == 0 {
      assert |multiset(B)| == 0;
    } else {
      var k := LastOccursIn(A, B);
      MassPermuted(A[..|A| - 1], B[..k] + B[k + 1..], S);
      MassAppend(B[..k] + [B[k]], B[k + 1..], S);
      MassAppend(B[..k], [B[k]], S);
      MassAppend(B[..k], B[k + 1..], S);
    }
  }

  lemma {:induction false} BlockMassSplits(columns: seq<Column>, block: nat, S: Sequence)
    ensures Mass(BlockColumns(columns, block), S) ==
            Mass(OwnColumns(columns, block), S) + Mass(LinkingColumns(columns, block), S)
  {
    if |columns| > 0 {
      var front, c := columns[..|columns| - 1], columns[|columns| - 1];
      BlockMassSplits(front, block, S);
      MassOneMore(BlockColumns(front, block), c, S);
      MassOneMore(OwnColumns(front, block), c, S);
      MassOneMore(LinkingColumns(front, block), c, S);
      NoMore(BlockColumns(front, block));
      NoMore(OwnColumns(front, block));
      NoMore(LinkingColumns(front, block));
    }
  }

  lemma MassOneMore(F: seq<Column>, c: Column, S: Sequence)
    ensures Mass(F + [c], S) == Mass(F, S) + if SatisfiesAll(c, S) then c.value else 0.0
  {
    assert (F + [c])[..|F|] == F;
  }

  lemma NoMore(F: seq<Column>)
    ensures F + [] == F
  {
  }

  lemma SatisfiesMore(c: Column, S: Sequence, b: Bound)
    ensures SatisfiesAll(c, S + [b]) <==> SatisfiesAll(c, S) && Satisfies(c, b)
    ensures SatisfiesAll(c, [b] + S) <==> SatisfiesAll(c, S) && Satisfies(c, b)
  {
    var T := S + [b];
    assert T[|S|] == b && forall k :: 0 <= k < |S| ==> T[k] == S[k];
    var U := [b] + S;
    assert U[0] == b && forall k :: 0 <= k < |S| ==> U[k + 1] == S[k];
  }

  lemma {:induction false} MassKeep(F: seq<Column>, b: Bound, T: Sequence)
    ensures Mass(Keep(F, b), T) == Mass(F, [b] + T)
  {
    if |F| > 0 {
      var G, c := F[..|F| - 1], F[|F| - 1];
      MassKeep(G, b, T);
      SatisfiesMore(c, T, b);
      if Satisfies(c, b) { MassAppend(Keep(G, b), [c], T); }
      else { assert Keep(F, b) == Keep(G, b); }
    }
  }

  /** Every column satisfies either a bound or its opposite. */
  lemma {:induction false} MassSplit(F: seq<Column>, S: Sequence, b: Bound)
    ensures Mass(F, S) == Mass(F, S + [b]) + Mass(F, S + [Opposite(b)])
  {
    if |F| > 0 {
      MassSplit(F[..|F| - 1], S, b);
      SatisfiesMore(F[|F| - 1], S, b);
      SatisfiesMore(F[|F| - 1], S, Opposite(b));
    }
  }

  lemma {:induction false} MassIntegral(F: seq<Column>, S: Sequence)
    requires Integral(F)
    ensures IsInt(Mass(F, S))
  {
    if |F| > 0 {
      MassIntegral(F[..|F| - 1], S);
      IntClosed(Mass(F[..|F| - 1], S), F[|F| - 1].value);
    }
  }

  // ---------- what Keep inherits ----------

  lemma {:induction false} KeepMembers(F: seq<Column>, b: Bound)
    ensures forall c :: c in Keep(F, b) <==> c in F && Satisfies(c, b)
  {
    if |F| > 0 {
      KeepMembers(F[..|F| - 1], b);
      assert F == F[..|F| - 1] + [F[|F| - 1]];
    }
  }

  lemma {:induction false} KeepNone(F: seq<Column>, b: Bound)
    requires forall k :: 0 <= k < |F| ==> !Satisfies(F[k], b)
    ensures Keep(F, b) == []
  {
    if |F| > 0 { KeepNone(F[..|F| - 1], b); }
  }

  /** Two opposite bounds share out the columns. */
  lemma {:induction false} KeepShares(F: seq<Column>, b: Bound)
    ensures |F| == |Keep(F, b)| + |Keep(F, Opposite(b))|
  {
    if |F| > 0 { KeepShares(F[..|F| - 1], b); }
  }
}

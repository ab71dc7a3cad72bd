/** The |S|+1 child nodes created for a component bound sequence S. */
module Children {
  import opened Numbers
  import opened Permutations
  import opened Columns
  import opened Separation

  /** A child node: columns of the block that satisfy consS must have total value at least lhs. */
  datatype Child = Child(block: nat, consS: Sequence, lhs: real)

  /** Child p keeps the first p bounds and turns round the next one; the last child keeps all of S. */
  function ChildSequence(S: Sequence, p: nat): Sequence
    requires p <= |S|
  {
    if p < |S| then S[..p] + [Opposite(S[p])] else S
  }

  /** Level 0 is the number K of identical blocks, the last level rounds the mass of S up. */
  function Level(B: seq<Column>, K: int, S: Sequence, p: nat): real
    requires p <= |S|
  {
    if p == 0 then K as real
    else if p < |S| then Mass(B, S[..p])
    else Ceil(Mass(B, S)) as real
  }

  function ChildLhs(B: seq<Column>, K: int, S: Sequence, p: nat): real
    requires p <= |S|
  {
    if p < |S| then Level(B, K, S, p) - Level(B, K, S, p + 1) + 1.0 else Level(B, K, S, p)
  }

  // ---------- what the children mean ----------

  /** Position of the first bound of S that c violates, |S| when it satisfies all of them. */
  function FirstViolated(c: Column, S: Sequence): (p: nat)
    ensures p <= |S|
  {
    if |S| == 0 then 0
    else
      var p := FirstViolated(c, S[..|S| - 1]);
      if p == |S| - 1 && Satisfies(c, S[p]) then |S| else p
  }

  lemma {:induction false} ViolatedPosition(c: Column, S: Sequence)
    ensures var p := FirstViolated(c, S);
      (forall k :: 0 <= k < p ==> Satisfies(c, S[k])) && (p < |S| ==> !Satisfies(c, S[p]))
  {
    if |S| > 0 {
      var T := S[..|S| - 1];
      ViolatedPosition(c, T);
      forall k | 0 <= k < FirstViolated(c, S) ensures Satisfies(c, S[k]) {
        if k < |T| { assert T[k] == S[k]; }
      }
      if FirstViolated(c, T) < |T| { assert T[FirstViolated(c, T)] == S[FirstViolated(c, T)]; }
    }
  }

  lemma OppositeIsNegation(c: Column, b: Bound)
    ensures Satisfies(c, Opposite(b)) <==> !Satisfies(c, b)
  {
  }

  /** Every column belongs to exactly one child: the one at the first bound that it violates. */
  lemma ChildrenPartitionColumns(c: Column, S: Sequence, p: nat)
    requires p <= |S|
    ensures SatisfiesAll(c, ChildSequence(S, p)) <==> p == FirstViolated(c, S)
  {
    var q := FirstViolated(c, S);
    ViolatedPosition(c, S);
    if p < |S| {
      SatisfiesMore(c, S[..p], Opposite(S[p]));
      OppositeIsNegation(c, S[p]);
      if q < p { assert !Satisfies(c, S[..p][q]); }
    } else if q < p {
      assert !Satisfies(c, S[q]);
    }
  }

  /** What child p takes is the difference of two consecutive prefix masses. */
  lemma ChildMass(Y: seq<Column>, S: Sequence, p: nat)
    requires p < |S|
    ensures Mass(Y, ChildSequence(S, p)) == Mass(Y, S[..p]) - Mass(Y, S[..p + 1])
  {
    MassSplit(Y, S[..p], S[p]);
    assert S[..p] + [S[p]] == S[..p + 1];
  }

  // ---------- the left-hand sides ----------

  ghost predicate PrefixMassesIntegral(B: seq<Column>, S: Sequence) {
    forall q :: 0 < q < |S| ==> IsInt(Mass(B, S[..q]))
  }

  lemma LevelIntegral(B: seq<Column>, K: int, S: Sequence, p: nat)
    requires p <= |S| && PrefixMassesIntegral(B, S)
    ensures IsInt(Level(B, K, S, p))
    ensures IsInt(ChildLhs(B, K, S, p))
  {
    IntIsInt(K);
    IntIsInt(1);
    IntIsInt(Ceil(Mass(B, S)));
    if p < |S| {
      IntClosed(Level(B, K, S, p), Level(B, K, S, p + 1));
      IntClosed(Level(B, K, S, p) - Level(B, K, S, p + 1), 1.0);
    }
  }

  function LhsSum(B: seq<Column>, K: int, S: Sequence, n: nat): real
    requires n <= |S| + 1
  {
    if n == 0 then 0.0 else LhsSum(B, K, S, n - 1) + ChildLhs(B, K, S, n - 1)
  }

  lemma {:induction false} LhsTelescopes(B: seq<Column>, K: int, S: Sequence, n: nat)
    requires n <= |S|
    ensures LhsSum(B, K, S, n) == K as real - Level(B, K, S, n) + n as real
  {
    if n > 0 { LhsTelescopes(B, K, S, n - 1); }
  }

  /** The left-hand sides of the |S|+1 children add up to K+|S|. */
  lemma LhsTotal(B: seq<Column>, K: int, S: Sequence)
    requires |S| > 0
    ensures LhsSum(B, K, S, |S| + 1) == (K + |S|) as real
  {
    LhsTelescopes(B, K, S, |S|);
  }

  // ---------- no integer solution is lost, the LP point is ----------

  lemma IntegerStep(x: real, y: real)
    requires IsInt(x) && IsInt(y) && x < y
    ensures x <= y - 1.0
  {
    assert x.Floor < y.Floor;
  }

  /** If an integer solution misses the first q children, its prefix masses fall no faster than the levels. */
  lemma {:induction false} MissedChildren(B: seq<Column>, K: int, S: Sequence, Y: seq<Column>, q: nat)
    requires q <= |S| && PrefixMassesIntegral(B, S) && Integral(Y) && Mass(Y, []) == K as real
    requires forall p :: 0 <= p < q ==> Mass(Y, ChildSequence(S, p)) < ChildLhs(B, K, S, p)
    ensures Mass(Y, S[..q]) >= Level(B, K, S, q)
  {
    if q == 0 {
      assert S[..0] == [];
    } else {
      MissedChildren(B, K, S, Y, q - 1);
      ChildMass(Y, S, q - 1);
      MassIntegral(Y, ChildSequence(S, q - 1));
      LevelIntegral(B, K, S, q - 1);
      IntegerStep(Mass(Y, ChildSequence(S, q - 1)), ChildLhs(B, K, S, q - 1));
    }
  }

  /**
   * Pigeonhole: whatever integral values Y gives to columns, priced already or not, if the block total is
   * K then one of the children accepts Y. B holds the current LP point that defines the children.
   */
  lemma SomeChildAccepts(B: seq<Column>, K: int, S: Sequence, Y: seq<Column>) returns (p: nat)
    requires |S| > 0 && PrefixMassesIntegral(B, S)
    requires Integral(Y) && Mass(Y, []) == K as real
    ensures p <= |S| && Mass(Y, ChildSequence(S, p)) >= ChildLhs(B, K, S, p)
  {
    if q :| 0 <= q < |S| && Mass(Y, ChildSequence(S, q)) >= ChildLhs(B, K, S, q) {
      return q;
    }
    MissedChildren(B, K, S, Y, |S|);
    assert S[..|S|] == S;
    return |S|;
  }

  /** Every child excludes the LP point it was created for. */
  lemma ChildrenCutOff(B: seq<Column>, K: int, S: Sequence, p: nat)
    requires 0 < |S| && p <= |S| && !IsInt(Mass(B, S)) && Mass(B, []) == K as real
    ensures Mass(B, ChildSequence(S, p)) < ChildLhs(B, K, S, p)
  {
    assert S[..0] == [] && S[..|S|] == S;
    if p < |S| {
      ChildMass(B, S, p);
    }
  }

  // ---------- the swap-to-end filter ----------

  predicate Kept(c: Column, block: nat, b: Bound) {
    InBlock(c, block) && Satisfies(c, b)
  }

  function Sift(columns: seq<Column>, block: nat, b: Bound): seq<Column> {
    if |columns| == 0 then []
    else Sift(columns[..|columns| - 1], block, b) +
         if Kept(columns[|columns| - 1], block, b) then [columns[|columns| - 1]] else []
  }

  lemma {:induction false} SiftIsKeep(columns: seq<Column>, block: nat, b: Bound)
    ensures Sift(columns, block, b) == Keep(BlockColumns(columns, block), b)
  {
    if |columns| > 0 {
      var before, c := BlockColumns(columns[..|columns| - 1], block), columns[|columns| - 1];
      SiftIsKeep(columns[..|columns| - 1], block, b);
      if InBlock(c, block) {
        KeepOneMore(before, c, b);
      } else {
        assert BlockColumns(columns, block) == before;
      }
    }
  }

  lemma KeepOneMore(F: seq<Column>, c: Column, b: Bound)
    ensures Keep(F + [c], b) == Keep(F, b) + if Satisfies(c, b) then [c] else []
  {
    assert (F + [c])[..|F|] == F;
  }

  lemma {:induction false} SiftAppend(A: seq<Column>, R: seq<Column>, block: nat, b: Bound)
    ensures Sift(A + R, block, b) == Sift(A, block, b) + Sift(R, block, b)
  {
    if |R| == 0 {
      assert A + R == A;
    } else {
      assert (A + R)[..|A + R| - 1] == A + R[..|R| - 1];
      SiftAppend(A, R[..|R| - 1], block, b);
    }
  }

  lemma {:induction false} SiftPermuted(A: seq<Column>, R: seq<Column>, block: nat, b: Bound)
    requires multiset(A) == multiset(R)
    ensures multiset(Sift(A, block, b)) == multiset(Sift(R, block, b))
  {
    if |A| == 0 {
      assert |multiset(R)| == 0;
    } else {
      var k := LastOccursIn(A, R);
      SiftPermuted(A[..|A| - 1], R[..k] + R[k + 1..], block, b);
      SiftAppend(R[..k] + [R[k]], R[k + 1..], block, b);
      SiftAppend(R[..k], [R[k]], block, b);
      SiftAppend(R[..k], R[k + 1..], block, b);
    }
  }

  lemma {:induction false} SiftAllOrNone(A: seq<Column>, block: nat, b: Bound)
    ensures AllKept(A, block, b) ==> Sift(A, block, b) == A
    ensures NoneKept(A, block, b) ==> Sift(A, block, b) == []
  {
    if |A| > 0 { SiftAllOrNone(A[..|A| - 1], block, b); }
  }

  lemma SwapKeepsMultiset(s: seq<Column>, i: nat, j: nat)
    requires i < |s| && j < |s|
    ensures multiset(s[i := s[j]][j := s[i]]) == multiset(s)
  {
  }

  /** A rejected column changes places with the last candidate, and the candidate range shrinks. */
  method SwapToEnd(a: array<Column>, n: nat, i: nat, last: nat)
    requires i <= last < n <= a.Length
    modifies a
    ensures multiset(a[..n]) == old(multiset(a[..n]))
    ensures a[last] == old(a[i]) && a[..n][..i] == old(a[..n])[..i]
    ensures a[..n][last..] == [old(a[i])] + old(a[..n])[last + 1..]
  {
    ghost var s := a[..n];
    SwapKeepsMultiset(s, i, last);
    SwappedEnds(s, i, last);
    a[i], a[last] := a[last], a[i];
    assert a[..n] == s[i := s[last]][last := s[i]];
  }

  lemma SwappedEnds(s: seq<Column>, i: nat, last: nat)
    requires i <= last < |s|
    ensures var t := s[i := s[last]][last := s[i]]; t[..i] == s[..i] && t[last..] == [s[i]] + s[last + 1..]
  {
  }

  method IsKept(c: Column, block: nat, b: Bound) returns (stays: bool)
    ensures stays == Kept(c, block, b)
  {
    stays := false;
    if InBlock(c, block) {
      var entry := GetGeneratorEntry(c, b.component);
      stays := (b.sense == GE && entry >= b.bound) || (b.sense == LT && entry < b.bound);
    }
  }

  ghost predicate AllKept(s: seq<Column>, block: nat, b: Bound) {
    forall k :: 0 <= k < |s| ==> Kept(s[k], block, b)
  }

  ghost predicate NoneKept(s: seq<Column>, block: nat, b: Bound) {
    forall k :: 0 <= k < |s| ==> !Kept(s[k], block, b)
  }

  /** s rearranges start; its front is kept and summed up in mu, what lies behind `kept` is rejected. */
  ghost predicate Filtering(start: seq<Column>, s: seq<Column>, i: int, kept: int, mu: real, block: nat, b: Bound) {
    && 0 <= i <= kept <= |s| && multiset(s) == multiset(start)
    && AllKept(s[..i], block, b) && NoneKept(s[kept..], block, b)
    && mu == Mass(s[..i], [])
  }

  /** One turn of the filter loop. */
  method FilterRound(a: array<Column>, n: nat, i0: nat, kept0: nat, mu0: real, block: nat, b: Bound,
                     ghost start: seq<Column>)
    returns (i: nat, kept: nat, mu: real)
    requires i0 < kept0 <= n <= a.Length && Filtering(start, a[..n], i0, kept0, mu0, block, b)
    modifies a
    ensures Filtering(start, a[..n], i, kept, mu, block, b) && kept - i < kept0 - i0
  {
    i, kept, mu := i0, kept0, mu0;
    ghost var s := a[..n];
    var stays := IsKept(a[i], block, b);
    if stays {
      assert s[..i + 1] == s[..i] + [a[i]];
      MassAppend(s[..i], [a[i]], []);
      mu := mu + a[i].value;
      i := i + 1;
    } else {
      kept := kept - 1;
      SwapToEnd(a, n, i, kept);
    }
  }

  /**
   * Scans the candidates a[..n]: those of the block that satisfy b stay in front and are summed up, the
   * others are swapped behind them.
   */
  method FilterInPlace(a: array<Column>, n: nat, block: nat, b: Bound) returns (kept: nat, mu: real)
    requires n <= a.Length
    modifies a
    ensures kept <= n && mu == Mass(a[..n][..kept], [])
    ensures multiset(a[..n][..kept]) == multiset(Keep(BlockColumns(old(a[..n]), block), b))
  {
    ghost var start := a[..n];
    kept, mu := n, 0.0;
    var i := 0;
    while i < n && i < kept
      invariant kept <= n && Filtering(start, a[..n], i, kept, mu, block, b)
      decreases kept - i
    {
      i, kept, mu := FilterRound(a, n, i, kept, mu, block, b, start);
    }
    FilteredFront(start, a[..n], kept, block, b);
  }

  lemma FilteredFront(start: seq<Column>, now: seq<Column>, kept: nat, block: nat, b: Bound)
    requires multiset(now) == multiset(start) && kept <= |now|
    requires AllKept(now[..kept], block, b) && NoneKept(now[kept..], block, b)
    ensures multiset(now[..kept]) == multiset(Keep(BlockColumns(start, block), b))
  {
    assert now == now[..kept] + now[kept..];
    SiftPermuted(start, now, block, b);
    SiftAppend(now[..kept], now[kept..], block, b);
    SiftAllOrNone(now[..kept], block, b);
    SiftAllOrNone(now[kept..], block, b);
    SiftIsKeep(start, block, b);
  }

  // ---------- createChildNodesGeneric ----------

  /** The columns of B that satisfy all of S, in order. */
  function KeepAll(B: seq<Column>, S: Sequence): seq<Column> {
    if |B| == 0 then []
    else KeepAll(B[..|B| - 1], S) + if SatisfiesAll(B[|B| - 1], S) then [B[|B| - 1]] else []
  }

  lemma {:induction false} KeepAllExtends(B: seq<Column>, S: Sequence, b: Bound)
    ensures Keep(KeepAll(B, S), b) == KeepAll(B, S + [b])
  {
    if |B| > 0 {
      KeepAllExtends(B[..|B| - 1], S, b);
      SatisfiesMore(B[|B| - 1], S, b);
      var front := KeepAll(B[..|B| - 1], S);
      if SatisfiesAll(B[|B| - 1], S) {
        KeepOneMore(front, B[|B| - 1], b);
      } else {
        assert KeepAll(B, S) == front;
      }
    }
  }

  lemma {:induction false} KeepAllMass(B: seq<Column>, S: Sequence)
    ensures Mass(KeepAll(B, S), []) == Mass(B, S)
  {
    if |B| > 0 {
      KeepAllMass(B[..|B| - 1], S);
      MassAppend(KeepAll(B[..|B| - 1], S), KeepAll(B[|B| - 1..], S), []);
      var front := KeepAll(B[..|B| - 1], S);
      if SatisfiesAll(B[|B| - 1], S) {
        MassAppend(front, [B[|B| - 1]], []);
      } else {
        assert KeepAll(B, S) == front;
      }
    }
  }

  lemma {:induction false} KeepAllInBlock(B: seq<Column>, S: Sequence, block: nat)
    requires forall k :: 0 <= k < |B| ==> InBlock(B[k], block)
    ensures BlockColumns(KeepAll(B, S), block) == KeepAll(B, S)
  {
    if |B| > 0 {
      KeepAllInBlock(B[..|B| - 1], S, block);
      var front := KeepAll(B[..|B| - 1], S);
      if SatisfiesAll(B[|B| - 1], S) {
        assert (front + [B[|B| - 1]])[..|front|] == front;
      } else {
        assert KeepAll(B, S) == front;
      }
    }
  }

  lemma {:induction false} KeepAllNothing(B: seq<Column>)
    ensures KeepAll(B, []) == B
  {
    if |B| > 0 { KeepAllNothing(B[..|B| - 1]); }
  }

  /** The candidates of the p-th filter, in their original order. */
  function Reference(mastervars: seq<Column>, block: nat, S: Sequence, p: nat): seq<Column>
    requires p <= |S|
  {
    if p == 0 then mastervars else KeepAll(BlockColumns(mastervars, block), S[..p])
  }

  /** What the candidate range holds before the p-th filter. */
  ghost predicate Candidates(mastervars: seq<Column>, block: nat, S: Sequence, p: nat, s: seq<Column>) {
    p <= |S| && multiset(s) == multiset(Reference(mastervars, block, S, p))
  }

  lemma KeepPermuted(s: seq<Column>, t: seq<Column>, block: nat, b: Bound)
    requires multiset(s) == multiset(t)
    ensures multiset(Keep(BlockColumns(s, block), b)) == multiset(Keep(BlockColumns(t, block), b))
  {
    SiftPermuted(s, t, block, b);
    SiftIsKeep(s, block, b);
    SiftIsKeep(t, block, b);
  }

  lemma ReferenceFiltered(mastervars: seq<Column>, block: nat, S: Sequence, p: nat)
    requires p < |S|
    ensures Keep(BlockColumns(Reference(mastervars, block, S, p), block), S[p]) ==
            Reference(mastervars, block, S, p + 1)
  {
    var B := BlockColumns(mastervars, block);
    KeepAllExtends(B, S[..p], S[p]);
    assert S[..p] + [S[p]] == S[..p + 1];
    ReferenceOfBlock(mastervars, block, S, p);
  }

  /** Before the first filter all blocks are there, afterwards only columns of the block. */
  lemma ReferenceOfBlock(mastervars: seq<Column>, block: nat, S: Sequence, p: nat)
    requires p <= |S|
    ensures BlockColumns(Reference(mastervars, block, S, p), block) == KeepAll(BlockColumns(mastervars, block), S[..p])
  {
    var B := BlockColumns(mastervars, block);
    if p == 0 {
      KeepAllNothing(B);
      assert S[..0] == [];
    } else {
      KeepAllInBlock(B, S[..p], block);
    }
  }

  /** Filtering the candidates by the next bound leaves exactly the block columns satisfying one bound more. */
  lemma NextCandidates(mastervars: seq<Column>, block: nat, S: Sequence, p: nat, s: seq<Column>, t: seq<Column>)
    requires p < |S| && Candidates(mastervars, block, S, p, s)
    requires multiset(t) == multiset(Keep(BlockColumns(s, block), S[p]))
    ensures Candidates(mastervars, block, S, p + 1, t)
    ensures Mass(t, []) == Mass(BlockColumns(mastervars, block), S[..p + 1])
  {
    KeepPermuted(s, Reference(mastervars, block, S, p), block, S[p]);
    ReferenceFiltered(mastervars, block, S, p);
    MassPermuted(t, Reference(mastervars, block, S, p + 1), []);
    KeepAllMass(BlockColumns(mastervars, block), S[..p + 1]);
  }

  /** Copies the first p+1 bounds, the last of them turned round unless p is |S|. */
  method BuildChildSequence(S: Sequence, p: nat) returns (consS: Sequence)
    requires p <= |S| && |S| > 0
    ensures consS == ChildSequence(S, p)
  {
    consS := [];
    for k := 0 to p + 1
      invariant consS == if k <= p then S[..k] else ChildSequence(S, p)
    {
      if k < |S| {
        var compBound := S[k];
        if k >= p {
          compBound := compBound.(sense := if S[p].sense == GE then LT else GE);
        }
        consS := consS + [compBound];
      }
    }
  }

  function ChildrenUpTo(B: seq<Column>, block: nat, K: int, S: Sequence, n: nat): (r: seq<Child>)
    requires n <= |S| + 1
    ensures |r| == n
  {
    if n == 0 then []
    else ChildrenUpTo(B, block, K, S, n - 1) + [Child(block, ChildSequence(S, n - 1), ChildLhs(B, K, S, n - 1))]
  }

  lemma {:induction false} ChildAt(B: seq<Column>, block: nat, K: int, S: Sequence, n: nat, p: nat)
    requires p < n <= |S| + 1
    ensures ChildrenUpTo(B, block, K, S, n)[p] == Child(block, ChildSequence(S, p), ChildLhs(B, K, S, p))
  {
    if p < n - 1 { ChildAt(B, block, K, S, n - 1, p); }
  }

  /**
   * Creates the children. The asserts are the ones that the branching rule makes itself; those on the masses hold if
   * the prefix masses are integral, the one on the sum of the left-hand sides always does.
   */
  method CreateChildNodes(mastervars: seq<Column>, S: Sequence, block: nat, K: int) returns (children: seq<Child>)
    requires |S| > 0
    ensures |children| == |S| + 1
    ensures forall p :: 0 <= p <= |S| ==>
      children[p] == Child(block, ChildSequence(S, p), ChildLhs(BlockColumns(mastervars, block), K, S, p))
  {
    ghost var B := BlockColumns(mastervars, block);
    var mastervars2 := new Column[|mastervars|](k requires 0 <= k < |mastervars| => mastervars[k]);
    assert mastervars2[..|mastervars|] == mastervars;
    var lhsSum;
    children, lhsSum := CreateAll(mastervars2, mastervars, S, block, K);
    LhsTotal(B, K, S);
    assert lhsSum == (K + |S|) as real;
    ChildrenSpelledOut(B, block, K, S);
  }

  /** The loop over the children, with pL, L and the shrinking candidate range carried along. */
  method CreateAll(mastervars2: array<Column>, ghost mastervars: seq<Column>, S: Sequence, block: nat, K: int)
    returns (children: seq<Child>, lhsSum: real)
    requires |S| > 0 && mastervars2[..] == mastervars
    modifies mastervars2
    ensures children == ChildrenUpTo(BlockColumns(mastervars, block), block, K, S, |S| + 1)
    ensures lhsSum == LhsSum(BlockColumns(mastervars, block), K, S, |S| + 1)
  {
    var nmastervars2 := mastervars2.Length;
    assert mastervars2[..nmastervars2] == mastervars;
    var pL, L := K as real, 0.0;
    children, lhsSum := [], 0.0;
    for p := 0 to |S| + 1
      invariant 0 <= nmastervars2 <= mastervars2.Length
      invariant Progress(mastervars, block, K, S, p, mastervars2[..nmastervars2], pL, lhsSum, children)
    {
      nmastervars2, L, lhsSum, children :=
        CreateOne(mastervars2, nmastervars2, mastervars, S, block, p, K, pL, L, lhsSum, children);
      pL := L;
    }
  }

  /** What the loop over the children carries: the candidates, the previous level, and the children so far. */
  ghost predicate Progress(mastervars: seq<Column>, block: nat, K: int, S: Sequence, p: nat, s: seq<Column>,
                           pL: real, lhsSum: real, children: seq<Child>)
  {
    var B := BlockColumns(mastervars, block);
    && p <= |S| + 1
    && (p <= |S| ==> Candidates(mastervars, block, S, p, s) && pL == Level(B, K, S, p))
    && lhsSum == LhsSum(B, K, S, p)
    && children == ChildrenUpTo(B, block, K, S, p)
  }

  method CreateOne(mastervars2: array<Column>, n: nat, ghost mastervars: seq<Column>, S: Sequence, block: nat,
                   p: nat, ghost K: int, pL: real, L0: real, sum0: real, children0: seq<Child>)
    returns (kept: nat, L: real, lhsSum: real, children: seq<Child>)
    requires 0 < |S| && p <= |S| && n <= mastervars2.Length
    requires Progress(mastervars, block, K, S, p, mastervars2[..n], pL, sum0, children0)
    modifies mastervars2
    ensures kept <= n
    ensures Progress(mastervars, block, K, S, p + 1, mastervars2[..kept], L, lhsSum, children)
  {
    var consS := BuildChildSequence(S, p);
    var lhs;
    kept, L, lhs := ComputeLhs(mastervars2, n, mastervars, S, block, p, K, pL, L0);
    lhsSum := sum0 + lhs;
    children := children0 + [Child(block, consS, lhs)];
  }

  lemma ChildrenSpelledOut(B: seq<Column>, block: nat, K: int, S: Sequence)
    ensures forall p :: 0 <= p <= |S| ==>
      ChildrenUpTo(B, block, K, S, |S| + 1)[p] == Child(block, ChildSequence(S, p), ChildLhs(B, K, S, p))
  {
    forall p | 0 <= p <= |S|
      ensures ChildrenUpTo(B, block, K, S, |S| + 1)[p] == Child(block, ChildSequence(S, p), ChildLhs(B, K, S, p))
    {
      ChildAt(B, block, K, S, |S| + 1, p);
    }
  }

  /** The left-hand side of child p: for the last child the previous level, otherwise a level difference plus one. */
  method ComputeLhs(mastervars2: array<Column>, n: nat, ghost mastervars: seq<Column>, S: Sequence, block: nat,
                    p: nat, ghost K: int, pL: real, L0: real)
    returns (kept: nat, L: real, lhs: real)
    requires p <= |S| && n <= mastervars2.Length && Candidates(mastervars, block, S, p, mastervars2[..n])
    requires pL == Level(BlockColumns(mastervars, block), K, S, p)
    modifies mastervars2
    ensures kept <= n && lhs == ChildLhs(BlockColumns(mastervars, block), K, S, p)
    ensures p < |S| ==> Candidates(mastervars, block, S, p + 1, mastervars2[..kept]) &&
                        L == Level(BlockColumns(mastervars, block), K, S, p + 1)
  {
    kept, L, lhs := n, L0, pL;
    if p < |S| {
      kept, L := NextLevel(mastervars2, n, mastervars, S, block, p, K);
      lhs := pL - L + 1.0;
    }
    assert lhs == ChildLhs(BlockColumns(mastervars, block), K, S, p);
    if PrefixMassesIntegral(BlockColumns(mastervars, block), S) {
      LevelIntegral(BlockColumns(mastervars, block), K, S, p);
      assert IsInt(lhs);
    }
  }

  /** The p-th filter and the level it gives: the mass itself, rounded up for the last bound. */
  method NextLevel(mastervars2: array<Column>, n: nat, ghost mastervars: seq<Column>, S: Sequence, block: nat,
                   p: nat, ghost K: int)
    returns (kept: nat, L: real)
    requires p < |S| && n <= mastervars2.Length && Candidates(mastervars, block, S, p, mastervars2[..n])
    modifies mastervars2
    ensures kept <= n && Candidates(mastervars, block, S, p + 1, mastervars2[..kept])
    ensures L == Level(BlockColumns(mastervars, block), K, S, p + 1)
  {
    ghost var before := mastervars2[..n];
    var mu;
    kept, mu := FilterInPlace(mastervars2, n, block, S[p]);
    assert mastervars2[..n][..kept] == mastervars2[..kept];
    NextCandidates(mastervars, block, S, p, before, mastervars2[..kept]);
    if p == |S| - 1 {
      L := Ceil(mu) as real;
      assert S[..p + 1] == S;
      assert !IsInt(Mass(BlockColumns(mastervars, block), S)) ==> !IsInt(mu);
    } else {
      L := mu;
      assert PrefixMassesIntegral(BlockColumns(mastervars, block), S) ==> IsInt(mu);
    }
  }
}

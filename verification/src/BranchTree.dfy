/** Branching over whole trees: the sequences collected on a path stay consistent, nothing integral is lost. */
module BranchTree {
  import opened Numbers
  import opened Columns
  import opened Separation
  import opened Search
  import opened Children
  import opened RootSearch
  import opened Exhaustiveness

  /**
   * Branching data of one tree node: a generic child, a child of direct branching on a copied variable,
   * or a node that carries no generic data (the root, or another branching rule).
   */
  datatype NodeData =
    | Generic(block: nat, consS: Sequence, lhs: real)
    | Direct(id: nat, sense: Sense, bound: int)
    | Other

  /** The nodes from the current one up to the root. */
  type Path = seq<NodeData>

  // ---------- the set C of a path ----------

  /** The sequences already collected, followed by those further up the path, without repetition. */
  function Collect(path: Path, block: nat, C: seq<Sequence>): seq<Sequence> {
    if |path| == 0 then C
    else match path[0]
      case Other => C
      case Direct(_, _, _) => Collect(path[1..], block, C)
      case Generic(b, S, _) =>
        if |S| == 0 then C
        else if b != block then Collect(path[1..], block, C)
        else Collect(path[1..], block, if S in C then C else C + [S])
  }

  /** The sequences that the walk meets, in its order, with repetitions. */
  function Met(path: Path, block: nat): seq<Sequence> {
    if |path| == 0 then []
    else match path[0]
      case Other => []
      case Direct(_, _, _) => Met(path[1..], block)
      case Generic(b, S, _) => if |S| == 0 then [] else (if b == block then [S] else []) + Met(path[1..], block)
  }

  function Deduped(C: seq<Sequence>, L: seq<Sequence>): seq<Sequence>
    decreases |L|
  {
    if |L| == 0 then C else Deduped(if L[0] in C then C else C + [L[0]], L[1..])
  }

  lemma {:induction false} CollectIsDeduped(path: Path, block: nat, C: seq<Sequence>)
    ensures Collect(path, block, C) == Deduped(C, Met(path, block))
    decreases |path|
  {
    if |path| > 0 {
      match path[0]
      case Other =>
      case Direct(_, _, _) => CollectIsDeduped(path[1..], block, C);
      case Generic(b, S, _) =>
        if |S| > 0 {
          var L := Met(path[1..], block);
          CollectIsDeduped(path[1..], block, if b != block || S in C then C else C + [S]);
          if b == block { assert ([S] + L)[1..] == L; } else { assert [] + L == L; }
        }
    }
  }

  /** In the list, S comes before T does. */
  ghost predicate MetBefore(L: seq<Sequence>, S: Sequence, T: Sequence) {
    exists y :: 0 <= y < |L| && L[y] == S && forall b :: 0 <= b <= y ==> L[b] != T
  }

  lemma {:induction false} DedupedInOrder(C: seq<Sequence>, L: seq<Sequence>)
    requires NoDuplicates(C)
    ensures C <= Deduped(C, L) && NoDuplicates(Deduped(C, L))
    ensures forall i, j :: |C| <= i < j < |Deduped(C, L)| ==> MetBefore(L, Deduped(C, L)[i], Deduped(C, L)[j])
    decreases |L|
  {
    if |L| > 0 {
      var next, rest, D := if L[0] in C then C else C + [L[0]], L[1..], Deduped(C, L);
      DedupedInOrder(next, rest);
      forall i, j | |C| <= i < j < |D| ensures MetBefore(L, D[i], D[j]) {
        assert L[0] in next && forall k :: 0 <= k < |next| ==> next[k] == D[k];
        if i < |next| {
          assert L[0] == D[i];
        } else {
          var y :| 0 <= y < |rest| && rest[y] == D[i] && forall b :: 0 <= b <= y ==> rest[b] != D[j];
          forall b | 0 <= b <= y + 1 ensures L[b] != D[j] {
            if b > 0 { assert L[b] == rest[b - 1]; }
          }
          assert L[y + 1] == D[i];
        }
      }
    }
  }

  /** The collected sequences are in the order in which the walk meets them first. */
  lemma CollectInOrder(path: Path, block: nat, i: nat, j: nat)
    requires i < j < |Collect(path, block, [])|
    ensures MetBefore(Met(path, block), Collect(path, block, [])[i], Collect(path, block, [])[j])
  {
    CollectIsDeduped(path, block, []);
    DedupedInOrder([], Met(path, block));
  }

  method SameSequence(A: Sequence, B: Sequence) returns (same: bool)
    ensures same == (A == B)
  {
    if |A| != |B| { return false; }
    for i := 0 to |A|
      invariant A[..i] == B[..i]
    {
      if A[i].component != B[i].component || A[i].sense != B[i].sense || A[i].bound != B[i].bound {
        return false;
      }
    }
    assert A[..|A|] == A && B[..|B|] == B;
    return true;
  }

  /** Walks from the current node to the root and collects the sequences of the block. */
  method CollectSequences(path: Path, block: nat) returns (C: seq<Sequence>)
    ensures C == Collect(path, block, [])
  {
    C := [];
    var k := 0;
    while k < |path| && !path[k].Other?
      invariant k <= |path|
      invariant Collect(path[k..], block, C) == Collect(path, block, [])
    {
      CollectStep(path, k, block, C);
      if path[k].Generic? {
        if |path[k].consS| == 0 { return; }
        if path[k].block == block {
          C := AddIfNew(C, path[k].consS);
        }
      }
      k := k + 1;
    }
  }

  lemma CollectStep(path: Path, k: nat, block: nat, C: seq<Sequence>)
    requires k < |path|
    ensures Collect(path[k..], block, C) ==
      match path[k]
      case Other => C
      case Direct(_, _, _) => Collect(path[k + 1..], block, C)
      case Generic(b, S, _) =>
        if |S| == 0 then C
        else Collect(path[k + 1..], block, if b != block || S in C then C else C + [S])
  {
    assert path[k..][1..] == path[k + 1..];
  }

  method AddIfNew(C0: seq<Sequence>, S: Sequence) returns (C: seq<Sequence>)
    ensures C == if S in C0 then C0 else C0 + [S]
  {
    C := C0;
    var SinC, c := false, 0;
    while c < |C| && !SinC
      invariant c <= |C| && (if SinC then S in C else forall x :: 0 <= x < c ==> C[x] != S)
    {
      SinC := SameSequence(S, C[c]);
      c := c + 1;
    }
    if !SinC {
      C := C + [S];
    }
  }

  // ---------- consistency ----------

  /** Where A and B first part, they bound the same component at the same value: only the sense differs. */
  ghost predicate Compatible(A: Sequence, B: Sequence) {
    forall i :: 0 <= i < |A| && i < |B| && A[..i] == B[..i] ==>
      A[i].component == B[i].component && A[i].bound == B[i].bound
  }

  ghost predicate CompatibleWithAll(C: seq<Sequence>, S: Sequence) {
    forall k :: 0 <= k < |C| ==> Compatible(C[k], S)
  }

  ghost predicate Consistent(C: seq<Sequence>) {
    forall k :: 0 <= k < |C| ==> CompatibleWithAll(C, C[k])
  }

  ghost predicate NoDuplicates(C: seq<Sequence>) {
    forall x, y :: 0 <= x < y < |C| ==> C[x] != C[y]
  }

  lemma CompatibleSymmetric(A: Sequence, B: Sequence)
    requires Compatible(A, B)
    ensures Compatible(B, A)
  {
  }

  /** C holds exactly the sequences of C0 that start with S. */
  ghost predicate Below(C0: seq<Sequence>, C: seq<Sequence>, S: Sequence) {
    && (forall A: Sequence :: A in C ==> A in C0 && |S| <= |A| && A[..|S|] == S)
    && (forall A: Sequence :: A in C0 && |S| <= |A| && A[..|S|] == S ==> A in C)
  }

  lemma {:induction false} WithSenseMembers(C: seq<Sequence>, p: nat, sense: Sense)
    requires p > 0
    ensures forall A: Sequence :: A in WithSense(C, p, sense) <==> A in C && |A| >= p && A[p - 1].sense == sense
  {
    if |C| > 0 {
      var front, last := C[..|C| - 1], C[|C| - 1];
      WithSenseMembers(front, p, sense);
      assert C == front + [last];
    }
  }

  /** The sequences that are kept stay in order. */
  lemma {:induction false} WithSenseInOrder(C: seq<Sequence>, p: nat, sense: Sense, i: nat, j: nat)
    returns (x: nat, y: nat)
    requires p > 0 && i < j < |WithSense(C, p, sense)|
    ensures x < y < |C| && C[x] == WithSense(C, p, sense)[i] && C[y] == WithSense(C, p, sense)[j]
  {
    var n := |C| - 1;
    var front := WithSense(C[..n], p, sense);
    WithSenseLast(C, p, sense);
    if j < |front| {
      x, y := WithSenseInOrder(C[..n], p, sense, i, j);
    } else {
      x := WithSenseAt(C[..n], p, sense, i);
      y := n;
    }
  }

  lemma WithSenseLast(C: seq<Sequence>, p: nat, sense: Sense)
    requires p > 0 && |C| > 0
    ensures var n := |C| - 1;
      WithSense(C, p, sense) ==
      WithSense(C[..n], p, sense) + if |C[n]| >= p && C[n][p - 1].sense == sense then [C[n]] else []
  {
  }

  lemma WithSenseAt(C: seq<Sequence>, p: nat, sense: Sense, i: nat) returns (x: nat)
    requires p > 0 && i < |WithSense(C, p, sense)|
    ensures x < |C| && C[x] == WithSense(C, p, sense)[i]
  {
    WithSenseMembers(C, p, sense);
    assert WithSense(C, p, sense)[i] in C;
    x :| 0 <= x < |C| && C[x] == WithSense(C, p, sense)[i];
  }

  /** The assertion of Explore, computeNewSequence and ILOcomp: all p-th bounds are on one component. */
  lemma SameComponent(C0: seq<Sequence>, C: seq<Sequence>, S: Sequence, A: Sequence, B: Sequence)
    requires Consistent(C0) && Below(C0, C, S) && A in C && B in C && |S| < |A| && |S| < |B|
    ensures A[|S|].component == B[|S|].component && A[|S|].bound == B[|S|].bound
  {
    var x :| 0 <= x < |C0| && C0[x] == A;
    var y :| 0 <= y < |C0| && C0[y] == B;
    assert CompatibleWithAll(C0, C0[y]) && Compatible(C0[x], C0[y]);
    assert A[..|S|] == B[..|S|];
  }

  /** Filtering by sense descends one level in the tree of sequences. */
  lemma BelowDescends(C0: seq<Sequence>, C: seq<Sequence>, S: Sequence, A: Sequence, sense: Sense)
    requires Consistent(C0) && Below(C0, C, S) && A in C && |S| < |A|
    ensures Below(C0, WithSense(C, |S| + 1, sense), S + [A[|S|].(sense := sense)])
  {
    var T, D := S + [A[|S|].(sense := sense)], WithSense(C, |S| + 1, sense);
    WithSenseMembers(C, |S| + 1, sense);
    forall B | B in D ensures B in C0 && |T| <= |B| && B[..|T|] == T {
      SameComponent(C0, C, S, A, B);
      LongerPrefix(S, B, T);
    }
    forall B | B in C0 && |T| <= |B| && B[..|T|] == T ensures B in D {
      LongerPrefix(S, B, T);
    }
  }

  lemma LongerPrefix(S: Sequence, B: Sequence, T: Sequence)
    requires |T| == |S| + 1 && T[..|S|] == S && |T| <= |B|
    ensures B[..|T|] == T <==> B[..|S|] == S && B[|S|] == T[|S|]
  {
    assert B[..|T|] == B[..|S|] + [B[|S|]];
    assert T == S + [T[|S|]];
  }

  /** Extending S by a bound that a sequence of C has there keeps it compatible with C0. */
  lemma ExtensionCompatible(C0: seq<Sequence>, C: seq<Sequence>, S: Sequence, A: Sequence, b: Bound)
    requires Consistent(C0) && Below(C0, C, S) && A in C && |S| < |A| && CompatibleWithAll(C0, S)
    requires b.component == A[|S|].component && b.bound == A[|S|].bound
    ensures CompatibleWithAll(C0, S + [b])
  {
    var T := S + [b];
    forall k | 0 <= k < |C0| ensures Compatible(C0[k], T) {
      var B := C0[k];
      forall i | 0 <= i < |B| && i < |T| && B[..i] == T[..i]
        ensures B[i].component == T[i].component && B[i].bound == T[i].bound
      {
        assert T[..i] == S[..i];
        if i < |S| {
          assert Compatible(B, S);
        } else {
          assert B in C;
          SameComponent(C0, C, S, A, B);
        }
      }
    }
  }

  lemma PrefixesAgree(A: Sequence, B: Sequence, i: nat, n: nat)
    requires n <= i <= |A| && i <= |B| && A[..i] == B[..i]
    ensures A[..n] == B[..n]
  {
    assert A[..n] == A[..i][..n] && B[..n] == B[..i][..n];
  }

  /** A sequence that leaves C0 behind at S stays compatible however it continues. */
  lemma FreshCompatible(C0: seq<Sequence>, C: seq<Sequence>, S: Sequence, R: Sequence)
    requires Below(C0, C, S) && CompatibleWithAll(C0, S) && |S| <= |R| && R[..|S|] == S
    requires forall A: Sequence :: A in C ==> |A| <= |S|
    ensures CompatibleWithAll(C0, R)
  {
    forall k | 0 <= k < |C0| ensures Compatible(C0[k], R) {
      var B := C0[k];
      assert Compatible(B, S);
      forall i | 0 <= i < |B| && i < |R| && B[..i] == R[..i]
        ensures B[i].component == R[i].component && B[i].bound == R[i].bound
      {
        if i < |S| {
          assert R[..i] == S[..i] && R[i] == S[i];
        } else {
          PrefixesAgree(B, R, i, |S|);
          assert false;
        }
      }
    }
  }

  ghost predicate AllCompatible(C0: seq<Sequence>, R: seq<Sequence>) {
    forall k :: 0 <= k < |R| ==> CompatibleWithAll(C0, R[k])
  }

  /** Whatever Explore records at depth p, below a prefix S of the tree of sequences, fits into that tree. */
  lemma {:induction false} ExplorationsCompatible(C0: seq<Sequence>, C: seq<Sequence>, p: nat, F: seq<Column>,
                                                  I: seq<nat>, S: Sequence)
    requires p == |S| + 1 && Consistent(C0) && Below(C0, C, S) && CompatibleWithAll(C0, S)
    ensures AllCompatible(C0, Explorations(C, p, F, I, S))
    decreases MaxLength(C) + 1 - p
  {
    var k := FirstLong(C, p);
    if |C| == 0 || |F| == 0 || |I| == 0 || k == |C| {
      SeparationsCompatible(C0, C, F, I, S);
    } else {
      var A := C[k];
      var c := A[p - 1];
      ExplorationsStep(C, p, F, I, S);
      ExtensionCompatible(C0, C, S, A, c);
      PartCompatible(C0, C, S, A, GE);
      PartCompatible(C0, C, S, A, LT);
      ExplorationsCompatible(C0, WithSense(C, p, GE), p + 1, Keep(F, c.(sense := GE)), I, S + [c.(sense := GE)]);
      ExplorationsCompatible(C0, WithSense(C, p, LT), p + 1, Keep(F, c.(sense := LT)), I, S + [c.(sense := LT)]);
      SidesCompatible(C0, C, p, F, I, S, c);
    }
  }

  lemma SidesCompatible(C0: seq<Sequence>, C: seq<Sequence>, p: nat, F: seq<Column>, I: seq<nat>, S: Sequence, c: Bound)
    requires p > 0 && |C| > 0 && |F| > 0 && |I| > 0 && FirstLong(C, p) < |C| && c == C[FirstLong(C, p)][p - 1]
    requires CompatibleWithAll(C0, S + [c])
    requires AllCompatible(C0, Explorations(WithSense(C, p, GE), p + 1, Keep(F, c.(sense := GE)), I,
                                           S + [c.(sense := GE)]))
    requires AllCompatible(C0, Explorations(WithSense(C, p, LT), p + 1, Keep(F, c.(sense := LT)), I,
                                           S + [c.(sense := LT)]))
    ensures AllCompatible(C0, Explorations(C, p, F, I, S))
  {
    ExplorationsStep(C, p, F, I, S);
    assert AllCompatible(C0, UpperExplorations(C, p, F, I, S, c));
    assert AllCompatible(C0, LowerExplorations(C, p, F, I, S, c));
  }

  lemma PartCompatible(C0: seq<Sequence>, C: seq<Sequence>, S: Sequence, A: Sequence, sense: Sense)
    requires Consistent(C0) && Below(C0, C, S) && CompatibleWithAll(C0, S) && A in C && |S| < |A|
    ensures var T := S + [A[|S|].(sense := sense)];
      Below(C0, WithSense(C, |S| + 1, sense), T) && CompatibleWithAll(C0, T)
  {
    ExtensionCompatible(C0, C, S, A, A[|S|].(sense := sense));
    BelowDescends(C0, C, S, A, sense);
  }

  lemma SeparationsCompatible(C0: seq<Sequence>, C: seq<Sequence>, F: seq<Column>, I: seq<nat>, S: Sequence)
    requires Below(C0, C, S) && CompatibleWithAll(C0, S)
    requires |C| == 0 || |F| == 0 || |I| == 0 || FirstLong(C, |S| + 1) == |C|
    ensures AllCompatible(C0, Separations(F, I, S))
  {
    var R := Separations(F, I, S);
    if |F| > 0 && |I| > 0 {
      SeparationsExtend(F, I, S);
      assert forall A: Sequence :: A in C ==> |A| <= |S|;
      forall k | 0 <= k < |R| ensures CompatibleWithAll(C0, R[k]) {
        FreshCompatible(C0, C, S, R[k]);
      }
    }
  }

  // ---------- one branching step ----------

  lemma FoundCompatible(C: seq<Sequence>, F: seq<Column>, I: seq<nat>)
    requires Consistent(C)
    ensures AllCompatible(C, Found(C, F, I))
  {
    forall k | 0 <= k < |C| ensures Compatible(C[k], []) {
    }
    if |C| > 0 { ExplorationsCompatible(C, C, 1, F, I, []); }
  }

  lemma ChildCompatible(C: seq<Sequence>, S: Sequence, p: nat)
    requires CompatibleWithAll(C, S) && p <= |S|
    ensures CompatibleWithAll(C, ChildSequence(S, p))
  {
    var T := ChildSequence(S, p);
    forall k | 0 <= k < |C| ensures Compatible(C[k], T) {
      var A := C[k];
      assert Compatible(A, S);
      forall i | 0 <= i < |A| && i < |T| && A[..i] == T[..i]
        ensures A[i].component == T[i].component && A[i].bound == T[i].bound
      {
        assert T[..i] == S[..i];
      }
    }
  }

  // ---------- paths that branching can produce ----------

  /** The sequences a path contributes for a block. */
  function Sequences(path: Path, block: nat): set<Sequence> {
    if |path| == 0 then {}
    else match path[0]
      case Other => {}
      case Direct(_, _, _) => Sequences(path[1..], block)
      case Generic(b, S, _) =>
        if |S| == 0 then {}
        else Sequences(path[1..], block) + if b == block then {S} else {}
  }

  lemma {:induction false} CollectMembers(path: Path, block: nat, C: seq<Sequence>)
    requires NoDuplicates(C)
    ensures NoDuplicates(Collect(path, block, C))
    ensures forall A :: A in Collect(path, block, C) <==> A in C || A in Sequences(path, block)
  {
    if |path| > 0 {
      match path[0]
      case Other =>
      case Direct(_, _, _) => CollectMembers(path[1..], block, C);
      case Generic(b, S, _) =>
        if |S| > 0 && b != block {
          CollectMembers(path[1..], block, C);
        } else if |S| > 0 {
          CollectMembers(path[1..], block, if S in C then C else C + [S]);
        }
    }
  }

  ghost predicate ConsistentSet(C: set<Sequence>) {
    forall A, B :: A in C && B in C ==> Compatible(A, B)
  }

  lemma CollectedConsistent(path: Path, block: nat)
    ensures NoDuplicates(Collect(path, block, []))
    ensures ConsistentSet(Sequences(path, block)) <==> Consistent(Collect(path, block, []))
  {
    var C := Collect(path, block, []);
    CollectMembers(path, block, []);
    if Consistent(C) {
      forall A, B | A in Sequences(path, block) && B in Sequences(path, block) ensures Compatible(A, B) {
        var x :| 0 <= x < |C| && C[x] == A;
        var y :| 0 <= y < |C| && C[y] == B;
        assert CompatibleWithAll(C, C[y]);
      }
    }
    if ConsistentSet(Sequences(path, block)) {
      forall x | 0 <= x < |C| ensures CompatibleWithAll(C, C[x]) {
        forall y | 0 <= y < |C| ensures Compatible(C[y], C[x]) {
          assert C[x] in C && C[y] in C;
        }
      }
    }
  }

  /** child is the p-th child of a sequence that the search may return at the end of parent. */
  ghost predicate GenericChildOf(parent: Path, child: NodeData, F: seq<Column>, I: seq<nat>, S: Sequence, p: nat) {
    && child.Generic? && p <= |S| && S in Found(Collect(parent, child.block, []), F, I)
    && child.consS == ChildSequence(S, p)
  }

  /** Paths that arise from any number of branching steps, on any blocks and LP solutions, from the root. */
  ghost predicate Grown(path: Path) {
    |path| == 0 ||
    (Grown(path[1..]) &&
     (path[0].Generic? ==> exists F, I, S, p :: GenericChildOf(path[1..], path[0], F, I, S, p)))
  }

  /** On every reachable path, for every block, the collected set is consistent and free of repetition. */
  lemma {:induction false} GrownConsistent(path: Path, block: nat)
    requires Grown(path)
    ensures Consistent(Collect(path, block, [])) && NoDuplicates(Collect(path, block, []))
  {
    CollectedConsistent(path, block);
    if |path| > 0 {
      var parent := path[1..];
      GrownConsistent(parent, block);
      CollectedConsistent(parent, block);
      if path[0].Generic? && path[0].block == block {
        var F, I, S, p :| GenericChildOf(parent, path[0], F, I, S, p);
        NewMemberConsistent(parent, block, F, I, S, p);
      }
    }
  }

  lemma NewMemberConsistent(parent: Path, block: nat, F: seq<Column>, I: seq<nat>, S: Sequence, p: nat)
    requires Consistent(Collect(parent, block, [])) && p <= |S| && S in Found(Collect(parent, block, []), F, I)
    ensures ConsistentSet(Sequences(parent, block) + {ChildSequence(S, p)})
  {
    var C, T := Collect(parent, block, []), ChildSequence(S, p);
    CollectMembers(parent, block, []);
    CollectedConsistent(parent, block);
    FoundCompatible(C, F, I);
    var k :| 0 <= k < |Found(C, F, I)| && Found(C, F, I)[k] == S;
    ChildCompatible(C, S, p);
    forall A | A in Sequences(parent, block) ensures Compatible(A, T) && Compatible(T, A) {
      var x :| 0 <= x < |C| && C[x] == A;
      CompatibleSymmetric(A, T);
    }
  }

  // ---------- whole trees ----------

  /** An LP solution that is branched on in a block: its fractional (F) and integral (R) columns and the choice of S. */
  datatype LpNode = LpNode(columns: seq<Column>, block: nat, F: seq<Column>, R: seq<Column>, I: seq<nat>, S: Sequence)

  /** A branch-and-bound tree: open leaves, generic splits, and direct splits on a copied variable. */
  datatype Tree =
    | Open
    | GenericSplit(lp: LpNode, children: seq<Tree>)
    | DirectSplit(id: nat, value: real, up: Tree, down: Tree)

  /** The cast `(int)(SCIPceil(x) + 0.5)` that fixes the bound of direct branching. */
  function DirectBound(x: real): int {
    Rounded(Ceil(x))
  }

  function GenericNode(lp: LpNode, K: nat -> int, p: nat): NodeData
    requires p <= |lp.S|
  {
    Generic(lp.block, ChildSequence(lp.S, p), ChildLhs(BlockColumns(lp.columns, lp.block), K(lp.block), lp.S, p))
  }

  /** The LP solution meets the convexity constraint of the block, and S was found on its fractional columns. */
  ghost predicate BranchedOn(lp: LpNode, path: Path, K: nat -> int) {
    var B := BlockColumns(lp.columns, lp.block);
    && multiset(B) == multiset(lp.F + lp.R) && Integral(lp.R)
    && Mass(OwnColumns(lp.columns, lp.block), []) == K(lp.block) as real
    && lp.S in Found(Collect(path, lp.block, []), lp.F, lp.I)
  }

  /**
   * The linking columns that the block counts have integral total value, or S has a single bound, or its first bound
   * is on the side that the search knows to be integral.
   */
  predicate SafeSplit(lp: LpNode, path: Path) {
    Safe(Mass(LinkingColumns(lp.columns, lp.block), []), FirstSense(Collect(path, lp.block, [])), lp.S)
  }

  /** The split is safe, or some child asks for nothing. */
  predicate Exhaustive(lp: LpNode, path: Path, K: nat -> int) {
    SafeSplit(lp, path) || !AllLhsPositive(BlockColumns(lp.columns, lp.block), K(lp.block), lp.S)
  }

  /** A tree of branching steps in which every generic split is exhaustive. */
  ghost predicate ValidTree(tree: Tree, path: Path, K: nat -> int) {
    match tree
    case Open => true
    case GenericSplit(lp, children) =>
      && BranchedOn(lp, path, K) && Exhaustive(lp, path, K) && |children| == |lp.S| + 1
      && forall p :: 0 <= p < |children| ==> ValidTree(children[p], [GenericNode(lp, K, p)] + path, K)
    case DirectSplit(id, x, up, down) =>
      && ValidTree(up, [NodeData.Direct(id, GE, DirectBound(x))] + path, K)
      && ValidTree(down, [NodeData.Direct(id, LT, DirectBound(x))] + path, K)
  }

  function ValueOf(Y: seq<Column>, id: nat): real {
    if |Y| == 0 then 0.0 else if Y[0].id == id then Y[0].value else ValueOf(Y[1..], id)
  }

  /** The master constraint of a node, evaluated at a master solution. */
  ghost predicate Accepts(Y: seq<Column>, node: NodeData) {
    match node
    case Other => true
    case Direct(id, sense, bound) =>
      if sense == GE then ValueOf(Y, id) >= bound as real else ValueOf(Y, id) <= (bound - 1) as real
    case Generic(block, S, lhs) => Mass(OwnColumns(Y, block), S) >= lhs
  }

  ghost predicate AcceptsAll(Y: seq<Column>, path: Path) {
    forall k :: 0 <= k < |path| ==> Accepts(Y, path[k])
  }

  ghost predicate SomeLeafAccepts(tree: Tree, path: Path, K: nat -> int, Y: seq<Column>) {
    match tree
    case Open => AcceptsAll(Y, path)
    case GenericSplit(lp, children) =>
      exists p :: 0 <= p < |children| && p <= |lp.S| &&
                  SomeLeafAccepts(children[p], [GenericNode(lp, K, p)] + path, K, Y)
    case DirectSplit(id, x, up, down) =>
      || SomeLeafAccepts(up, [NodeData.Direct(id, GE, DirectBound(x))] + path, K, Y)
      || SomeLeafAccepts(down, [NodeData.Direct(id, LT, DirectBound(x))] + path, K, Y)
  }

  /** An integer master solution: every block has its K columns, and priced columns are not negative. */
  ghost predicate IntegerSolution(Y: seq<Column>, K: nat -> int) {
    && Integral(Y)
    && (forall k :: 0 <= k < |Y| && Y[k].block >= 0 ==> Y[k].value >= 0.0)
    && forall b: nat :: Mass(OwnColumns(Y, b), []) == K(b) as real
  }

  lemma {:induction false} OwnMassNonnegative(Y: seq<Column>, block: nat, S: Sequence)
    requires forall k :: 0 <= k < |Y| && Y[k].block >= 0 ==> Y[k].value >= 0.0
    ensures Mass(OwnColumns(Y, block), S) >= 0.0
  {
    if |Y| > 0 {
      var front := Y[..|Y| - 1];
      OwnMassNonnegative(front, block, S);
      MassOneMore(OwnColumns(front, block), Y[|Y| - 1], S);
      NoMore(OwnColumns(front, block));
    }
  }

  lemma {:induction false} OwnColumnsIntegral(Y: seq<Column>, block: nat)
    requires Integral(Y)
    ensures Integral(OwnColumns(Y, block))
  {
    if |Y| > 0 { OwnColumnsIntegral(Y[..|Y| - 1], block); }
  }

  lemma {:induction false} ValueOfIntegral(Y: seq<Column>, id: nat)
    requires Integral(Y)
    ensures IsInt(ValueOf(Y, id))
  {
    if |Y| > 0 && Y[0].id != id { ValueOfIntegral(Y[1..], id); }
  }

  /**
   * What createChildNodesGeneric asserts about a sequence that the search returns: its mass is fractional, and its
   * prefix masses are integral exactly if the split is safe.
   */
  lemma FoundBranchable(lp: LpNode, path: Path, K: nat -> int)
    requires BranchedOn(lp, path, K)
    ensures |lp.S| > 0 && !IsInt(Mass(BlockColumns(lp.columns, lp.block), lp.S))
    ensures PrefixMassesIntegral(BlockColumns(lp.columns, lp.block), lp.S) <==> SafeSplit(lp, path)
  {
    var B := BlockColumns(lp.columns, lp.block);
    FoundExactlySafe(Collect(path, lp.block, []), B, lp.F, lp.R, lp.I, lp.S);
    BlockMassSplits(lp.columns, lp.block, []);
    IntIsInt(K(lp.block));
    SplitIntegral(Mass(B, []), K(lp.block) as real, Mass(LinkingColumns(lp.columns, lp.block), []));
  }

  /** Some child takes any given distribution of the K columns of the block exactly if the split is exhaustive. */
  lemma SplitExhaustiveIff(lp: LpNode, path: Path, K: nat -> int)
    requires BranchedOn(lp, path, K) && K(lp.block) >= 0
    ensures (exists m :: Rejected(BlockColumns(lp.columns, lp.block), K(lp.block), lp.S, m)) <==>
            !Exhaustive(lp, path, K)
  {
    FoundBranchable(lp, path, K);
    ExhaustiveIff(BlockColumns(lp.columns, lp.block), K(lp.block), lp.S);
  }

  /** If it is not, an integer solution of the block is lost, given a priced column for each child. */
  lemma UnexhaustiveSplitLoses(lp: LpNode, path: Path, K: nat -> int, columns: seq<Column>) returns (Y: seq<Column>)
    requires BranchedOn(lp, path, K) && K(lp.block) >= 0 && !Exhaustive(lp, path, K)
    requires |columns| == |lp.S| + 1 && OneForEach(columns, lp.S)
    requires forall p :: 0 <= p < |columns| ==> columns[p].block == lp.block
    ensures Integral(Y) && Mass(OwnColumns(Y, lp.block), []) == K(lp.block) as real
    ensures forall k :: 0 <= k < |Y| ==> Y[k].block == lp.block && Y[k].value >= 0.0
    ensures forall p :: 0 <= p <= |lp.S| ==> !Accepts(Y, GenericNode(lp, K, p))
  {
    var B := BlockColumns(lp.columns, lp.block);
    FoundBranchable(lp, path, K);
    var m := RejectedDistribution(B, K(lp.block), lp.S);
    Y := Weighted(columns, m);
    RejectedSolution(B, K(lp.block), lp.S, columns, m);
    WeightedOwn(columns, m, lp.block);
    WeightedValues(columns, m, lp.block);
  }

  lemma {:induction false} WeightedValues(columns: seq<Column>, m: seq<int>, block: nat)
    requires |columns| == |m|
    requires forall p :: 0 <= p < |columns| ==> columns[p].block == block && m[p] >= 0
    ensures forall k :: 0 <= k < |m| ==> Weighted(columns, m)[k].block == block && Weighted(columns, m)[k].value >= 0.0
  {
    if |m| > 0 { WeightedValues(columns[..|m| - 1], m[..|m| - 1], block); }
  }

  lemma {:induction false} WeightedOwn(columns: seq<Column>, m: seq<int>, block: nat)
    requires |columns| == |m| && forall p :: 0 <= p < |columns| ==> columns[p].block == block
    ensures OwnColumns(Weighted(columns, m), block) == Weighted(columns, m)
  {
    if |m| > 0 { WeightedOwn(columns[..|m| - 1], m[..|m| - 1], block); }
  }

  /** No branching run, however long, loses an integer solution of the node it starts from. */
  lemma {:induction false} NoIntegerSolutionLost(tree: Tree, path: Path, K: nat -> int, Y: seq<Column>)
    requires ValidTree(tree, path, K) && IntegerSolution(Y, K) && AcceptsAll(Y, path)
    ensures SomeLeafAccepts(tree, path, K, Y)
    decreases tree
  {
    match tree
    case Open =>
    case GenericSplit(lp, children) =>
      var p := GenericSplitKeeps(lp, path, K, Y);
      ValidChild(lp, children, path, K, p);
      AcceptsOneMore(Y, GenericNode(lp, K, p), path);
      NoIntegerSolutionLost(children[p], [GenericNode(lp, K, p)] + path, K, Y);
      LeafOfChild(lp, children, path, K, Y, p);
    case DirectSplit(id, x, up, down) =>
      var upNode, downNode := NodeData.Direct(id, GE, DirectBound(x)), NodeData.Direct(id, LT, DirectBound(x));
      DirectSplitKeeps(id, DirectBound(x), Y);
      if Accepts(Y, upNode) {
        AcceptsOneMore(Y, upNode, path);
        NoIntegerSolutionLost(up, [upNode] + path, K, Y);
      } else {
        AcceptsOneMore(Y, downNode, path);
        NoIntegerSolutionLost(down, [downNode] + path, K, Y);
      }
  }

  lemma AcceptsOneMore(Y: seq<Column>, node: NodeData, path: Path)
    requires Accepts(Y, node) && AcceptsAll(Y, path)
    ensures AcceptsAll(Y, [node] + path)
  {
  }

  lemma ValidChild(lp: LpNode, children: seq<Tree>, path: Path, K: nat -> int, p: nat)
    requires ValidTree(GenericSplit(lp, children), path, K) && p <= |lp.S|
    ensures p < |children| && ValidTree(children[p], [GenericNode(lp, K, p)] + path, K)
  {
  }

  lemma LeafOfChild(lp: LpNode, children: seq<Tree>, path: Path, K: nat -> int, Y: seq<Column>, p: nat)
    requires p < |children| && p <= |lp.S|
    requires SomeLeafAccepts(children[p], [GenericNode(lp, K, p)] + path, K, Y)
    ensures SomeLeafAccepts(GenericSplit(lp, children), path, K, Y)
  {
  }

  lemma DirectSplitKeeps(id: nat, bound: int, Y: seq<Column>)
    requires Integral(Y)
    ensures Accepts(Y, NodeData.Direct(id, GE, bound)) || Accepts(Y, NodeData.Direct(id, LT, bound))
  {
    ValueOfIntegral(Y, id);
    IntIsInt(bound);
    if ValueOf(Y, id) < bound as real { IntegerStep(ValueOf(Y, id), bound as real); }
  }

  lemma GenericSplitKeeps(lp: LpNode, path: Path, K: nat -> int, Y: seq<Column>) returns (p: nat)
    requires BranchedOn(lp, path, K) && Exhaustive(lp, path, K) && IntegerSolution(Y, K)
    ensures p <= |lp.S| && Accepts(Y, GenericNode(lp, K, p))
  {
    var B := BlockColumns(lp.columns, lp.block);
    if SafeSplit(lp, path) {
      FoundBranchable(lp, path, K);
      OwnColumnsIntegral(Y, lp.block);
      p := SomeChildAccepts(B, K(lp.block), lp.S, OwnColumns(Y, lp.block));
    } else {
      p :| 0 <= p <= |lp.S| && ChildLhs(B, K(lp.block), lp.S, p) <= 0.0;
      OwnMassNonnegative(Y, lp.block, ChildSequence(lp.S, p));
    }
  }

  /** The own columns' mass of a child sequence: the prefix difference, less what linking columns contribute. */
  lemma OwnChildMass(columns: seq<Column>, block: nat, S: Sequence, p: nat)
    requires p < |S|
    ensures Mass(OwnColumns(columns, block), ChildSequence(S, p)) ==
            Mass(BlockColumns(columns, block), S[..p]) - Mass(BlockColumns(columns, block), S[..p + 1])
            - Mass(LinkingColumns(columns, block), ChildSequence(S, p))
  {
    BlockMassSplits(columns, block, ChildSequence(S, p));
    ChildMass(BlockColumns(columns, block), S, p);
  }

  /** By how much the left-hand side of a child after the first exceeds the mass that its levels count. */
  function Room(counted: seq<Column>, S: Sequence, p: nat): (room: real)
    requires 0 < p <= |S| && !IsInt(Mass(counted, S))
    ensures 0.0 < room <= 1.0
  {
    var m := Mass(counted, S);
    RoomBounds(m);
    if p < |S| - 1 then 1.0 else if p < |S| then m + 1.0 - Ceil(m) as real else Ceil(m) as real - m
  }

  /**
   * A child after the first rejects the LP solution it was created for exactly if the linking columns that its bounds
   * count, but its constraint cannot contain, do not fall below minus that room.
   */
  lemma LaterChildrenCutOff(columns: seq<Column>, block: nat, K: int, S: Sequence, p: nat)
    requires !IsInt(Mass(BlockColumns(columns, block), S)) && 0 < p <= |S|
    ensures Mass(OwnColumns(columns, block), ChildSequence(S, p)) < ChildLhs(BlockColumns(columns, block), K, S, p)
       <==> Mass(LinkingColumns(columns, block), ChildSequence(S, p)) > -Room(BlockColumns(columns, block), S, p)
  {
    assert S[..|S|] == S;
    if p < |S| {
      OwnChildMass(columns, block, S, p);
    } else {
      BlockMassSplits(columns, block, S);
    }
  }

  /** What the rounding of the first level leaves: one, or less when S has a single bound. */
  function Slack(counted: seq<Column>, K: int, S: Sequence): real
    requires |S| > 0
  {
    1.0 + Mass(counted, S[..1]) - Level(counted, K, S, 1)
  }

  /**
   * The first child rejects the LP solution exactly when the linking columns that its bound counts, but its
   * constraint cannot contain, weigh less than the slack.
   */
  lemma FirstChildCutsOff(columns: seq<Column>, block: nat, K: int, S: Sequence)
    requires |S| > 0 && Mass(OwnColumns(columns, block), []) == K as real
    ensures Mass(OwnColumns(columns, block), ChildSequence(S, 0)) < ChildLhs(BlockColumns(columns, block), K, S, 0)
       <==> Mass(LinkingColumns(columns, block), S[..1]) < Slack(BlockColumns(columns, block), K, S)
    ensures Slack(BlockColumns(columns, block), K, S) > 0.0
    ensures |S| > 1 ==> Slack(BlockColumns(columns, block), K, S) == 1.0
    ensures |S| == 1 ==> var m := Mass(BlockColumns(columns, block), S);
      Slack(BlockColumns(columns, block), K, S) == 1.0 + m - Ceil(m) as real
  {
    var own := OwnColumns(columns, block);
    ChildMass(own, S, 0);
    BlockMassSplits(columns, block, S[..1]);
    assert S[..0] == [] && (|S| == 1 ==> S[..1] == S);
  }

  /**
   * Which children keep the LP solution, whatever sign its values have: the first one exactly if the linking columns
   * outweigh the slack, a later one exactly if those on its bounds fall below minus its room. If no linking column is
   * negative, only the first one can; without linking columns none does.
   */
  lemma GenericSplitCutsOff(lp: LpNode, path: Path, K: nat -> int, p: nat)
    requires BranchedOn(lp, path, K) && p <= |lp.S|
    ensures |lp.S| > 0 && !IsInt(Mass(BlockColumns(lp.columns, lp.block), lp.S))
    ensures var B, L := BlockColumns(lp.columns, lp.block), LinkingColumns(lp.columns, lp.block);
      Accepts(lp.columns, GenericNode(lp, K, p)) <==>
        if p == 0 then Mass(L, lp.S[..1]) >= Slack(B, K(lp.block), lp.S)
        else Mass(L, ChildSequence(lp.S, p)) <= -Room(B, lp.S, p)
    ensures NoneNegative(LinkingColumns(lp.columns, lp.block)) && Accepts(lp.columns, GenericNode(lp, K, p)) ==> p == 0
    ensures LinkingColumns(lp.columns, lp.block) == [] ==> !Accepts(lp.columns, GenericNode(lp, K, p))
  {
    FoundBranchable(lp, path, K);
    FirstChildCutsOff(lp.columns, lp.block, K(lp.block), lp.S);
    if p > 0 {
      LaterChildrenCutOff(lp.columns, lp.block, K(lp.block), lp.S, p);
      if NoneNegative(LinkingColumns(lp.columns, lp.block)) {
        MassNonnegative(LinkingColumns(lp.columns, lp.block), ChildSequence(lp.S, p));
      }
    }
  }

  predicate NoneNegative(F: seq<Column>) {
    forall k :: 0 <= k < |F| ==> F[k].value >= 0.0
  }

  lemma {:induction false} MassNonnegative(F: seq<Column>, S: Sequence)
    requires NoneNegative(F)
    ensures Mass(F, S) >= 0.0
  {
    if |F| > 0 { MassNonnegative(F[..|F| - 1], S); }
  }

  /** Whatever the linking columns are, some child rejects the LP solution. */
  lemma SomeChildCutsOff(lp: LpNode, path: Path, K: nat -> int)
    requires BranchedOn(lp, path, K)
    ensures exists p :: 0 <= p <= |lp.S| && !Accepts(lp.columns, GenericNode(lp, K, p))
  {
    FoundBranchable(lp, path, K);
    if forall p :: 0 <= p <= |lp.S| ==> Accepts(lp.columns, GenericNode(lp, K, p)) { AllAccept(lp, K); }
  }

  /** Children that all accept demand more than the K columns of the block. */
  lemma AllAccept(lp: LpNode, K: nat -> int)
    requires |lp.S| > 0 && forall p :: 0 <= p <= |lp.S| ==> Accepts(lp.columns, GenericNode(lp, K, p))
    ensures Mass(OwnColumns(lp.columns, lp.block), []) >= (K(lp.block) + |lp.S|) as real
  {
    var B, own := BlockColumns(lp.columns, lp.block), OwnColumns(lp.columns, lp.block);
    LhsTotal(B, K(lp.block), lp.S);
    forall p | 0 <= p <= |lp.S| ensures Mass(own, ChildSequence(lp.S, p)) >= ChildLhs(B, K(lp.block), lp.S, p) {
      assert Accepts(lp.columns, GenericNode(lp, K, p));
    }
    AcceptedTotal(B, own, K(lp.block), lp.S, |lp.S|);
    assert lp.S[..|lp.S|] == lp.S;
    assert Mass(own, ChildSequence(lp.S, |lp.S|)) >= ChildLhs(B, K(lp.block), lp.S, |lp.S|);
  }

  /** The first q children share out the mass that the first q bounds leave. */
  lemma {:induction false} AcceptedTotal(B: seq<Column>, own: seq<Column>, K: int, S: Sequence, q: nat)
    requires q <= |S|
    requires forall p :: 0 <= p <= |S| ==> Mass(own, ChildSequence(S, p)) >= ChildLhs(B, K, S, p)
    ensures Mass(own, []) - Mass(own, S[..q]) >= LhsSum(B, K, S, q)
  {
    if q > 0 {
      AcceptedTotal(B, own, K, S, q - 1);
      ChildMass(own, S, q - 1);
      assert Mass(own, ChildSequence(S, q - 1)) >= ChildLhs(B, K, S, q - 1);
    } else {
      assert S[..0] == [];
    }
  }

  /**
   * Direct branching rejects the LP value in both children exactly when it lies above -1: below that the
   * cast truncates the ceiling toward zero, and the down child still admits the value.
   */
  lemma DirectSplitCutsOff(x: real)
    requires !IsInt(x)
    ensures (DirectBound(x) - 1) as real < x < DirectBound(x) as real <==> x > -1.0
  {
  }

  lemma DirectSplitKeepsFractionalValue()
    ensures !IsInt(-1.5) && -1.5 <= (DirectBound(-1.5) - 1) as real
  {
    FloorUnique(-1.5, -2);
  }

  /** q is the path to some node of the tree, whose own root path is `path`. */
  ghost predicate IsPathOf(tree: Tree, path: Path, K: nat -> int, q: Path) {
    q == path ||
    match tree
    case Open => false
    case GenericSplit(lp, children) =>
      exists p :: 0 <= p < |children| && p <= |lp.S| && IsPathOf(children[p], [GenericNode(lp, K, p)] + path, K, q)
    case DirectSplit(id, x, up, down) =>
      || IsPathOf(up, [NodeData.Direct(id, GE, DirectBound(x))] + path, K, q)
      || IsPathOf(down, [NodeData.Direct(id, LT, DirectBound(x))] + path, K, q)
  }

  /** Every path through a valid tree is one of the paths that branching can produce. */
  lemma {:induction false} TreePathsGrown(tree: Tree, path: Path, K: nat -> int, q: Path)
    requires Grown(path) && ValidTree(tree, path, K) && IsPathOf(tree, path, K, q)
    ensures Grown(q)
    decreases tree
  {
    if q != path {
      match tree
      case Open =>
      case GenericSplit(lp, children) =>
        var p :| 0 <= p < |children| && p <= |lp.S| && IsPathOf(children[p], [GenericNode(lp, K, p)] + path, K, q);
        ValidChild(lp, children, path, K, p);
        GenericNodeGrown(lp, path, K, p);
        TreePathsGrown(children[p], [GenericNode(lp, K, p)] + path, K, q);
      case DirectSplit(id, x, up, down) =>
        var upPath := [NodeData.Direct(id, GE, DirectBound(x))] + path;
        var downPath := [NodeData.Direct(id, LT, DirectBound(x))] + path;
        assert upPath[1..] == path && downPath[1..] == path;
        if IsPathOf(up, upPath, K, q) {
          TreePathsGrown(up, upPath, K, q);
        } else {
          TreePathsGrown(down, downPath, K, q);
        }
    }
  }

  lemma GenericNodeGrown(lp: LpNode, path: Path, K: nat -> int, p: nat)
    requires Grown(path) && BranchedOn(lp, path, K) && p <= |lp.S|
    ensures Grown([GenericNode(lp, K, p)] + path)
  {
    var child := [GenericNode(lp, K, p)] + path;
    assert child[1..] == path;
    assert GenericChildOf(path, child[0], lp.F, lp.I, lp.S, p);
  }
}

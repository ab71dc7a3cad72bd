/** ILOcomp: the lexicographic order induced by a set of branching sequences. */
module InducedOrder {
  import opened Columns
  import opened Separation
  import opened Search
  import opened BranchTree

  /** ptrcomp: descending lexicographic comparison over the integer original variables. */
  function PtrComp(a: Column, b: Column, vars: seq<nat>, integer: set<nat>): int {
    if |vars| == 0 then 0
    else
      var x, y := GeneratorEntry(a, vars[0]), GeneratorEntry(b, vars[0]);
      if vars[0] in integer && x > y then -1
      else if vars[0] in integer && x < y then 1
      else PtrComp(a, b, vars[1..], integer)
  }

  method PtrCompare(a: Column, b: Column, vars: seq<nat>, integer: set<nat>) returns (r: int)
    ensures r == PtrComp(a, b, vars, integer)
  {
    for i := 0 to |vars|
      invariant PtrComp(a, b, vars[i..], integer) == PtrComp(a, b, vars, integer)
    {
      assert vars[i..][1..] == vars[i + 1..];
      if vars[i] in integer {
        var x := GetGeneratorEntry(a, vars[i]);
        var y := GetGeneratorEntry(b, vars[i]);
        if x > y { return -1; }
        if x < y { return 1; }
      }
    }
    return 0;
  }

  /**
   * The assertions of ILOcomp at depth p and below: when more than one sequence is left, one of them has a
   * p-th bound, and all p-th bounds are on the same component.
   */
  ghost predicate Ready(C: seq<Sequence>, p: nat)
    requires p > 0
    decreases MaxLength(C) + 1 - p
  {
    |C| <= 1 ||
    (var k := FirstLong(C, p);
     && k < |C|
     && (forall j :: 0 <= j < |C| && |C[j]| >= p ==> C[j][p - 1].component == C[k][p - 1].component)
     && Ready(WithSense(C, p, GE), p + 1) && Ready(WithSense(C, p, LT), p + 1))
  }

  /** Negative when a comes first: below a split before above it, the rest as ptrcomp decides. */
  function IloComp(a: Column, b: Column, C: seq<Sequence>, p: nat, vars: seq<nat>, integer: set<nat>): int
    requires p > 0 && Ready(C, p)
    decreases MaxLength(C) + 1 - p
  {
    if |C| <= 1 then PtrComp(a, b, vars, integer)
    else
      var c := C[FirstLong(C, p)][p - 1];
      var x, y := GeneratorEntry(a, c.component), GeneratorEntry(b, c.component);
      if x >= c.bound && y >= c.bound then IloComp(a, b, WithSense(C, p, GE), p + 1, vars, integer)
      else if x < c.bound && y < c.bound then IloComp(a, b, WithSense(C, p, LT), p + 1, vars, integer)
      else if x > y then 1 else -1
  }

  method IloCompare(a: Column, b: Column, C: seq<Sequence>, p: nat, vars: seq<nat>, integer: set<nat>)
    returns (r: int)
    requires p > 0 && Ready(C, p)
    ensures r == IloComp(a, b, C, p, vars, integer)
    decreases MaxLength(C) + 1 - p
  {
    if |C| <= 1 {
      r := PtrCompare(a, b, vars, integer);
      return;
    }
    var k := FindLong(C, p);
    var origvar, ivalue := C[k][p - 1].component, C[k][p - 1].bound;
    var x := GetGeneratorEntry(a, origvar);
    var y := GetGeneratorEntry(b, origvar);
    if x >= ivalue && y >= ivalue {
      var CopyC := ComputeNewSequence(C, p, GE);
      r := IloCompare(a, b, CopyC, p + 1, vars, integer);
    } else if x < ivalue && y < ivalue {
      var CopyC := ComputeNewSequence(C, p, LT);
      r := IloCompare(a, b, CopyC, p + 1, vars, integer);
    } else {
      r := if x > y then 1 else -1;
    }
  }

  // ---------- the comparison is defined on every set of sequences that branching collects ----------

  lemma {:induction false} WithSenseNoDuplicates(C: seq<Sequence>, p: nat, sense: Sense)
    requires p > 0 && NoDuplicates(C)
    ensures NoDuplicates(WithSense(C, p, sense))
  {
    if |C| > 0 {
      WithSenseNoDuplicates(C[..|C| - 1], p, sense);
      WithSenseMembers(C[..|C| - 1], p, sense);
      var D := WithSense(C[..|C| - 1], p, sense);
      forall x | 0 <= x < |D| ensures D[x] != C[|C| - 1] {
        assert D[x] in C[..|C| - 1];
      }
    }
  }

  /** Two different sequences with the same prefix S cannot both end there. */
  lemma OneReachesOn(C0: seq<Sequence>, C: seq<Sequence>, S: Sequence)
    requires Below(C0, C, S) && NoDuplicates(C) && |C| > 1
    ensures FirstLong(C, |S| + 1) < |C|
  {
    assert C[0] in C && C[1] in C;
    assert C[0] != C[1];
    assert C[0][..|C[0]|] == C[0] && C[1][..|C[1]|] == C[1];
  }

  lemma {:induction false} ConsistentIsReady(C0: seq<Sequence>, C: seq<Sequence>, p: nat, S: Sequence)
    requires p == |S| + 1 && Consistent(C0) && Below(C0, C, S) && NoDuplicates(C)
    ensures Ready(C, p)
    decreases MaxLength(C) + 1 - p
  {
    if |C| > 1 {
      OneReachesOn(C0, C, S);
      var A := C[FirstLong(C, p)];
      forall j | 0 <= j < |C| && |C[j]| >= p ensures C[j][p - 1].component == A[p - 1].component {
        SameComponent(C0, C, S, C[j], A);
      }
      BelowDescends(C0, C, S, A, GE);
      BelowDescends(C0, C, S, A, LT);
      WithSenseNoDuplicates(C, p, GE);
      WithSenseNoDuplicates(C, p, LT);
      ConsistentIsReady(C0, WithSense(C, p, GE), p + 1, S + [A[p - 1].(sense := GE)]);
      ConsistentIsReady(C0, WithSense(C, p, LT), p + 1, S + [A[p - 1].(sense := LT)]);
    }
  }

  /** On every reachable path the induced order of every block is defined. */
  lemma GrownIsReady(path: Path, block: nat)
    requires Grown(path)
    ensures Ready(Collect(path, block, []), 1)
  {
    GrownConsistent(path, block);
    ConsistentIsReady(Collect(path, block, []), Collect(path, block, []), 1, []);
  }

  // ---------- it is a total preorder ----------

  lemma {:induction false} PtrCompAntisymmetric(a: Column, b: Column, vars: seq<nat>, integer: set<nat>)
    ensures PtrComp(a, b, vars, integer) == -PtrComp(b, a, vars, integer)
  {
    if |vars| > 0 { PtrCompAntisymmetric(a, b, vars[1..], integer); }
  }

  lemma {:induction false} PtrCompTransitive(a: Column, b: Column, c: Column, vars: seq<nat>, integer: set<nat>)
    requires PtrComp(a, b, vars, integer) <= 0 && PtrComp(b, c, vars, integer) <= 0
    ensures PtrComp(a, c, vars, integer) <= 0
    ensures PtrComp(a, c, vars, integer) == 0 ==> PtrComp(a, b, vars, integer) == PtrComp(b, c, vars, integer) == 0
  {
    if |vars| > 0 {
      var x, y, z := GeneratorEntry(a, vars[0]), GeneratorEntry(b, vars[0]), GeneratorEntry(c, vars[0]);
      if vars[0] !in integer || (x == y && y == z) {
        PtrCompTransitive(a, b, c, vars[1..], integer);
      }
    }
  }

  ghost predicate SameGenerator(a: Column, b: Column, vars: seq<nat>, integer: set<nat>) {
    forall k :: 0 <= k < |vars| && vars[k] in integer ==> GeneratorEntry(a, vars[k]) == GeneratorEntry(b, vars[k])
  }

  lemma {:induction false} PtrCompZero(a: Column, b: Column, vars: seq<nat>, integer: set<nat>)
    ensures PtrComp(a, b, vars, integer) == 0 <==> SameGenerator(a, b, vars, integer)
  {
    if |vars| > 0 {
      PtrCompZero(a, b, vars[1..], integer);
      if SameGenerator(a, b, vars, integer) {
        forall k | 0 <= k < |vars[1..]| && vars[1..][k] in integer
          ensures GeneratorEntry(a, vars[1..][k]) == GeneratorEntry(b, vars[1..][k])
        {
          assert vars[1..][k] == vars[k + 1];
        }
      }
      if SameGenerator(a, b, vars[1..], integer) {
        forall k | 0 < k < |vars| && vars[k] in integer
          ensures GeneratorEntry(a, vars[k]) == GeneratorEntry(b, vars[k])
        {
          assert vars[k] == vars[1..][k - 1];
        }
      }
    }
  }

  /** Position k is the first one at which the columns differ on an integer variable. */
  ghost predicate FirstDifference(a: Column, b: Column, vars: seq<nat>, integer: set<nat>, k: nat) {
    && k < |vars| && vars[k] in integer && GeneratorEntry(a, vars[k]) != GeneratorEntry(b, vars[k])
    && forall j :: 0 <= j < k && vars[j] in integer ==> GeneratorEntry(a, vars[j]) == GeneratorEntry(b, vars[j])
  }

  /** The column with the greater entry there comes first. */
  lemma {:induction false} PtrCompDescends(a: Column, b: Column, vars: seq<nat>, integer: set<nat>, k: nat)
    requires FirstDifference(a, b, vars, integer, k)
    ensures PtrComp(a, b, vars, integer) == if GeneratorEntry(a, vars[k]) > GeneratorEntry(b, vars[k]) then -1 else 1
    decreases |vars|
  {
    if k > 0 {
      var rest := vars[1..];
      assert forall j :: 0 <= j < |rest| ==> rest[j] == vars[j + 1];
      PtrCompDescends(a, b, rest, integer, k - 1);
    }
  }

  /** Columns that do not tie have a first difference. */
  lemma {:induction false} SomeFirstDifference(a: Column, b: Column, vars: seq<nat>, integer: set<nat>)
    returns (k: nat)
    requires PtrComp(a, b, vars, integer) != 0
    ensures FirstDifference(a, b, vars, integer, k)
  {
    if vars[0] in integer && GeneratorEntry(a, vars[0]) != GeneratorEntry(b, vars[0]) {
      k := 0;
    } else {
      var rest := vars[1..];
      k := SomeFirstDifference(a, b, rest, integer);
      forall j | 0 <= j < k + 1 && vars[j] in integer ensures GeneratorEntry(a, vars[j]) == GeneratorEntry(b, vars[j]) {
        if j > 0 { assert vars[j] == rest[j - 1]; }
      }
      k := k + 1;
    }
  }

  /** T lists the sides of the splits that the set C makes one after another, from depth p on. */
  ghost predicate SplitsAlong(C: seq<Sequence>, p: nat, T: Sequence)
    requires p > 0
    decreases |T|
  {
    |T| == 0 ||
    (&& |C| > 1 && FirstLong(C, p) < |C|
     && T[0] == C[FirstLong(C, p)][p - 1].(sense := T[0].sense)
     && SplitsAlong(WithSense(C, p, T[0].sense), p + 1, T[1..]))
  }

  /** What is left of C after these splits. */
  function LeftAlong(C: seq<Sequence>, p: nat, T: Sequence): seq<Sequence>
    requires p > 0
    decreases |T|
  {
    if |T| == 0 then C else LeftAlong(WithSense(C, p, T[0].sense), p + 1, T[1..])
  }

  /**
   * Two columns that lie on the same sides T of the first splits: if the next split parts them, the one below its bound
   * comes first; if there is no next split, ptrcomp decides.
   */
  lemma {:induction false} IloAscendsAtSplit(a: Column, b: Column, C: seq<Sequence>, p: nat, T: Sequence,
                                             vars: seq<nat>, integer: set<nat>, D: seq<Sequence>, q: nat, r: int)
    requires p > 0 && Ready(C, p) && SplitsAlong(C, p, T) && SatisfiesAll(a, T) && SatisfiesAll(b, T)
    requires D == LeftAlong(C, p, T) && q == p + |T| && r == IloComp(a, b, C, p, vars, integer)
    ensures DecidedBy(a, b, D, q, vars, integer, r)
    decreases |T|
  {
    if |T| > 0 {
      var rest := T[1..];
      RestSatisfied(a, T);
      RestSatisfied(b, T);
      IloOneSide(a, b, C, p, T[0], vars, integer);
      IloAscendsAtSplit(a, b, WithSense(C, p, T[0].sense), p + 1, rest, vars, integer, D, q, r);
    } else {
      IloHere(a, b, C, p, vars, integer);
    }
  }

  lemma RestSatisfied(c: Column, T: Sequence)
    requires |T| > 0 && SatisfiesAll(c, T)
    ensures Satisfies(c, T[0]) && SatisfiesAll(c, T[1..])
  {
  }

  lemma IloHere(a: Column, b: Column, C: seq<Sequence>, p: nat, vars: seq<nat>, integer: set<nat>)
    requires p > 0 && Ready(C, p)
    ensures DecidedBy(a, b, C, p, vars, integer, IloComp(a, b, C, p, vars, integer))
  {
  }

  /** The comparison, given the sequences that are left. */
  ghost predicate DecidedBy(a: Column, b: Column, D: seq<Sequence>, q: nat, vars: seq<nat>, integer: set<nat>, r: int)
    requires q > 0
  {
    if |D| <= 1 then r == PtrComp(a, b, vars, integer)
    else
      && FirstLong(D, q) < |D|
      && var d := D[FirstLong(D, q)][q - 1];
         && (GeneratorEntry(a, d.component) < d.bound <= GeneratorEntry(b, d.component) ==> r == -1)
         && (GeneratorEntry(b, d.component) < d.bound <= GeneratorEntry(a, d.component) ==> r == 1)
  }

  lemma IloOneSide(a: Column, b: Column, C: seq<Sequence>, p: nat, t: Bound, vars: seq<nat>, integer: set<nat>)
    requires p > 0 && Ready(C, p) && |C| > 1 && t == C[FirstLong(C, p)][p - 1].(sense := t.sense)
    requires Satisfies(a, t) && Satisfies(b, t)
    ensures Ready(WithSense(C, p, t.sense), p + 1)
    ensures IloComp(a, b, C, p, vars, integer) == IloComp(a, b, WithSense(C, p, t.sense), p + 1, vars, integer)
  {
  }

  /** Exchanging the columns flips the sign. */
  lemma {:induction false} IloAntisymmetric(a: Column, b: Column, C: seq<Sequence>, p: nat, vars: seq<nat>,
                                            integer: set<nat>)
    requires p > 0 && Ready(C, p)
    ensures IloComp(a, b, C, p, vars, integer) == -IloComp(b, a, C, p, vars, integer)
    decreases MaxLength(C) + 1 - p
  {
    if |C| <= 1 {
      PtrCompAntisymmetric(a, b, vars, integer);
    } else {
      IloAntisymmetric(a, b, WithSense(C, p, GE), p + 1, vars, integer);
      IloAntisymmetric(a, b, WithSense(C, p, LT), p + 1, vars, integer);
    }
  }

  /** At most is transitive, and strict as soon as one of its two steps is strict. */
  lemma {:induction false} IloTransitive(a: Column, b: Column, c: Column, C: seq<Sequence>, p: nat, vars: seq<nat>,
                                         integer: set<nat>)
    requires p > 0 && Ready(C, p)
    requires IloComp(a, b, C, p, vars, integer) <= 0 && IloComp(b, c, C, p, vars, integer) <= 0
    ensures IloComp(a, c, C, p, vars, integer) <= 0
    ensures IloComp(a, c, C, p, vars, integer) == 0 ==>
      IloComp(a, b, C, p, vars, integer) == 0 && IloComp(b, c, C, p, vars, integer) == 0
    decreases MaxLength(C) + 1 - p
  {
    if |C| <= 1 {
      PtrCompTransitive(a, b, c, vars, integer);
    } else {
      var d := C[FirstLong(C, p)][p - 1];
      var x, y, z := GeneratorEntry(a, d.component), GeneratorEntry(b, d.component), GeneratorEntry(c, d.component);
      if x >= d.bound && y >= d.bound && z >= d.bound {
        IloTransitive(a, b, c, WithSense(C, p, GE), p + 1, vars, integer);
      } else if x < d.bound && y < d.bound && z < d.bound {
        IloTransitive(a, b, c, WithSense(C, p, LT), p + 1, vars, integer);
      }
    }
  }

  ghost predicate BoundsIntegerVars(C: seq<Sequence>, vars: seq<nat>, integer: set<nat>) {
    forall A: Sequence, k :: A in C && 0 <= k < |A| ==> A[k].component in vars && A[k].component in integer
  }

  /** Columns tie exactly when their integer generators are the same: the induced order refines ptrcomp's ties. */
  lemma {:induction false} IloZero(a: Column, b: Column, C: seq<Sequence>, p: nat, vars: seq<nat>, integer: set<nat>)
    requires p > 0 && Ready(C, p) && BoundsIntegerVars(C, vars, integer)
    ensures IloComp(a, b, C, p, vars, integer) == 0 <==> SameGenerator(a, b, vars, integer)
    decreases MaxLength(C) + 1 - p
  {
    if |C| <= 1 {
      PtrCompZero(a, b, vars, integer);
    } else {
      BoundsInherited(C, p, GE, vars, integer);
      BoundsInherited(C, p, LT, vars, integer);
      IloZero(a, b, WithSense(C, p, GE), p + 1, vars, integer);
      IloZero(a, b, WithSense(C, p, LT), p + 1, vars, integer);
      if SameGenerator(a, b, vars, integer) { SameEntry(a, b, C, FirstLong(C, p), p, vars, integer); }
    }
  }

  lemma BoundsInherited(C: seq<Sequence>, p: nat, sense: Sense, vars: seq<nat>, integer: set<nat>)
    requires p > 0 && BoundsIntegerVars(C, vars, integer)
    ensures BoundsIntegerVars(WithSense(C, p, sense), vars, integer)
  {
    WithSenseMembers(C, p, sense);
  }

  lemma SameEntry(a: Column, b: Column, C: seq<Sequence>, k: nat, p: nat, vars: seq<nat>, integer: set<nat>)
    requires k < |C| && 0 < p <= |C[k]| && BoundsIntegerVars(C, vars, integer)
    requires SameGenerator(a, b, vars, integer)
    ensures GeneratorEntry(a, C[k][p - 1].component) == GeneratorEntry(b, C[k][p - 1].component)
  {
    assert C[k] in C;
    var j :| 0 <= j < |vars| && vars[j] == C[k][p - 1].component;
  }
}

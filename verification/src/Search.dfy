/** The search for a component bound sequence, in the imperative form of the branching rule. */
module Search {
  import opened Numbers
  import opened Columns
  import opened Median
  import opened Separation

  /** The sequences identified so far; Separate and Explore append to it. */
  class Record {
    var sequences: seq<Sequence>

    constructor ()
      ensures sequences == []
    {
      sequences := [];
    }

    method Add(S: Sequence)
      modifies this
      ensures sequences == old(sequences) + [S]
    {
      sequences := sequences + [S];
    }
  }

  // ---------- the index set ----------

  ghost function IntegerVars(entries: seq<Entry>, integer: set<nat>): set<nat> {
    set e | e in entries && e.origvar in integer :: e.origvar
  }

  ghost function UnionOfVars(F: seq<Column>, integer: set<nat>): set<nat> {
    if |F| == 0 then {} else UnionOfVars(F[..|F| - 1], integer) + IntegerVars(F[|F| - 1].entries, integer)
  }

  ghost function Elements(s: seq<nat>): set<nat> {
    set x | x in s
  }

  ghost predicate NoRepeats(s: seq<nat>) {
    forall x, y :: 0 <= x < y < |s| ==> s[x] != s[y]
  }

  /** A column mentions an original variable at most once. */
  ghost predicate ProperColumn(c: Column) {
    forall x, y :: 0 <= x < y < |c.entries| ==> c.entries[x].origvar != c.entries[y].origvar
  }

  /** The integer variables of a column that are new, in the order of its entries, come after the given ones. */
  function Merged(given: seq<nat>, entries: seq<Entry>, integer: set<nat>): seq<nat> {
    if |entries| == 0 then given
    else
      var merged, v := Merged(given, entries[..|entries| - 1], integer), entries[|entries| - 1].origvar;
      if v in integer && v !in merged then merged + [v] else merged
  }

  function IndexSet(F: seq<Column>, integer: set<nat>): seq<nat> {
    if |F| == 0 then [] else Merged(IndexSet(F[..|F| - 1], integer), F[|F| - 1].entries, integer)
  }

  /** The entries of all columns, one after another. */
  function AllEntries(F: seq<Column>): seq<Entry> {
    if |F| == 0 then [] else AllEntries(F[..|F| - 1]) + F[|F| - 1].entries
  }

  lemma {:induction false} MergedTwice(given: seq<nat>, a: seq<Entry>, b: seq<Entry>, integer: set<nat>)
    ensures Merged(given, a + b, integer) == Merged(Merged(given, a, integer), b, integer)
  {
    if |b| == 0 {
      assert a + b == a;
    } else {
      assert (a + b)[..|a + b| - 1] == a + b[..|b| - 1];
      MergedTwice(given, a, b[..|b| - 1], integer);
    }
  }

  lemma {:induction false} IndexSetFlat(F: seq<Column>, integer: set<nat>)
    ensures IndexSet(F, integer) == Merged([], AllEntries(F), integer)
  {
    if |F| > 0 {
      IndexSetFlat(F[..|F| - 1], integer);
      MergedTwice([], AllEntries(F[..|F| - 1]), F[|F| - 1].entries, integer);
    }
  }

  ghost predicate Occurs(E: seq<Entry>, v: nat) {
    exists y :: 0 <= y < |E| && E[y].origvar == v
  }

  lemma {:induction false} MergedOccurs(E: seq<Entry>, integer: set<nat>, v: nat)
    ensures v in Merged([], E, integer) <==> v in integer && Occurs(E, v)
  {
    if |E| > 0 {
      var n := |E| - 1;
      MergedOccurs(E[..n], integer, v);
      if y :| 0 <= y < |E| && E[y].origvar == v { assert y < n ==> E[..n][y].origvar == v; }
      if y :| 0 <= y < n && E[..n][y].origvar == v { assert E[y].origvar == v; }
    }
  }

  /** Among the entries, u occurs before v does. */
  ghost predicate OccursBefore(E: seq<Entry>, u: nat, v: nat) {
    exists y :: 0 <= y < |E| && E[y].origvar == u && forall b :: 0 <= b <= y ==> E[b].origvar != v
  }

  lemma {:induction false} MergedInOrder(E: seq<Entry>, integer: set<nat>, i: nat, j: nat)
    requires i < j < |Merged([], E, integer)|
    ensures OccursBefore(E, Merged([], E, integer)[i], Merged([], E, integer)[j])
  {
    var n := |E| - 1;
    var front, I := Merged([], E[..n], integer), Merged([], E, integer);
    if j < |front| {
      MergedInOrder(E[..n], integer, i, j);
      var y :| 0 <= y < n && E[..n][y].origvar == I[i] && forall b :: 0 <= b <= y ==> E[..n][b].origvar != I[j];
      forall b | 0 <= b <= y ensures E[b].origvar != I[j] { assert E[..n][b] == E[b]; }
      assert E[y].origvar == I[i];
    } else {
      MergedOccurs(E[..n], integer, I[i]);
      MergedOccurs(E[..n], integer, I[j]);
      assert I[i] in front;
      var y :| 0 <= y < n && E[..n][y].origvar == I[i];
      forall b | 0 <= b <= y ensures E[b].origvar != I[j] { assert E[..n][b] == E[b]; }
      assert E[y].origvar == I[i];
    }
  }

  /** The index set lists the variables in the order of their first occurrence. */
  lemma IndexSetInOrder(F: seq<Column>, integer: set<nat>, i: nat, j: nat)
    requires i < j < |IndexSet(F, integer)|
    ensures OccursBefore(AllEntries(F), IndexSet(F, integer)[i], IndexSet(F, integer)[j])
  {
    IndexSetFlat(F, integer);
    MergedInOrder(AllEntries(F), integer, i, j);
  }

  /** Collects, without repetition, the integer original variables that occur in a column of F. */
  method InitIndexSet(F: seq<Column>, integer: set<nat>) returns (indexSet: seq<nat>)
    requires |F| > 0 && forall k :: 0 <= k < |F| ==> ProperColumn(F[k])
    ensures indexSet == IndexSet(F, integer) && NoRepeats(indexSet)
    ensures Elements(indexSet) == UnionOfVars(F, integer)
  {
    indexSet := [];
    for i := 0 to |F|
      invariant indexSet == IndexSet(F[..i], integer) && NoRepeats(indexSet)
      invariant Elements(indexSet) == UnionOfVars(F[..i], integer)
    {
      if |indexSet| == 0 && |F[i].entries| > 0 {
        indexSet := CopyVars(F[i], integer);
      } else {
        indexSet := MergeVars(indexSet, F[i], integer);
      }
      assert F[..i + 1][..i] == F[..i];
    }
    assert F[..|F|] == F;
  }

  /** First column with entries: its integer variables are copied. */
  method CopyVars(c: Column, integer: set<nat>) returns (indexSet: seq<nat>)
    requires ProperColumn(c)
    ensures indexSet == Merged([], c.entries, integer) && NoRepeats(indexSet)
    ensures Elements(indexSet) == IntegerVars(c.entries, integer)
  {
    indexSet := [];
    for j := 0 to |c.entries|
      invariant indexSet == Merged([], c.entries[..j], integer) && NoRepeats(indexSet)
      invariant Elements(indexSet) == IntegerVars(c.entries[..j], integer)
      invariant forall x :: 0 <= x < |indexSet| ==> exists y :: 0 <= y < j && c.entries[y].origvar == indexSet[x]
    {
      VarsOfPrefix(c.entries, j, integer);
      assert c.entries[..j + 1][..j] == c.entries[..j];
      if c.entries[j].origvar in integer {
        ElementsGrow(indexSet, c.entries[j].origvar);
        indexSet := indexSet + [c.entries[j].origvar];
      }
    }
    assert c.entries[..|c.entries|] == c.entries;
  }

  /** Later columns: every variable is searched in the set and appended when the search runs out. */
  method MergeVars(given: seq<nat>, c: Column, integer: set<nat>) returns (indexSet: seq<nat>)
    requires NoRepeats(given) && (|given| > 0 || |c.entries| == 0)
    ensures indexSet == Merged(given, c.entries, integer) && NoRepeats(indexSet)
    ensures Elements(indexSet) == Elements(given) + IntegerVars(c.entries, integer)
  {
    indexSet := given;
    for j := 0 to |c.entries|
      invariant NoRepeats(indexSet) && (|indexSet| > 0 || |c.entries| == 0)
      invariant indexSet == Merged(given, c.entries[..j], integer)
      invariant Elements(indexSet) == Elements(given) + IntegerVars(c.entries[..j], integer)
    {
      var v := c.entries[j].origvar;
      VarsOfPrefix(c.entries, j, integer);
      assert c.entries[..j + 1][..j] == c.entries[..j];
      if v in integer {
        var oldsize, k := |indexSet|, 0;
        ghost var before := indexSet;
        while k < oldsize
          invariant 0 <= k <= oldsize == |before|
          invariant indexSet == if k < oldsize then before else before + [v]
          invariant forall x :: 0 <= x < k ==> before[x] != v
        {
          if indexSet[k] == v { break; }
          if k == oldsize - 1 {
            indexSet := indexSet + [v];
          }
          k := k + 1;
        }
        ElementsGrow(before, v);
        assert k < oldsize ==> Elements(before) == Elements(before) + {v};
      }
    }
    assert c.entries[..|c.entries|] == c.entries;
  }

  lemma VarsOfPrefix(entries: seq<Entry>, j: nat, integer: set<nat>)
    requires j < |entries|
    ensures IntegerVars(entries[..j + 1], integer) ==
            IntegerVars(entries[..j], integer) + if entries[j].origvar in integer then {entries[j].origvar} else {}
  {
    assert entries[..j + 1] == entries[..j] + [entries[j]];
  }

  lemma ElementsGrow(s: seq<nat>, v: nat)
    ensures Elements(s + [v]) == Elements(s) + {v}
  {
  }

  // ---------- the median of one component ----------

  /** Fills the array of component values and tracks their minimum. */
  method ComponentValues(F: seq<Column>, i: nat) returns (compvalues: array<int>, min: int)
    requires |F| > 0
    ensures fresh(compvalues) && compvalues.Length == |F|
    ensures compvalues[..] == Values(F, i) && min == MinOf(Values(F, i))
  {
    compvalues := new int[|F|];
    min := 0;
    for l := 0 to |F|
      invariant forall x :: 0 <= x < l ==> compvalues[x] == GeneratorEntry(F[x], i)
      invariant l > 0 ==> min == MinOf(compvalues[..l])
    {
      compvalues[l] := GetGeneratorEntry(F[l], i);
      if l == 0 || compvalues[l] < min {
        min := compvalues[l];
      }
      assert compvalues[..l + 1][..l] == compvalues[..l];
    }
    assert compvalues[..] == compvalues[..|F|];
  }

  method MedianOfComponent(F: seq<Column>, i: nat) returns (median: int, min: int)
    requires |F| > 0
    ensures median == ComponentMedian(F, i) && min == MinOf(Values(F, i))
  {
    var compvalues;
    compvalues, min := ComponentValues(F, i);
    median := GetMedian(compvalues, min);
  }

  /** The mass of the columns of F that satisfy one bound. */
  method ComputeAlpha(F: seq<Column>, b: Bound) returns (alpha: real)
    ensures alpha == Mass(F, [b])
  {
    alpha := 0.0;
    for j := 0 to |F|
      invariant alpha == Mass(F[..j], [b])
    {
      var entry := GetGeneratorEntry(F[j], b.component);
      SatisfiesMore(F[j], [], b);
      assert [b] + [] == [b] && F[..j + 1][..j] == F[..j];
      if (b.sense == GE && entry >= b.bound) || (b.sense == LT && entry < b.bound) {
        alpha := alpha + F[j].value;
      }
    }
    assert F[..|F|] == F;
  }

  method TotalValue(F: seq<Column>) returns (mu: real)
    ensures mu == Mass(F, [])
  {
    mu := 0.0;
    for j := 0 to |F|
      invariant mu == Mass(F[..j], [])
    {
      assert F[..j + 1][..j] == F[..j];
      mu := mu + F[j].value;
    }
    assert F[..|F|] == F;
  }

  /** Copies the columns that satisfy b into a new strip. */
  method CopyColumns(F: seq<Column>, b: Bound) returns (copyF: seq<Column>)
    ensures copyF == Keep(F, b)
  {
    copyF := [];
    for k := 0 to |F|
      invariant copyF == Keep(F[..k], b)
    {
      var entry := GetGeneratorEntry(F[k], b.component);
      assert F[..k + 1][..k] == F[..k];
      if (b.sense == GE && entry >= b.bound) || (b.sense == LT && entry < b.bound) {
        copyF := copyF + [F[k]];
      }
    }
    assert F[..|F|] == F;
  }

  // ---------- partition ----------

  method MaxMinPriority(F: seq<Column>, i: nat) returns (priority: int)
    requires |F| > 0
    ensures priority == Priority(F, i)
    ensures exists a, b :: 0 <= a < |F| && 0 <= b < |F| && priority == Spread(F, i, a, b)
    ensures forall x, y :: 0 <= x < |F| && 0 <= y < |F| ==> Spread(F, i, x, y) <= priority
  {
    var maxcomp, mincomp := 0, 0;
    ghost var s := RoundedValues(F, i);
    for l := 0 to |F|
      invariant l > 0 ==> maxcomp == MaxOf(s[..l]) && mincomp == MinOf(s[..l])
    {
      var entry := GetGeneratorEntry(F[l], i);
      var generatorentry := if entry >= 0 then entry else entry + 1;
      assert s[..l + 1][..l] == s[..l];
      if l == 0 || generatorentry > maxcomp { maxcomp := generatorentry; }
      if l == 0 || generatorentry < mincomp { mincomp := generatorentry; }
    }
    assert s[..|F|] == s;
    priority := maxcomp - mincomp;
    ghost var a, b := PriorityIsGreatest(F, i);
  }

  lemma FirstMaxGrows(F: seq<Column>, J: seq<nat>, j: nat, k: nat, last: int, best: int)
    requires |F| > 0 && j < |J| && last == Priority(F, J[j])
    requires j > 0 ==> k == FirstMax(F, J[..j]) && best == Priority(F, J[k])
    ensures FirstMax(F, J[..j + 1]) == if j == 0 || last > best then j else k
  {
    assert J[..j + 1][..j] == J[..j];
  }

  method FindFirstMax(F: seq<Column>, J: array<nat>, Jsize: nat, priority: array<int>) returns (first: nat)
    requires |F| > 0 && 0 < Jsize <= J.Length && Jsize <= priority.Length
    requires forall j :: 0 <= j < Jsize ==> priority[j] == Priority(F, J[j])
    ensures first == FirstMax(F, J[..Jsize])
  {
    first := 0;
    var maxPriority := priority[0];
    for j := 0 to Jsize
      invariant j > 0 ==> first < Jsize && first == FirstMax(F, J[..j])
      invariant first < Jsize && maxPriority == priority[first]
      invariant j == 0 ==> first == 0
    {
      assert J[..Jsize][..j + 1] == J[..j + 1] && J[..Jsize][..j] == J[..j];
      FirstMaxGrows(F, J[..Jsize], j, first, priority[j], maxPriority);
      if j == 0 || priority[j] > maxPriority {
        maxPriority := priority[j];
        first := j;
      }
    }
  }

  /** The last component and its priority take the free place. */
  method RemoveComponent(F: seq<Column>, J: array<nat>, Jsize: nat, priority: array<int>, first: nat)
    requires |F| > 0 && first < Jsize <= J.Length && Jsize <= priority.Length && J as object != priority
    requires forall j :: 0 <= j < Jsize ==> priority[j] == Priority(F, J[j])
    modifies J, priority
    ensures J[..Jsize - 1] == old(J[..Jsize])[first := old(J[Jsize - 1])][..Jsize - 1]
    ensures forall j :: 0 <= j < Jsize - 1 ==> priority[j] == Priority(F, J[j])
  {
    J[first] := J[Jsize - 1];
    priority[first] := priority[Jsize - 1];
  }

  /** True when the median of the component is its minimum. */
  predicate AtMinimum(F: seq<Column>, i: nat)
    requires |F| > 0
  {
    ComponentMedian(F, i) == MinOf(Values(F, i))
  }

  lemma PartitionStep(F: seq<Column>, J: seq<nat>, previous: nat)
    requires |F| > 0
    ensures |J| == 0 ==> PartitionOf(F, J, previous) == Choice(J, previous)
    ensures |J| > 0 ==>
      var k := FirstMax(F, J);
      PartitionOf(F, J, previous) ==
        if AtMinimum(F, J[k]) then PartitionOf(F, J[k := J[|J| - 1]][..|J| - 1], J[k]) else Choice(J, J[k])
  {
  }

  /** One round of the do-while: the best component of J (or the previous one) and its median. */
  method PickComponent(F: seq<Column>, J: array<nat>, Jsize: nat, priority: array<int>, previous: nat)
    returns (first: nat, origvar: nat, median: int, atMinimum: bool)
    requires |F| > 0 && Jsize <= J.Length && Jsize <= priority.Length
    requires forall j :: 0 <= j < Jsize ==> priority[j] == Priority(F, J[j])
    ensures Jsize > 0 ==> first == FirstMax(F, J[..Jsize]) && origvar == J[first]
    ensures Jsize == 0 ==> origvar == previous
    ensures median == ComponentMedian(F, origvar) && atMinimum == AtMinimum(F, origvar)
  {
    first, origvar := 0, previous;
    if Jsize > 0 {
      first := FindFirstMax(F, J, Jsize, priority);
      origvar := J[first];
    }
    var min;
    median, min := MedianOfComponent(F, origvar);
    atMinimum := median == min;
  }

  /** Removes constant components from J (the last one takes the free place) until one varies. */
  method Partition(F: seq<Column>, J: array<nat>, Jsize0: nat, priority: array<int>, previous: nat)
    returns (Jsize: nat, origvar: nat, median: int)
    requires |F| > 0 && Jsize0 <= J.Length && Jsize0 <= priority.Length && J as object != priority
    requires forall j :: 0 <= j < Jsize0 ==> priority[j] == Priority(F, J[j])
    modifies J, priority
    ensures Jsize <= Jsize0
    ensures Choice(J[..Jsize], origvar) == PartitionOf(F, old(J[..Jsize0]), previous)
    ensures median == ComponentMedian(F, origvar)
  {
    Jsize, origvar, median := Jsize0, previous, 0;
    ghost var result := PartitionOf(F, J[..Jsize0], previous);
    var again := true;
    while again
      invariant Jsize <= Jsize0
      invariant forall j :: 0 <= j < Jsize ==> priority[j] == Priority(F, J[j])
      invariant PartitionOf(F, J[..Jsize], origvar) == result
      invariant !again ==> Choice(J[..Jsize], origvar) == result && median == ComponentMedian(F, origvar)
      decreases again, Jsize
    {
      Jsize, origvar, median, again := PartitionRound(F, J, Jsize, priority, origvar);
    }
  }

  /** One round: a constant component leaves J; the choice is settled if the component varies or none is left. */
  method PartitionRound(F: seq<Column>, J: array<nat>, Jsize0: nat, priority: array<int>, previous: nat)
    returns (Jsize: nat, origvar: nat, median: int, again: bool)
    requires |F| > 0 && Jsize0 <= J.Length && Jsize0 <= priority.Length && J as object != priority
    requires forall j :: 0 <= j < Jsize0 ==> priority[j] == Priority(F, J[j])
    modifies J, priority
    ensures Jsize <= Jsize0 && (again ==> Jsize < Jsize0)
    ensures forall j :: 0 <= j < Jsize ==> priority[j] == Priority(F, J[j])
    ensures PartitionOf(F, J[..Jsize], origvar) == PartitionOf(F, old(J[..Jsize0]), previous)
    ensures median == ComponentMedian(F, origvar)
    ensures !again ==> Choice(J[..Jsize], origvar) == PartitionOf(F, old(J[..Jsize0]), previous)
  {
    Jsize := Jsize0;
    ghost var J0 := J[..Jsize];
    var first, atMinimum;
    first, origvar, median, atMinimum := PickComponent(F, J, Jsize, priority, previous);
    again := atMinimum && Jsize > 0;
    if again {
      PartitionDrops(F, J0, previous, first, origvar);
      RemoveComponent(F, J, Jsize, priority, first);
      Jsize := Jsize - 1;
      again := Jsize > 0;
    } else {
      PartitionSettles(F, J0, previous, first, origvar);
    }
  }

  /** A constant component is dropped, which settles the choice if it was the last one. */
  lemma PartitionDrops(F: seq<Column>, J: seq<nat>, previous: nat, first: nat, origvar: nat)
    requires |F| > 0 && |J| > 0 && first == FirstMax(F, J) && origvar == J[first] && AtMinimum(F, origvar)
    ensures var D := J[first := J[|J| - 1]][..|J| - 1];
      && PartitionOf(F, D, origvar) == PartitionOf(F, J, previous)
      && (D == [] ==> PartitionOf(F, J, previous) == Choice(D, origvar))
  {
    PartitionStep(F, J, previous);
    PartitionStep(F, J[first := J[|J| - 1]][..|J| - 1], origvar);
  }

  lemma PartitionSettles(F: seq<Column>, J: seq<nat>, previous: nat, first: nat, origvar: nat)
    requires |F| > 0 && if |J| > 0 then first == FirstMax(F, J) && origvar == J[first] && !AtMinimum(F, origvar)
                        else origvar == previous
    ensures PartitionOf(F, J, origvar) == PartitionOf(F, J, previous) == Choice(J, origvar)
  {
    PartitionStep(F, J, previous);
    PartitionSettled(F, J, origvar);
  }

  /** Once settled, partitioning again changes nothing. */
  lemma PartitionSettled(F: seq<Column>, J: seq<nat>, origvar: nat)
    requires |F| > 0
    requires |J| > 0 ==> origvar == J[FirstMax(F, J)] && !AtMinimum(F, origvar)
    ensures PartitionOf(F, J, origvar) == Choice(J, origvar)
  {
  }

  // ---------- Separate ----------

  lemma OneMoreComponent(F: seq<Column>, I: seq<nat>, S: Sequence, k: nat)
    requires |F| > 0 && k < |I|
    ensures Direct(F, I[..k + 1], S) ==
            Direct(F, I[..k], S) + if IsInt(Alpha(F, I[k])) then [] else [S + [UpperBound(F, I[k])]]
  {
    assert I[..k + 1][..k] == I[..k];
  }

  lemma DiscriminatingNext(F: seq<Column>, I: seq<nat>, k: nat)
    requires |F| > 0 && k < |I|
    ensures Discriminating(F, I[..k + 1]) ==
            Discriminating(F, I[..k]) + if 0.0 < Alpha(F, I[k]) < Mass(F, []) then [I[k]] else []
  {
    assert I[..k + 1][..k] == I[..k];
  }

  /** The upper mass of one component; a fractional one is recorded with a freshly computed median. */
  method DetectComponent(F: seq<Column>, origvar: nat, S: Sequence, record: Record)
    returns (alpha: real)
    requires |F| > 0
    modifies record
    ensures alpha == Alpha(F, origvar)
    ensures record.sequences == old(record.sequences) + if IsInt(alpha) then [] else [S + [UpperBound(F, origvar)]]
  {
    var median, min := MedianOfComponent(F, origvar);
    alpha := ComputeAlpha(F, Bound(origvar, GE, median));
    if !IsInt(alpha) {
      median, min := MedianOfComponent(F, origvar);
      record.Add(S + [Bound(origvar, GE, median)]);
    }
  }

  /** Records every component with a fractional upper mass; leaves the masses in alpha. */
  method DetectFractional(F: seq<Column>, I: seq<nat>, S: Sequence, record: Record)
    returns (alpha: array<real>, muF: real, Jsize: nat, found: bool)
    requires |F| > 0
    modifies record
    ensures fresh(alpha) && alpha.Length == |I| && muF == Mass(F, [])
    ensures forall k :: 0 <= k < |I| ==> alpha[k] == Alpha(F, I[k])
    ensures Jsize == |Discriminating(F, I)| && found == (Direct(F, I, S) != [])
    ensures record.sequences == old(record.sequences) + Direct(F, I, S)
  {
    muF := TotalValue(F);
    alpha := new real[|I|];
    Jsize, found := 0, false;
    for k := 0 to |I|
      invariant forall x :: 0 <= x < k ==> alpha[x] == Alpha(F, I[x])
      invariant Jsize == |Discriminating(F, I[..k])| && found == (Direct(F, I[..k], S) != [])
      invariant record.sequences == old(record.sequences) + Direct(F, I[..k], S)
    {
      OneMoreComponent(F, I, S, k);
      DiscriminatingNext(F, I, k);
      var a := DetectComponent(F, I[k], S, record);
      assert record.sequences == old(record.sequences) + Direct(F, I[..k + 1], S);
      alpha[k] := a;
      if 0.0 < a < muF {
        Jsize := Jsize + 1;
      }
      found := found || !IsInt(a);
    }
    assert I[..|I|] == I;
  }

  /** The discriminating components and their priorities, in the order of I. */
  method CollectDiscriminating(F: seq<Column>, I: seq<nat>, alpha: array<real>, muF: real, Jsize: nat)
    returns (J: array<nat>, priority: array<int>)
    requires |F| > 0 && alpha.Length == |I| && muF == Mass(F, [])
    requires forall k :: 0 <= k < |I| ==> alpha[k] == Alpha(F, I[k])
    requires Jsize == |Discriminating(F, I)|
    ensures fresh(J) && fresh(priority) && J as object != priority
    ensures J.Length == priority.Length == Jsize && J[..] == Discriminating(F, I)
    ensures forall j :: 0 <= j < Jsize ==> priority[j] == Priority(F, J[j])
  {
    J := FillDiscriminating(F, I, alpha, muF, Jsize);
    priority := new int[Jsize];
    ComputePriorities(F, J, priority);
  }

  method FillDiscriminating(F: seq<Column>, I: seq<nat>, alpha: array<real>, muF: real, Jsize: nat)
    returns (J: array<nat>)
    requires |F| > 0 && alpha.Length == |I| && muF == Mass(F, [])
    requires forall k :: 0 <= k < |I| ==> alpha[k] == Alpha(F, I[k])
    requires Jsize == |Discriminating(F, I)|
    ensures fresh(J) && J.Length == Jsize && J[..] == Discriminating(F, I)
  {
    J := new nat[Jsize];
    var j := 0;
    for k := 0 to |I|
      invariant j <= Jsize && J[..j] == Discriminating(F, I[..k])
    {
      DiscriminatingGrows(F, I, k);
      DiscriminatingNext(F, I, k);
      if 0.0 < alpha[k] < muF {
        J[j] := I[k];
        assert J[..j + 1] == J[..j] + [I[k]];
        j := j + 1;
      }
    }
    assert I[..|I|] == I && J[..j] == J[..];
  }

  method ComputePriorities(F: seq<Column>, J: array<nat>, priority: array<int>)
    requires |F| > 0 && priority.Length == J.Length && J as object != priority
    modifies priority
    ensures forall j :: 0 <= j < J.Length ==> priority[j] == Priority(F, J[j])
  {
    for j := 0 to J.Length
      invariant forall x :: 0 <= x < j ==> priority[x] == Priority(F, J[x])
    {
      var pr := MaxMinPriority(F, J[j]);
      priority[j] := pr;
    }
  }

  lemma DiscriminatingGrows(F: seq<Column>, I: seq<nat>, k: nat)
    requires |F| > 0 && k < |I|
    ensures |Discriminating(F, I[..k])| + (if Discriminates(F, I[k]) then 1 else 0) <= |Discriminating(F, I)|
    decreases |I|
  {
    if k < |I| - 1 {
      assert I[..|I| - 1][..k] == I[..k];
      DiscriminatingGrows(F, I[..|I| - 1], k);
    }
  }

  /** Separation at the root, and below the sequences of C. */
  method Separate(F: seq<Column>, I: seq<nat>, S: Sequence, record: Record)
    modifies record
    ensures record.sequences == old(record.sequences) + Separations(F, I, S)
    decreases |F|, |I|, 1
  {
    if |F| == 0 || |I| == 0 {
      assert Separations(F, I, S) == [];
      return;
    }
    SeparateNonempty(F, I, S, record);
  }

  method SeparateNonempty(F: seq<Column>, I: seq<nat>, S: Sequence, record: Record)
    requires |F| > 0 && |I| > 0
    modifies record
    ensures record.sequences == old(record.sequences) + Separations(F, I, S)
    decreases |F|, |I|, 1, 0
  {
    ghost var before := record.sequences;
    var alpha, muF, Jsize, found := DetectFractional(F, I, S, record);
    if found {
      SeparationsFound(F, I, S);
    } else {
      NothingAdded(before, record.sequences);
      SeparateBySplit(F, I, S, alpha, muF, Jsize, record);
    }
  }

  /** No mass is fractional: split on the discriminating component that partition picks. */
  method SeparateBySplit(F: seq<Column>, I: seq<nat>, S: Sequence, alpha: array<real>, muF: real, Jsize0: nat,
                         record: Record)
    requires |F| > 0 && |I| > 0 && Direct(F, I, S) == []
    requires alpha.Length == |I| && muF == Mass(F, []) && Jsize0 == |Discriminating(F, I)|
    requires forall k :: 0 <= k < |I| ==> alpha[k] == Alpha(F, I[k])
    modifies record
    ensures record.sequences == old(record.sequences) + Separations(F, I, S)
    decreases |F|, |I|, 0
  {
    var Jsize := Jsize0;
    var J, priority := CollectDiscriminating(F, I, alpha, muF, Jsize);
    assert J[..Jsize] == Discriminating(F, I);
    var origvar, median;
    Jsize, origvar, median := Partition(F, J, Jsize, priority, I[|I| - 1]);
    SeparationsStep(F, I, S, J[..Jsize], origvar);
    SeparateParts(F, J[..Jsize], Bound(origvar, GE, median), S, record);
  }

  /** The two recursive calls: first the columns below the median, then those at or above it. */
  method SeparateParts(F: seq<Column>, J: seq<nat>, b: Bound, S: Sequence, record: Record)
    requires |J| == 0 || (|Keep(F, b)| < |F| && |Keep(F, Opposite(b))| < |F|)
    modifies record
    ensures record.sequences == old(record.sequences) +
            (Separations(Keep(F, Opposite(b)), J, S + [Opposite(b)]) + Separations(Keep(F, b), J, S + [b]))
    decreases if |J| == 0 then |F| else |F| - 1, |J|, 2
  {
    ghost var before := record.sequences;
    var Flower := CopyColumns(F, Opposite(b));
    if |Flower| > 0 {
      Separate(Flower, J, S + [Opposite(b)], record);
    }
    ghost var lower := Separations(Flower, J, S + [Opposite(b)]);
    assert record.sequences == before + lower;
    var Fupper := CopyColumns(F, b);
    if |Fupper| > 0 {
      Separate(Fupper, J, S + [b], record);
    }
    ghost var upper := Separations(Fupper, J, S + [b]);
    assert record.sequences == before + lower + upper;
    Regroup(before, lower, upper);
  }

  lemma NothingAdded(a: seq<Sequence>, b: seq<Sequence>)
    requires b == a + []
    ensures b == a
  {
  }

  lemma Regroup(a: seq<Sequence>, b: seq<Sequence>, c: seq<Sequence>)
    ensures a + b + c == a + (b + c)
  {
  }

  lemma SeparationsFound(F: seq<Column>, I: seq<nat>, S: Sequence)
    requires |F| > 0 && |I| > 0
    ensures Direct(F, I, S) != [] ==> Separations(F, I, S) == Direct(F, I, S)
  {
  }

  /** One round of Separate; both recursive calls have a smaller strip or no component left. */
  lemma SeparationsStep(F: seq<Column>, I: seq<nat>, S: Sequence, J: seq<nat>, origvar: nat)
    requires |F| > 0 && |I| > 0 && Direct(F, I, S) == []
    requires Choice(J, origvar) == PartitionOf(F, Discriminating(F, I), I[|I| - 1])
    ensures var b := UpperBound(F, origvar);
      && (|J| == 0 || (|Keep(F, b)| < |F| && |Keep(F, Opposite(b))| < |F|))
      && Separations(F, I, S) ==
         Separations(Keep(F, Opposite(b)), J, S + [Opposite(b)]) + Separations(Keep(F, b), J, S + [b])
  {
    var ch := SplitChoice(F, I);
    if ch.J != [] { DiscriminatingShrinks(F, ch.origvar); }
  }

  // ---------- Explore ----------

  /** Index of the first sequence with a p-th bound; C.Length when there is none. */
  method FindLong(C: seq<Sequence>, p: nat) returns (k: nat)
    ensures k == FirstLong(C, p)
  {
    k := 0;
    while k < |C| && |C[k]| < p
      invariant k <= |C| && FirstLong(C, p) == k + FirstLong(C[k..], p)
    {
      k := k + 1;
    }
  }

  /** The sequences of C whose p-th bound has the given sense. */
  method ComputeNewSequence(C: seq<Sequence>, p: nat, sense: Sense) returns (D: seq<Sequence>)
    requires p > 0
    ensures D == WithSense(C, p, sense)
  {
    D := [];
    for j := 0 to |C|
      invariant D == WithSense(C[..j], p, sense)
    {
      assert C[..j + 1][..j] == C[..j];
      if |C[j]| >= p && C[j][p - 1].sense == sense {
        D := D + [C[j]];
      }
    }
    assert C[..|C|] == C;
  }

  /** Separation below the branching sequences C collected on the path to the current node. */
  method Explore(C: seq<Sequence>, p: nat, F: seq<Column>, I: seq<nat>, S: Sequence, record: Record)
    requires p > 0
    modifies record
    ensures record.sequences == old(record.sequences) + Explorations(C, p, F, I, S)
    decreases MaxLength(C) + 1 - p, 1
  {
    if |C| == 0 || |F| == 0 || |I| == 0 {
      Separate(F, I, S, record);
      return;
    }
    var k := FindLong(C, p);
    if k == |C| {
      Separate(F, I, S, record);
      return;
    }
    var c := C[k][p - 1];
    ExplorationsStep(C, p, F, I, S);
    var muF := TotalValue(F);
    var alpha := ComputeAlpha(F, c);
    if !IsInt(alpha) {
      record.Add(S + [c]);
      return;
    }
    ExploreParts(C, p, F, I, S, c, alpha, muF, record);
  }

  lemma ExplorationsStep(C: seq<Sequence>, p: nat, F: seq<Column>, I: seq<nat>, S: Sequence)
    requires p > 0 && |C| > 0 && |F| > 0 && |I| > 0 && FirstLong(C, p) < |C|
    ensures p <= MaxLength(C)
    ensures var c := C[FirstLong(C, p)][p - 1];
      Explorations(C, p, F, I, S) ==
        if !IsInt(Mass(F, [c])) then [S + [c]]
        else UpperExplorations(C, p, F, I, S, c) + LowerExplorations(C, p, F, I, S, c)
  {
  }

  function UpperExplorations(C: seq<Sequence>, p: nat, F: seq<Column>, I: seq<nat>, S: Sequence,
    c: Bound): seq<Sequence>
    requires p > 0
  {
    var ge := c.(sense := GE);
    if |Keep(F, ge)| > 0 && !SkipsUpper(F, c)
    then Explorations(WithSense(C, p, GE), p + 1, Keep(F, ge), I, S + [ge]) else []
  }

  function LowerExplorations(C: seq<Sequence>, p: nat, F: seq<Column>, I: seq<nat>, S: Sequence,
    c: Bound): seq<Sequence>
    requires p > 0
  {
    var lt := c.(sense := LT);
    if |Keep(F, lt)| > 0 && !SkipsLower(F, c)
    then Explorations(WithSense(C, p, LT), p + 1, Keep(F, lt), I, S + [lt]) else []
  }

  /** The two recursive calls of Explore, with the markers that suppress one of them. */
  method ExploreParts(C: seq<Sequence>, p: nat, F: seq<Column>, I: seq<nat>, S: Sequence, c: Bound,
                      alpha: real, muF: real, record: Record)
    requires 0 < p <= MaxLength(C) && alpha == Mass(F, [c]) && muF == Mass(F, [])
    modifies record
    ensures record.sequences ==
            old(record.sequences) + (UpperExplorations(C, p, F, I, S, c) + LowerExplorations(C, p, F, I, S, c))
    decreases MaxLength(C) + 1 - p, 0
  {
    ghost var before := record.sequences;
    var ge, lt := c.(sense := GE), c.(sense := LT);
    var upper := CopyColumns(F, ge);
    var lower := CopyColumns(F, lt);
    var skipLower := alpha <= 0.0 && |upper| != 0;
    var skipUpper := alpha == muF && (skipLower || |lower| != 0);
    if |upper| > 0 && !skipUpper {
      var CopyC := ComputeNewSequence(C, p, GE);
      Explore(CopyC, p + 1, upper, I, S + [ge], record);
    }
    assert record.sequences == before + UpperExplorations(C, p, F, I, S, c);
    if |lower| > 0 && !skipLower {
      var CopyC := ComputeNewSequence(C, p, LT);
      Explore(CopyC, p + 1, lower, I, S + [lt], record);
    }
    Regroup(before, UpperExplorations(C, p, F, I, S, c), LowerExplorations(C, p, F, I, S, c));
  }

  // ---------- choosing a sequence ----------

  ghost predicate FirstShortest(R: seq<Sequence>, k: int) {
    && 0 <= k < |R|
    && (forall j :: 0 <= j < |R| ==> |R[k]| <= |R[j]|)
    && (forall j :: 0 <= j < k ==> |R[k]| < |R[j]|)
  }

  /** Takes the first of the shortest recorded sequences. */
  method ChoseS(record: Record) returns (S: Sequence)
    requires |record.sequences| > 0
    ensures exists k :: FirstShortest(record.sequences, k) && S == record.sequences[k]
  {
    var maxPriority, minSizeOfMaxPriority, index := -0x8000_0000_0000_0000, 0x7fff_ffff, 0;
    for i := 0 to |record.sequences|
      invariant i == 0 ==> maxPriority < 1
      invariant i > 0 ==> maxPriority == 1 && index < i && minSizeOfMaxPriority == |record.sequences[index]|
      invariant i > 0 ==> forall j :: 0 <= j < i ==> minSizeOfMaxPriority <= |record.sequences[j]|
      invariant i > 0 ==> forall j :: 0 <= j < index ==> minSizeOfMaxPriority < |record.sequences[j]|
    {
      if maxPriority <= 1 {
        if maxPriority < 1 {
          maxPriority := 1;
          minSizeOfMaxPriority := |record.sequences[i]|;
          index := i;
        } else if |record.sequences[i]| < minSizeOfMaxPriority {
          minSizeOfMaxPriority := |record.sequences[i]|;
          index := i;
        }
      }
    }
    assert FirstShortest(record.sequences, index);
    S := record.sequences[index];
  }
}

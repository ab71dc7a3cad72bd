/**
 * Assembling a solution of the original problem from one of the master problem: the columns of a block are shared out
 * among the identical blocks that it represents, whole units first, the rest block by block.
 */
module Disaggregation {
  import opened Numbers
  import opened Columns
  import opened Completeness
  import opened InducedOrder
  import opened Exhaustiveness

  /** The values of a variable in the identical blocks, the block that is filled next, and how full it is. */
  datatype Filling = Filling(vals: seq<real>, blocknr: nat, blockvalue: real)

  function Increase(s: Filling, amount: real): Filling
    requires |s.vals| > 0
  {
    var k := if s.blocknr < |s.vals| then s.blocknr else |s.vals| - 1;
    s.(vals := s.vals[k := s.vals[k] + amount])
  }

  /** One unit of the column for each of the next blocks. */
  function Units(s: Filling, entry: int, m: nat): (t: Filling)
    requires |s.vals| > 0
    ensures |t.vals| == |s.vals| && t.blocknr == s.blocknr + m && t.blockvalue == s.blockvalue
    decreases m
  {
    if m == 0 then s else Units(Increase(s, entry as real).(blocknr := s.blocknr + 1), entry, m - 1)
  }

  function Put(s: Filling, entry: int, amount: real): (t: Filling)
    requires |s.vals| > 0
    ensures |t.vals| == |s.vals|
  {
    var t := Increase(s, entry as real * amount);
    if s.blockvalue + amount >= 1.0 then t.(blockvalue := 0.0, blocknr := s.blocknr + 1)
    else t.(blockvalue := s.blockvalue + amount)
  }

  /** The rest of a column, less than a unit: into the current block, and what does not fit into the next one. */
  function Rest(s: Filling, entry: int, m: real): (t: Filling)
    requires |s.vals| > 0
    ensures |t.vals| == |s.vals|
  {
    if m <= 0.0 then s
    else if m <= 1.0 - s.blockvalue then Put(s, entry, m)
    else Put(Put(s, entry, 1.0 - s.blockvalue), entry, m - (1.0 - s.blockvalue))
  }

  function Fraction(x: real): real {
    x - x.Floor as real
  }

  function AllUnits(G: seq<Column>, v: nat, s: Filling): (t: Filling)
    requires |s.vals| > 0 && NonnegativeValues(G)
    ensures |t.vals| == |s.vals| && t.blockvalue == s.blockvalue && t.blocknr == s.blocknr + Floors(G)
  {
    if |G| == 0 then s
    else
      var c := G[|G| - 1];
      Units(AllUnits(G[..|G| - 1], v, s), GeneratorEntry(c, v), c.value.Floor)
  }

  function AllRests(G: seq<Column>, v: nat, s: Filling): (t: Filling)
    requires |s.vals| > 0
    ensures |t.vals| == |s.vals|
  {
    if |G| == 0 then s
    else
      var c := G[|G| - 1];
      Rest(AllRests(G[..|G| - 1], v, s), GeneratorEntry(c, v), Fraction(c.value))
  }

  predicate NonnegativeValues(G: seq<Column>) {
    forall k :: 0 <= k < |G| ==> G[k].value >= 0.0
  }

  function Floors(G: seq<Column>): nat
    requires NonnegativeValues(G)
  {
    if |G| == 0 then 0 else Floors(G[..|G| - 1]) + G[|G| - 1].value.Floor
  }

  function Fractions(G: seq<Column>): real {
    if |G| == 0 then 0.0 else Fractions(G[..|G| - 1]) + Fraction(G[|G| - 1].value)
  }

  function Empty(n: nat): Filling {
    Filling(seq(n, k => 0.0), 0, 0.0)
  }

  /** The values of variable v in the n identical blocks whose columns are G. */
  function Assembled(G: seq<Column>, v: nat, n: nat): (vals: seq<real>)
    requires n > 0 && NonnegativeValues(G)
    ensures |vals| == n
  {
    AllRests(G, v, AllUnits(G, v, Empty(n))).vals
  }

  // ---------- no block number leaves the blocks ----------

  lemma {:induction false} MassInParts(G: seq<Column>)
    requires NonnegativeValues(G)
    ensures Mass(G, []) == Floors(G) as real + Fractions(G)
  {
    if |G| > 0 {
      MassInParts(G[..|G| - 1]);
      assert SatisfiesAll(G[|G| - 1], []);
    }
  }

  lemma {:induction false} PartsGrow(G: seq<Column>, i: nat)
    requires NonnegativeValues(G) && i <= |G|
    ensures Floors(G[..i]) <= Floors(G) && 0.0 <= Fractions(G[..i]) <= Fractions(G)
    decreases |G|
  {
    if i < |G| {
      PartsGrow(G[..|G| - 1], i);
      assert G[..|G| - 1][..i] == G[..i];
    } else {
      assert G[..i] == G;
      if |G| > 0 { PartsGrow(G[..|G| - 1], |G| - 1); }
    }
  }

  ghost predicate Proper(s: Filling) {
    |s.vals| > 0 && 0.0 <= s.blockvalue < 1.0
  }

  function Position(s: Filling): real {
    s.blocknr as real + s.blockvalue
  }

  lemma PutMoves(s: Filling, entry: int, amount: real)
    requires Proper(s) && 0.0 <= amount <= 1.0 - s.blockvalue
    ensures Proper(Put(s, entry, amount)) && Position(Put(s, entry, amount)) == Position(s) + amount
  {
  }

  lemma RestMoves(s: Filling, entry: int, m: real)
    requires Proper(s) && 0.0 <= m < 1.0
    ensures Proper(Rest(s, entry, m)) && Position(Rest(s, entry, m)) == Position(s) + m
  {
    if 0.0 < m <= 1.0 - s.blockvalue {
      PutMoves(s, entry, m);
    } else if m > 0.0 {
      PutMoves(s, entry, 1.0 - s.blockvalue);
      PutMoves(Put(s, entry, 1.0 - s.blockvalue), entry, m - (1.0 - s.blockvalue));
    }
  }

  lemma {:induction false} RestsMove(G: seq<Column>, v: nat, s: Filling)
    requires Proper(s)
    ensures Proper(AllRests(G, v, s)) && Position(AllRests(G, v, s)) == Position(s) + Fractions(G)
  {
    if |G| > 0 {
      var c := G[|G| - 1];
      RestsMove(G[..|G| - 1], v, s);
      RestMoves(AllRests(G[..|G| - 1], v, s), GeneratorEntry(c, v), Fraction(c.value));
    }
  }

  /** If the block has as many columns as there are blocks, exactly all of them are filled. */
  lemma AllBlocksFilled(G: seq<Column>, v: nat, n: nat)
    requires n > 0 && NonnegativeValues(G) && Mass(G, []) == n as real
    ensures var s := AllRests(G, v, AllUnits(G, v, Empty(n))); s.blocknr == n && s.blockvalue == 0.0
  {
    MassInParts(G);
    RestsMove(G, v, AllUnits(G, v, Empty(n)));
  }

  // ---------- the loops ----------

  /** Whole units: a column of value at least one fills blocks on its own. */
  method PlaceUnits(before: Filling, entry: int, value: real) returns (s: Filling, m: real)
    requires value >= 0.0 && before.blocknr + value.Floor <= |before.vals| && |before.vals| > 0
    ensures s == Units(before, entry, value.Floor) && m == Fraction(value)
  {
    s, m := before, value;
    while m >= 1.0
      invariant m >= 0.0 && |s.vals| == |before.vals| && s.blocknr + m.Floor <= |s.vals|
      invariant Units(s, entry, m.Floor) == Units(before, entry, value.Floor) && Fraction(m) == Fraction(value)
      decreases m.Floor
    {
      FloorUnique(m - 1.0, m.Floor - 1);
      s := Filling(s.vals[s.blocknr := s.vals[s.blocknr] + entry as real], s.blocknr + 1, s.blockvalue);
      m := m - 1.0;
    }
    FloorUnique(m, 0);
  }

  /** The rest of a column: as much as fits into the current block, until nothing is left. */
  method PlaceRest(before: Filling, entry: int, value: real) returns (s: Filling)
    requires Proper(before) && 0.0 <= value < 1.0 && Position(before) + value <= |before.vals| as real
    ensures s == Rest(before, entry, value)
  {
    s := before;
    var m := value;
    while m > 0.0
      invariant Proper(s) && |s.vals| == |before.vals| && 0.0 <= m <= 1.0
      invariant Position(s) + m <= |s.vals| as real && Rest(s, entry, m) == Rest(before, entry, value)
      decreases if m <= 0.0 then 0 else if m <= 1.0 - s.blockvalue then 1 else 2
    {
      var increaseval := if m < 1.0 - s.blockvalue then m else 1.0 - s.blockvalue;
      PutMoves(s, entry, increaseval);
      RestStep(s, entry, m, increaseval);
      ghost var next := Put(s, entry, increaseval);
      s := s.(vals := s.vals[s.blocknr := s.vals[s.blocknr] + entry as real * increaseval]);
      m := m - increaseval;
      s := s.(blockvalue := s.blockvalue + increaseval);
      if s.blockvalue >= 1.0 { s := s.(blockvalue := 0.0, blocknr := s.blocknr + 1); }
      assert s == next;
    }
  }

  lemma RestStep(s: Filling, entry: int, m: real, x: real)
    requires Proper(s) && 0.0 < m <= 1.0 && x == if m < 1.0 - s.blockvalue then m else 1.0 - s.blockvalue
    ensures Rest(Put(s, entry, x), entry, m - x) == Rest(s, entry, m)
  {
  }

  lemma {:induction false} OwnPrefix(cols: seq<Column>, block: nat, i: nat)
    requires i < |cols|
    ensures OwnColumns(cols[..i + 1], block) ==
            OwnColumns(cols[..i], block) + if cols[i].block == block then [cols[i]] else []
    ensures OwnColumns(cols[..i + 1], block) <= OwnColumns(cols, block)
    decreases |cols|
  {
    assert cols[..i + 1][..i] == cols[..i];
    if i < |cols| - 1 {
      OwnPrefix(cols[..|cols| - 1], block, i);
      assert cols[..|cols| - 1][..i + 1] == cols[..i + 1];
    } else {
      assert cols[..i + 1] == cols;
    }
  }

  /** The blocks suffice: before the next column of G is placed, there is room for it. */
  lemma RoomForNext(G: seq<Column>, H: seq<Column>, c: Column, v: nat, n: nat)
    requires n > 0 && NonnegativeValues(G) && Mass(G, []) == n as real && H + [c] <= G
    ensures NonnegativeValues(H) && NonnegativeValues(H + [c]) && c.value >= 0.0
    ensures Floors(H) + c.value.Floor <= n
    ensures var s := AllRests(H, v, AllUnits(G, v, Empty(n)));
      Proper(s) && Position(s) + Fraction(c.value) <= n as real
  {
    var i := |H| + 1;
    assert G[..i] == H + [c] && (H + [c])[..|H|] == H;
    assert forall k :: 0 <= k < i ==> (H + [c])[k] == G[k];
    assert forall k :: 0 <= k < |H| ==> H[k] == G[k];
    assert (H + [c])[|H|] == c == G[|H|];
    MassInParts(G);
    PartsGrow(G, i);
    RestsMove(H, v, AllUnits(G, v, Empty(n)));
  }

  /** One turn of the first loop: the whole units of one column. */
  method PlaceUnitsOf(before: Filling, c: Column, v: nat, n: nat, ghost G: seq<Column>, ghost H: seq<Column>)
    returns (s: Filling, m: real)
    requires n > 0 && NonnegativeValues(G) && Mass(G, []) == n as real && H + [c] <= G
    requires NonnegativeValues(H) && before == AllUnits(H, v, Empty(n))
    ensures NonnegativeValues(H + [c]) && s == AllUnits(H + [c], v, Empty(n)) && m == Fraction(c.value)
  {
    UnitsOfNext(G, H, c, v, n);
    var entry := GetGeneratorEntry(c, v);
    s, m := PlaceUnits(before, entry, c.value);
  }

  /** The first loop over the sorted master variables. */
  method AssembleUnits(cols: seq<Column>, block: nat, v: nat, n: nat) returns (s: Filling, mastervals: seq<real>)
    requires n > 0 && NonnegativeValues(OwnColumns(cols, block)) && Mass(OwnColumns(cols, block), []) == n as real
    ensures s == AllUnits(OwnColumns(cols, block), v, Empty(n)) && |mastervals| == |cols|
    ensures forall k :: 0 <= k < |cols| && cols[k].block == block ==> mastervals[k] == Fraction(cols[k].value)
  {
    ghost var G := OwnColumns(cols, block);
    ghost var H: seq<Column> := [];
    mastervals := seq(|cols|, i requires 0 <= i < |cols| => cols[i].value);
    s := Empty(n);
    for i := 0 to |cols|
      invariant |mastervals| == |cols| && H == OwnColumns(cols[..i], block) <= G && NonnegativeValues(H)
      invariant s == AllUnits(H, v, Empty(n))
      invariant forall k :: i <= k < |cols| ==> mastervals[k] == cols[k].value
      invariant forall k :: 0 <= k < i && cols[k].block == block ==> mastervals[k] == Fraction(cols[k].value)
    {
      OwnPrefix(cols, block, i);
      if cols[i].block == block {
        var m;
        s, m := PlaceUnitsOf(s, cols[i], v, n, G, H);
        mastervals := mastervals[i := m];
        H := H + [cols[i]];
      }
    }
    assert cols[..|cols|] == cols;
  }

  lemma UnitsOfNext(G: seq<Column>, H: seq<Column>, c: Column, v: nat, n: nat)
    requires n > 0 && NonnegativeValues(G) && Mass(G, []) == n as real && H + [c] <= G
    ensures NonnegativeValues(H) && NonnegativeValues(H + [c]) && c.value >= 0.0
    ensures AllUnits(H, v, Empty(n)).blocknr + c.value.Floor <= n
    ensures AllUnits(H + [c], v, Empty(n)) == Units(AllUnits(H, v, Empty(n)), GeneratorEntry(c, v), c.value.Floor)
  {
    RoomForNext(G, H, c, v, n);
    OneMoreUnits(H, c, v, n);
  }

  lemma OneMoreUnits(H: seq<Column>, c: Column, v: nat, n: nat)
    requires n > 0 && NonnegativeValues(H) && NonnegativeValues(H + [c]) && c.value >= 0.0
    ensures AllUnits(H + [c], v, Empty(n)) == Units(AllUnits(H, v, Empty(n)), GeneratorEntry(c, v), c.value.Floor)
  {
    assert (H + [c])[..|H|] == H;
  }

  lemma OneMoreRest(H: seq<Column>, c: Column, v: nat, s: Filling)
    requires |s.vals| > 0
    ensures AllRests(H + [c], v, s) == Rest(AllRests(H, v, s), GeneratorEntry(c, v), Fraction(c.value))
  {
    assert (H + [c])[..|H|] == H;
  }

  /** Both loops. No block number leaves the blocks, although the code has a branch for that. */
  method Assemble(cols: seq<Column>, block: nat, v: nat, n: nat) returns (vals: seq<real>)
    requires n > 0 && NonnegativeValues(OwnColumns(cols, block)) && Mass(OwnColumns(cols, block), []) == n as real
    ensures vals == Assembled(OwnColumns(cols, block), v, n)
  {
    ghost var G := OwnColumns(cols, block);
    ghost var H: seq<Column> := [];
    var s, mastervals := AssembleUnits(cols, block, v, n);
    ghost var units := s;
    for i := 0 to |cols|
      invariant H == OwnColumns(cols[..i], block) <= G && s == AllRests(H, v, units)
    {
      OwnPrefix(cols, block, i);
      if cols[i].block == block {
        RoomForNext(G, H, cols[i], v, n);
        OneMoreRest(H, cols[i], v, units);
        var entry := GetGeneratorEntry(cols[i], v);
        s := PlaceRest(s, entry, mastervals[i]);
        H := H + [cols[i]];
      }
    }
    assert cols[..|cols|] == cols;
    vals := s.vals;
  }

  // ---------- nothing is lost ----------

  function Contribution(G: seq<Column>, v: nat): real {
    if |G| == 0 then 0.0
    else Contribution(G[..|G| - 1], v) + GeneratorEntry(G[|G| - 1], v) as real * G[|G| - 1].value
  }

  lemma {:induction false} SumUpdated(x: seq<real>, k: nat, y: real)
    requires k < |x|
    ensures SumReal(x[k := y]) == SumReal(x) - x[k] + y
  {
    var n := |x| - 1;
    if k < n {
      SumUpdated(x[..n], k, y);
      assert x[k := y][..n] == x[..n][k := y];
    } else {
      assert x[k := y][..n] == x[..n];
    }
  }

  lemma IncreaseAdds(s: Filling, amount: real)
    requires |s.vals| > 0
    ensures SumReal(Increase(s, amount).vals) == SumReal(s.vals) + amount
  {
    var k := if s.blocknr < |s.vals| then s.blocknr else |s.vals| - 1;
    SumUpdated(s.vals, k, s.vals[k] + amount);
  }

  lemma {:induction false} UnitsAdd(s: Filling, entry: int, m: nat, e: real, w: real)
    requires |s.vals| > 0 && e == entry as real && w == m as real
    ensures SumReal(Units(s, entry, m).vals) == SumReal(s.vals) + e * w
    decreases m
  {
    if m > 0 {
      var next := Increase(s, e).(blocknr := s.blocknr + 1);
      IncreaseAdds(s, e);
      UnitsAdd(next, entry, m - 1, e, w - 1.0);
      OneMoreTime(e, w, w - 1.0, SumReal(s.vals), SumReal(next.vals));
    }
  }

  lemma OneMoreTime(e: real, m: real, rest: real, before: real, after: real)
    requires m == rest + 1.0 && after == before + e
    ensures after + e * rest == before + e * m
  {
    ShareOut(e, rest, 1.0);
  }

  lemma RestAdds(s: Filling, entry: int, m: real)
    requires Proper(s) && 0.0 <= m < 1.0
    ensures SumReal(Rest(s, entry, m).vals) == SumReal(s.vals) + entry as real * m
  {
    if 0.0 < m <= 1.0 - s.blockvalue {
      IncreaseAdds(s, entry as real * m);
    } else if m > 0.0 {
      var x := 1.0 - s.blockvalue;
      TwoPutsAdd(s, entry, x, m - x, m);
    }
  }

  lemma TwoPutsAdd(s: Filling, entry: int, x: real, y: real, m: real)
    requires |s.vals| > 0 && m == x + y
    ensures SumReal(Put(Put(s, entry, x), entry, y).vals) == SumReal(s.vals) + entry as real * m
  {
    PutAdds(s, entry, x);
    PutAdds(Put(s, entry, x), entry, y);
    ShareOut(entry as real, x, y);
  }

  lemma PutAdds(s: Filling, entry: int, amount: real)
    requires |s.vals| > 0
    ensures SumReal(Put(s, entry, amount).vals) == SumReal(s.vals) + entry as real * amount
  {
    IncreaseAdds(s, entry as real * amount);
  }

  lemma {:induction false} AllUnitsAdd(G: seq<Column>, v: nat, s: Filling)
    requires |s.vals| > 0 && NonnegativeValues(G)
    ensures SumReal(AllUnits(G, v, s).vals) == SumReal(s.vals) + WholeContribution(G, v)
  {
    if |G| > 0 {
      AllUnitsAdd(G[..|G| - 1], v, s);
      var entry, m := GeneratorEntry(G[|G| - 1], v), G[|G| - 1].value.Floor;
      NextUnitsAdd(G, v, s, entry, m, entry as real, m as real);
      WholeOneMore(G, v, entry as real, m as real);
    }
  }

  lemma NextUnitsAdd(G: seq<Column>, v: nat, s: Filling, entry: int, m: nat, e: real, w: real)
    requires |s.vals| > 0 && |G| > 0 && NonnegativeValues(G) && e == entry as real && w == m as real
    requires entry == GeneratorEntry(G[|G| - 1], v) && m == G[|G| - 1].value.Floor
    ensures SumReal(AllUnits(G, v, s).vals) == SumReal(AllUnits(G[..|G| - 1], v, s).vals) + e * w
  {
    var a, b := AllUnits(G[..|G| - 1], v, s), AllUnits(G, v, s);
    UnitsAdd(a, entry, m, e, w);
    assert b == Units(a, entry, m);
  }

  lemma WholeOneMore(G: seq<Column>, v: nat, e: real, w: real)
    requires |G| > 0 && e == GeneratorEntry(G[|G| - 1], v) as real && w == G[|G| - 1].value.Floor as real
    ensures WholeContribution(G, v) == WholeContribution(G[..|G| - 1], v) + e * w
  {
  }

  function WholeContribution(G: seq<Column>, v: nat): real {
    if |G| == 0 then 0.0
    else
      WholeContribution(G[..|G| - 1], v) +
      GeneratorEntry(G[|G| - 1], v) as real * G[|G| - 1].value.Floor as real
  }

  lemma {:induction false} AllRestsAdd(G: seq<Column>, v: nat, s: Filling)
    requires Proper(s)
    ensures SumReal(AllRests(G, v, s).vals) == SumReal(s.vals) + Contribution(G, v) - WholeContribution(G, v)
  {
    if |G| > 0 {
      AllRestsAdd(G[..|G| - 1], v, s);
      var entry, m := GeneratorEntry(G[|G| - 1], v), Fraction(G[|G| - 1].value);
      NextRestAdds(G, v, s, entry, m);
      RestOfContribution(G, v, entry, m);
    }
  }

  lemma NextRestAdds(G: seq<Column>, v: nat, s: Filling, entry: int, m: real)
    requires |G| > 0 && Proper(s) && entry == GeneratorEntry(G[|G| - 1], v) && m == Fraction(G[|G| - 1].value)
    ensures SumReal(AllRests(G, v, s).vals) == SumReal(AllRests(G[..|G| - 1], v, s).vals) + entry as real * m
  {
    var a, b := AllRests(G[..|G| - 1], v, s), AllRests(G, v, s);
    RestsMove(G[..|G| - 1], v, s);
    RestAdds(a, entry, m);
    assert b == Rest(a, entry, m);
  }

  lemma RestOfContribution(G: seq<Column>, v: nat, entry: int, m: real)
    requires |G| > 0 && entry == GeneratorEntry(G[|G| - 1], v) && m == Fraction(G[|G| - 1].value)
    ensures Contribution(G, v) - WholeContribution(G, v) ==
            Contribution(G[..|G| - 1], v) - WholeContribution(G[..|G| - 1], v) + entry as real * m
  {
    var c := G[|G| - 1];
    ShareOut(entry as real, c.value.Floor as real, m);
    assert c.value == c.value.Floor as real + m;
  }

  lemma ShareOut(e: real, x: real, y: real)
    ensures e * (x + y) == e * x + e * y
  {
  }

  lemma {:induction false} ZerosSum(n: nat)
    ensures SumReal(seq(n, k => 0.0)) == 0.0
  {
    if n > 0 {
      ZerosSum(n - 1);
      assert seq(n, k => 0.0)[..n - 1] == seq(n - 1, k => 0.0);
    }
  }

  /** The identical blocks together have the value that the columns give the variable. */
  lemma AssembledTotal(G: seq<Column>, v: nat, n: nat)
    requires n > 0 && NonnegativeValues(G)
    ensures SumReal(Assembled(G, v, n)) == Contribution(G, v)
  {
    ZerosSum(n);
    AllUnitsAdd(G, v, Empty(n));
    AllRestsAdd(G, v, AllUnits(G, v, Empty(n)));
  }

  // ---------- with integral classes the assembled solution is integral ----------

  ghost predicate Sorted(G: seq<Column>, vars: seq<nat>, integer: set<nat>) {
    forall j, k :: 0 <= j < k < |G| ==> PtrComp(G[j], G[k], vars, integer) <= 0
  }

  /** I holds the integer variables that the order compares. */
  ghost predicate Compared(I: seq<nat>, vars: seq<nat>, integer: set<nat>) {
    forall v :: v in I <==> v in vars && v in integer
  }

  lemma SameIsTie(a: Column, b: Column, I: seq<nat>, vars: seq<nat>, integer: set<nat>)
    requires Compared(I, vars, integer)
    ensures SameOn(a, b, I) <==> PtrComp(a, b, vars, integer) == 0
  {
    PtrCompZero(a, b, vars, integer);
    if SameOn(a, b, I) {
      forall k | 0 <= k < |vars| && vars[k] in integer
        ensures GeneratorEntry(a, vars[k]) == GeneratorEntry(b, vars[k])
      {
        assert vars[k] in I;
        var j :| 0 <= j < |I| && I[j] == vars[k];
      }
    }
    if SameGenerator(a, b, vars, integer) {
      forall j | 0 <= j < |I| ensures GeneratorEntry(a, I[j]) == GeneratorEntry(b, I[j]) {
        assert I[j] in I;
        var k :| 0 <= k < |vars| && vars[k] == I[j];
      }
    }
  }

  /** In sorted order a class is contiguous: it does not reach across two neighbours that differ. */
  lemma ClassesContiguous(G: seq<Column>, I: seq<nat>, vars: seq<nat>, integer: set<nat>, i: nat, j: nat, k: nat)
    requires Sorted(G, vars, integer) && Compared(I, vars, integer) && 0 < i < |G| && !SameOn(G[i - 1], G[i], I)
    requires j < i <= k < |G|
    ensures !SameOn(G[k], G[j], I)
  {
    var x, y := G[i - 1], G[i];
    SameIsTie(x, y, I, vars, integer);
    SameIsTie(G[k], G[j], I, vars, integer);
    PtrCompAntisymmetric(G[k], G[j], vars, integer);
    PtrCompZero(x, x, vars, integer);
    PtrCompZero(y, y, vars, integer);
    PtrCompTransitive(G[j], x, y, vars, integer);
    PtrCompTransitive(G[j], y, G[k], vars, integer);
  }

  lemma {:induction false} ClassAppend(A: seq<Column>, B: seq<Column>, I: seq<nat>, c: Column)
    ensures ClassMass(A + B, I, c) == ClassMass(A, I, c) + ClassMass(B, I, c)
  {
    if |B| == 0 {
      assert A + B == A;
    } else {
      assert (A + B)[..|A + B| - 1] == A + B[..|B| - 1];
      ClassAppend(A, B[..|B| - 1], I, c);
    }
  }

  /** Up to two neighbours that differ, the mass is integral. */
  lemma PrefixIntegral(G: seq<Column>, I: seq<nat>, vars: seq<nat>, integer: set<nat>, i: nat)
    requires Sorted(G, vars, integer) && Compared(I, vars, integer) && ClassesIntegral(G, I)
    requires 0 < i < |G| && !SameOn(G[i - 1], G[i], I)
    ensures IsInt(Mass(G[..i], []))
  {
    forall c | c in G[..i] ensures IsInt(ClassMass(G[..i], I, c)) {
      var j: nat :| j < i && G[j] == c;
      ClassWithinPrefix(G, I, vars, integer, i, j);
    }
    UnionIntegral(G[..i], I, []);
  }

  lemma ClassWithinPrefix(G: seq<Column>, I: seq<nat>, vars: seq<nat>, integer: set<nat>, i: nat, j: nat)
    requires Sorted(G, vars, integer) && Compared(I, vars, integer)
    requires 0 < i < |G| && !SameOn(G[i - 1], G[i], I) && j < i
    ensures ClassMass(G[..i], I, G[j]) == ClassMass(G, I, G[j])
  {
    forall d | d in G[i..] ensures !SameOn(d, G[j], I) {
      var k :| i <= k < |G| && G[k] == d;
      ClassesContiguous(G, I, vars, integer, i, j, k);
    }
    NoneSame(G[i..], I, G[j]);
    ClassAppend(G[..i], G[i..], I, G[j]);
    assert G[..i] + G[i..] == G;
  }

  function Held(entry: int, amount: real): real {
    if amount == 0.0 then 0.0 else entry as real * amount
  }

  /** Finished blocks are integral, later ones untouched, and the current one holds columns with this entry only. */
  ghost predicate Uniform(s: Filling, entry: int) {
    && Proper(s)
    && (forall k :: 0 <= k < s.blocknr && k < |s.vals| ==> IsInt(s.vals[k]))
    && (forall k :: s.blocknr < k < |s.vals| ==> s.vals[k] == 0.0)
    && (s.blocknr < |s.vals| ==> s.vals[s.blocknr] == Held(entry, s.blockvalue))
  }

  lemma {:induction false} UnitsUniform(s: Filling, entry: int, m: nat)
    requires Uniform(s, 0) && s.blockvalue == 0.0 && s.blocknr + m <= |s.vals|
    ensures Uniform(Units(s, entry, m), 0)
    decreases m
  {
    if m > 0 {
      IntIsInt(entry);
      UnitsUniform(Increase(s, entry as real).(blocknr := s.blocknr + 1), entry, m - 1);
    }
  }

  lemma PutUniform(s: Filling, entry: int, amount: real)
    requires Uniform(s, entry) && 0.0 < amount <= 1.0 - s.blockvalue && Position(s) + amount <= |s.vals| as real
    ensures Uniform(Put(s, entry, amount), entry)
  {
    var full := s.blockvalue + amount;
    HeldMore(entry, s.blockvalue, amount);
    assert s.blocknr < |s.vals|;
    assert Increase(s, entry as real * amount).vals == s.vals[s.blocknr := Held(entry, full)];
    if full >= 1.0 { FinishedUniform(s, entry); } else { HeldUniform(s, entry, full); }
  }

  lemma HeldMore(entry: int, x: real, y: real)
    requires x >= 0.0 && y > 0.0
    ensures Held(entry, x) + entry as real * y == Held(entry, x + y)
  {
    ShareOut(entry as real, x, y);
  }

  lemma FinishedUniform(s: Filling, entry: int)
    requires Uniform(s, entry) && s.blocknr < |s.vals|
    ensures Uniform(Filling(s.vals[s.blocknr := Held(entry, 1.0)], s.blocknr + 1, 0.0), entry)
  {
    IntIsInt(entry);
    assert Held(entry, 1.0) == entry as real;
  }

  lemma HeldUniform(s: Filling, entry: int, full: real)
    requires Uniform(s, entry) && s.blocknr < |s.vals| && 0.0 <= full < 1.0
    ensures Uniform(Filling(s.vals[s.blocknr := Held(entry, full)], s.blocknr, full), entry)
  {
  }

  lemma RestUniform(s: Filling, entry: int, m: real)
    requires Uniform(s, entry) && 0.0 <= m < 1.0 && Position(s) + m <= |s.vals| as real
    ensures Uniform(Rest(s, entry, m), entry)
  {
    if 0.0 < m <= 1.0 - s.blockvalue {
      PutUniform(s, entry, m);
    } else if m > 0.0 {
      PutUniform(s, entry, 1.0 - s.blockvalue);
      PutMoves(s, entry, 1.0 - s.blockvalue);
      PutUniform(Put(s, entry, 1.0 - s.blockvalue), entry, m - (1.0 - s.blockvalue));
    }
  }

  lemma {:induction false} AllUnitsUniform(G: seq<Column>, v: nat, n: nat)
    requires n > 0 && NonnegativeValues(G) && Floors(G) <= n
    ensures Uniform(AllUnits(G, v, Empty(n)), 0)
  {
    if |G| > 0 {
      AllUnitsUniform(G[..|G| - 1], v, n);
      UnitsUniform(AllUnits(G[..|G| - 1], v, Empty(n)), GeneratorEntry(G[|G| - 1], v), G[|G| - 1].value.Floor);
    }
  }

  /** Where the entries change, the current block has just been finished. */
  lemma FinishedAtChange(G: seq<Column>, v: nat, n: nat, I: seq<nat>, vars: seq<nat>, integer: set<nat>, i: nat)
    requires n > 0 && NonnegativeValues(G) && Floors(G) <= n
    requires Sorted(G, vars, integer) && Compared(I, vars, integer) && ClassesIntegral(G, I)
    requires 0 < i < |G| && !SameOn(G[i - 1], G[i], I)
    ensures AllRests(G[..i], v, AllUnits(G, v, Empty(n))).blockvalue == 0.0
  {
    var units := AllUnits(G, v, Empty(n));
    var s := AllRests(G[..i], v, units);
    assert forall k :: 0 <= k < i ==> G[..i][k] == G[k];
    MassInParts(G[..i]);
    RestsMove(G[..i], v, units);
    PrefixIntegral(G, I, vars, integer, i);
    IntIsInt(Floors(G));
    IntIsInt(Floors(G[..i]));
    IntClosed(Mass(G[..i], []), Floors(G[..i]) as real);
    IntClosed(Fractions(G[..i]), Floors(G) as real);
    IntIsInt(s.blocknr);
    IntClosed(Position(s), s.blocknr as real);
    FloorUnique(s.blockvalue, 0);
  }

  lemma {:induction false} AllRestsUniform(G: seq<Column>, v: nat, n: nat, I: seq<nat>, vars: seq<nat>,
                                           integer: set<nat>, i: nat)
    requires n > 0 && NonnegativeValues(G) && Mass(G, []) == n as real && v in I && 0 < i <= |G|
    requires Sorted(G, vars, integer) && Compared(I, vars, integer) && ClassesIntegral(G, I)
    ensures Floors(G) <= n
    ensures Uniform(AllRests(G[..i], v, AllUnits(G, v, Empty(n))), GeneratorEntry(G[i - 1], v))
    decreases i
  {
    var units, c := AllUnits(G, v, Empty(n)), G[i - 1];
    MassInParts(G);
    PartsGrow(G, i);
    AllUnitsUniform(G, v, n);
    OneMoreRest(G[..i - 1], c, v, units);
    assert G[..i] == G[..i - 1] + [c];
    if i > 1 { AllRestsUniform(G, v, n, I, vars, integer, i - 1); }
    BeforeNext(G, v, n, I, vars, integer, i);
    RoomForNext(G, G[..i - 1], c, v, n);
    RestUniform(AllRests(G[..i - 1], v, units), GeneratorEntry(c, v), Fraction(c.value));
  }

  /** The next column continues the class of the last one, or the current block is empty. */
  lemma BeforeNext(G: seq<Column>, v: nat, n: nat, I: seq<nat>, vars: seq<nat>, integer: set<nat>, i: nat)
    requires n > 0 && NonnegativeValues(G) && Floors(G) <= n && v in I && 0 < i <= |G|
    requires Sorted(G, vars, integer) && Compared(I, vars, integer) && ClassesIntegral(G, I)
    requires Uniform(AllRests(G[..i - 1], v, AllUnits(G, v, Empty(n))),
                     if i > 1 then GeneratorEntry(G[i - 2], v) else 0)
    ensures Uniform(AllRests(G[..i - 1], v, AllUnits(G, v, Empty(n))), GeneratorEntry(G[i - 1], v))
  {
    if i > 1 {
      if SameOn(G[i - 2], G[i - 1], I) {
        var k :| 0 <= k < |I| && I[k] == v;
        assert GeneratorEntry(G[i - 2], I[k]) == GeneratorEntry(G[i - 1], I[k]);
      } else {
        FinishedAtChange(G, v, n, I, vars, integer, i - 1);
      }
    }
  }

  /**
   * If the columns are sorted and every class of them that agrees on the integer variables has integral total value,
   * every integer variable has an integral value in every block.
   */
  lemma AssembledIntegral(G: seq<Column>, v: nat, n: nat, I: seq<nat>, vars: seq<nat>, integer: set<nat>)
    requires n > 0 && NonnegativeValues(G) && Mass(G, []) == n as real && v in I
    requires Sorted(G, vars, integer) && Compared(I, vars, integer) && ClassesIntegral(G, I)
    ensures forall k :: 0 <= k < n ==> IsInt(Assembled(G, v, n)[k])
  {
    assert |G| > 0;
    AllRestsUniform(G, v, n, I, vars, integer, |G|);
    AllBlocksFilled(G, v, n);
    assert G[..|G|] == G;
  }
}

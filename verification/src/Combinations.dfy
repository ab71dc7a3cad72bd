/** What an assembled solution is made of: every identical block holds a convex combination of the block's columns. */
module Combinations {
  import opened Columns
  import opened Exhaustiveness
  import opened Disaggregation

  // ---------- the weights ----------

  /** The length of what the intervals from a to b and from k to k + 1 have in common. */
  function Overlap(a: real, b: real, k: nat): real {
    var lo := if a < k as real then k as real else a;
    var hi := if b < k as real + 1.0 then b else k as real + 1.0;
    if lo < hi then hi - lo else 0.0
  }

  /** Whole units of column c: one for each block from number Floors(G[..c]) on. */
  function UnitWeight(G: seq<Column>, c: nat, k: nat): real
    requires c < |G| && NonnegativeValues(G)
  {
    if Floors(G[..c]) <= k < Floors(G[..c + 1]) then 1.0 else 0.0
  }

  /** The rest of column c: the fractions lie end to end behind all units, and are cut into blocks. */
  function RestWeight(G: seq<Column>, c: nat, k: nat): real
    requires c < |G| && NonnegativeValues(G)
  {
    Overlap(Floors(G) as real + Fractions(G[..c]), Floors(G) as real + Fractions(G[..c + 1]), k)
  }

  /** What block k holds of column c; the same for all variables. */
  function Weight(G: seq<Column>, c: nat, k: nat): (w: real)
    requires c < |G| && NonnegativeValues(G)
    ensures w >= 0.0
  {
    UnitWeight(G, c, k) + RestWeight(G, c, k)
  }

  /** What the first n blocks hold of column c. */
  function OfColumn(G: seq<Column>, c: nat, n: nat): (w: seq<real>)
    requires c < |G| && NonnegativeValues(G)
    ensures |w| == n && forall k :: 0 <= k < n ==> w[k] == Weight(G, c, k)
  {
    seq(n, k requires 0 <= k < n => Weight(G, c, k))
  }

  /** What block k holds of the first i columns. */
  function OfBlock(G: seq<Column>, i: nat, k: nat): (w: seq<real>)
    requires i <= |G| && NonnegativeValues(G)
    ensures |w| == i && forall c :: 0 <= c < i ==> w[c] == Weight(G, c, k)
  {
    seq(i, c requires 0 <= c < i => Weight(G, c, k))
  }

  /** The combination of the columns' entries with the given weights. */
  function Mixed(G: seq<Column>, v: nat, w: seq<real>): real
    requires |w| <= |G|
  {
    if |w| == 0 then 0.0
    else Mixed(G, v, w[..|w| - 1]) + GeneratorEntry(G[|w| - 1], v) as real * w[|w| - 1]
  }

  lemma MixedOneMore(G: seq<Column>, v: nat, w: seq<real>, x: real)
    requires |w| < |G|
    ensures Mixed(G, v, w + [x]) == Mixed(G, v, w) + GeneratorEntry(G[|w|], v) as real * x
  {
    assert (w + [x])[..|w|] == w;
  }

  lemma SumOneMore(w: seq<real>, x: real)
    ensures SumReal(w + [x]) == SumReal(w) + x
  {
    assert (w + [x])[..|w|] == w;
  }

  /** A combination with nonnegative weights lies between the least and the greatest entry, times the total weight. */
  lemma {:induction false} MixedBetween(G: seq<Column>, v: nat, w: seq<real>, lo: int, hi: int)
    requires |w| <= |G| && (forall c :: 0 <= c < |w| ==> w[c] >= 0.0)
    requires forall c :: 0 <= c < |G| ==> lo <= GeneratorEntry(G[c], v) <= hi
    ensures lo as real * SumReal(w) <= Mixed(G, v, w) <= hi as real * SumReal(w)
  {
    if |w| > 0 {
      var n := |w| - 1;
      var total, mixed := SumReal(w[..n]), Mixed(G, v, w[..n]);
      MixedBetween(G, v, w[..n], lo, hi);
      OneMoreBetween(lo as real, GeneratorEntry(G[n], v) as real, hi as real, total, mixed, w[n]);
      assert SumReal(w) == total + w[n] && Mixed(G, v, w) == mixed + GeneratorEntry(G[n], v) as real * w[n];
    }
  }

  lemma OneMoreBetween(lo: real, e: real, hi: real, total: real, mixed: real, w: real)
    requires lo * total <= mixed <= hi * total && lo <= e <= hi && w >= 0.0
    ensures lo * (total + w) <= mixed + e * w <= hi * (total + w)
  {
    ShareOut(lo, total, w);
    ShareOut(hi, total, w);
    assert (e - lo) * w >= 0.0 && (hi - e) * w >= 0.0;
  }

  lemma {:induction false} MixedAdds(G: seq<Column>, v: nat, a: seq<real>, b: seq<real>, w: seq<real>)
    requires |a| == |b| == |w| <= |G| && forall c :: 0 <= c < |w| ==> w[c] == a[c] + b[c]
    ensures Mixed(G, v, w) == Mixed(G, v, a) + Mixed(G, v, b)
  {
    if |w| > 0 {
      var n := |w| - 1;
      MixedAdds(G, v, a[..n], b[..n], w[..n]);
      ShareOut(GeneratorEntry(G[n], v) as real, a[n], b[n]);
    }
  }

  // ---------- the weights add up ----------

  lemma OneMoreFloor(G: seq<Column>, c: nat)
    requires c < |G| && NonnegativeValues(G)
    ensures Floors(G[..c + 1]) == Floors(G[..c]) + G[c].value.Floor
    ensures Fractions(G[..c + 1]) == Fractions(G[..c]) + Fraction(G[c].value)
  {
    assert G[..c + 1][..c] == G[..c];
  }

  lemma OverlapAdds(a: real, b: real, c: real, k: nat)
    requires a <= b <= c
    ensures Overlap(a, b, k) + Overlap(b, c, k) == Overlap(a, c, k)
  {
  }

  function Upto(x: real, n: nat): real {
    if x < n as real then x else n as real
  }

  lemma OverlapUpto(a: real, b: real, n: nat)
    requires 0.0 <= a <= b
    ensures Upto(b, n + 1) - Upto(a, n + 1) == Upto(b, n) - Upto(a, n) + Overlap(a, b, n)
  {
  }

  /** Whole units from number x on, up to block n. */
  function UnitsUpto(x: nat, y: nat, n: nat): int
    requires x <= y
  {
    (if y < n then y else n) - (if x < n then x else n)
  }

  lemma UnitsOneMore(G: seq<Column>, c: nat, n: nat)
    requires c < |G| && NonnegativeValues(G) && Floors(G[..c]) <= Floors(G[..c + 1])
    ensures UnitsUpto(Floors(G[..c]), Floors(G[..c + 1]), n + 1) as real ==
            UnitsUpto(Floors(G[..c]), Floors(G[..c + 1]), n) as real + UnitWeight(G, c, n)
  {
  }

  lemma PartsOrdered(G: seq<Column>, c: nat)
    requires c < |G| && NonnegativeValues(G)
    ensures Floors(G[..c]) <= Floors(G[..c + 1]) <= Floors(G)
    ensures 0.0 <= Fractions(G[..c]) <= Fractions(G[..c + 1]) <= Fractions(G)
  {
    PartsGrow(G, c);
    PartsGrow(G, c + 1);
    OneMoreFloor(G, c);
  }

  lemma {:induction false} ColumnTotal(G: seq<Column>, c: nat, n: nat, a: real, b: real)
    requires c < |G| && NonnegativeValues(G)
    requires a == Floors(G) as real + Fractions(G[..c]) && b == Floors(G) as real + Fractions(G[..c + 1])
    requires Floors(G[..c]) <= Floors(G[..c + 1]) && 0.0 <= a <= b
    ensures SumReal(OfColumn(G, c, n)) ==
            UnitsUpto(Floors(G[..c]), Floors(G[..c + 1]), n) as real + Upto(b, n) - Upto(a, n)
  {
    if n > 0 {
      ColumnTotal(G, c, n - 1, a, b);
      assert OfColumn(G, c, n) == OfColumn(G, c, n - 1) + [Weight(G, c, n - 1)];
      SumOneMore(OfColumn(G, c, n - 1), Weight(G, c, n - 1));
      UnitsOneMore(G, c, n - 1);
      OverlapUpto(a, b, n - 1);
    }
  }

  lemma {:induction false} BlockTotal(G: seq<Column>, i: nat, k: nat, f: real, b: real)
    requires i <= |G| && NonnegativeValues(G) && f == Floors(G) as real && b == f + Fractions(G[..i])
    ensures SumReal(OfBlock(G, i, k)) == (if k < Floors(G[..i]) then 1.0 else 0.0) + Overlap(f, b, k)
  {
    if i > 0 {
      var a := f + Fractions(G[..i - 1]);
      BlockTotal(G, i - 1, k, f, a);
      BlockOneMore(G, i, k);
      UnitsShare(G, i, k);
      RestsShare(G, i, k, f, a, b);
      OverlapAdds(f, a, b, k);
    }
  }

  lemma BlockOneMore(G: seq<Column>, i: nat, k: nat)
    requires 0 < i <= |G| && NonnegativeValues(G)
    ensures SumReal(OfBlock(G, i, k)) ==
            SumReal(OfBlock(G, i - 1, k)) + UnitWeight(G, i - 1, k) + RestWeight(G, i - 1, k)
  {
    assert OfBlock(G, i, k) == OfBlock(G, i - 1, k) + [Weight(G, i - 1, k)];
    SumOneMore(OfBlock(G, i - 1, k), Weight(G, i - 1, k));
  }

  lemma UnitsShare(G: seq<Column>, i: nat, k: nat)
    requires 0 < i <= |G| && NonnegativeValues(G)
    ensures UnitWeight(G, i - 1, k) ==
            (if k < Floors(G[..i]) then 1.0 else 0.0) - if k < Floors(G[..i - 1]) then 1.0 else 0.0
  {
    PartsOrdered(G, i - 1);
  }

  lemma RestsShare(G: seq<Column>, i: nat, k: nat, f: real, a: real, b: real)
    requires 0 < i <= |G| && NonnegativeValues(G) && f == Floors(G) as real
    requires a == f + Fractions(G[..i - 1]) && b == f + Fractions(G[..i])
    ensures f <= a <= b && RestWeight(G, i - 1, k) == Overlap(a, b, k)
  {
    PartsOrdered(G, i - 1);
  }

  /** All of column c is handed out. */
  lemma AllHandedOut(G: seq<Column>, c: nat, n: nat)
    requires c < |G| && NonnegativeValues(G) && Mass(G, []) == n as real
    ensures SumReal(OfColumn(G, c, n)) == G[c].value
  {
    MassInParts(G);
    PartsOrdered(G, c);
    OneMoreFloor(G, c);
    ColumnTotal(G, c, n, Floors(G) as real + Fractions(G[..c]), Floors(G) as real + Fractions(G[..c + 1]));
  }

  /** A block holds one unit in all. */
  lemma BlockHoldsOne(G: seq<Column>, n: nat, k: nat)
    requires NonnegativeValues(G) && Mass(G, []) == n as real && k < n
    ensures SumReal(OfBlock(G, |G|, k)) == 1.0
  {
    MassInParts(G);
    assert G[..|G|] == G;
    BlockTotal(G, |G|, k, Floors(G) as real, n as real);
    WholeBlock(Floors(G), n, k);
  }

  lemma WholeBlock(f: nat, n: nat, k: nat)
    requires k < n
    ensures (if k < f then 1.0 else 0.0) + Overlap(f as real, n as real, k) == 1.0
  {
  }

  // ---------- the assembled values are combinations with these weights ----------

  lemma {:induction false} UnitsAt(s: Filling, entry: int, m: nat, k: nat)
    requires s.blocknr + m <= |s.vals| && k < |s.vals|
    ensures Units(s, entry, m).vals[k] ==
            s.vals[k] + if s.blocknr <= k < s.blocknr + m then entry as real else 0.0
    decreases m
  {
    if m > 0 { UnitsAt(Increase(s, entry as real).(blocknr := s.blocknr + 1), entry, m - 1, k); }
  }

  lemma PutAt(s: Filling, entry: int, amount: real, k: nat, o: real)
    requires Proper(s) && k < |s.vals| && 0.0 <= amount <= 1.0 - s.blockvalue && s.blocknr < |s.vals|
    requires o == Overlap(Position(s), Position(s) + amount, k)
    ensures Put(s, entry, amount).vals[k] == s.vals[k] + entry as real * o
  {
    if k == s.blocknr {
      assert o == amount;
    } else {
      assert o == 0.0;
    }
  }

  lemma RestAt(s: Filling, entry: int, m: real, k: nat, o: real)
    requires Proper(s) && k < |s.vals| && 0.0 <= m < 1.0 && Position(s) + m <= |s.vals| as real
    requires o == Overlap(Position(s), Position(s) + m, k)
    ensures Rest(s, entry, m).vals[k] == s.vals[k] + entry as real * o
  {
    if 0.0 < m <= 1.0 - s.blockvalue {
      PutAt(s, entry, m, k, o);
    } else if m > 0.0 {
      var p, x := Position(s), 1.0 - s.blockvalue;
      PutMoves(s, entry, x);
      OverlapAdds(p, p + x, p + m, k);
      TwoPutsAt(s, entry, x, m - x, k, Overlap(p, p + x, k), Overlap(p + x, p + m, k));
    }
  }

  lemma TwoPutsAt(s: Filling, entry: int, x: real, y: real, k: nat, o1: real, o2: real)
    requires Proper(s) && k < |s.vals| && x == 1.0 - s.blockvalue && s.blocknr + 1 < |s.vals| && 0.0 <= y <= 1.0
    requires o1 == Overlap(Position(s), Position(s) + x, k)
    requires o2 == Overlap(Position(s) + x, Position(s) + x + y, k)
    ensures Put(Put(s, entry, x), entry, y).vals[k] == s.vals[k] + entry as real * (o1 + o2)
  {
    PutMoves(s, entry, x);
    PutAt(s, entry, x, k, o1);
    PutAt(Put(s, entry, x), entry, y, k, o2);
    ShareOut(entry as real, o1, o2);
  }

  function UnitWeights(G: seq<Column>, i: nat, k: nat): (w: seq<real>)
    requires i <= |G| && NonnegativeValues(G)
    ensures |w| == i && forall c :: 0 <= c < i ==> w[c] == UnitWeight(G, c, k)
  {
    seq(i, c requires 0 <= c < i => UnitWeight(G, c, k))
  }

  function RestWeights(G: seq<Column>, i: nat, k: nat): (w: seq<real>)
    requires i <= |G| && NonnegativeValues(G)
    ensures |w| == i && forall c :: 0 <= c < i ==> w[c] == RestWeight(G, c, k)
  {
    seq(i, c requires 0 <= c < i => RestWeight(G, c, k))
  }

  /** After the first loop. */
  lemma {:induction false} AllUnitsAt(G: seq<Column>, i: nat, v: nat, n: nat, k: nat)
    requires i <= |G| && NonnegativeValues(G) && Floors(G) <= n && k < n
    ensures NonnegativeValues(G[..i])
    ensures AllUnits(G[..i], v, Empty(n)).vals[k] == Mixed(G, v, UnitWeights(G, i, k))
  {
    if i > 0 {
      AllUnitsAt(G, i - 1, v, n, k);
      var entry, weight := GeneratorEntry(G[i - 1], v), UnitWeight(G, i - 1, k);
      NextUnitsAt(G, i, v, n, k, entry, weight);
      MixesNextUnits(G, i, v, k, entry, weight);
    }
  }

  lemma MixesNextUnits(G: seq<Column>, i: nat, v: nat, k: nat, entry: int, weight: real)
    requires 0 < i <= |G| && NonnegativeValues(G)
    requires entry == GeneratorEntry(G[i - 1], v) && weight == UnitWeight(G, i - 1, k)
    ensures Mixed(G, v, UnitWeights(G, i, k)) == Mixed(G, v, UnitWeights(G, i - 1, k)) + entry as real * weight
  {
    assert UnitWeights(G, i, k) == UnitWeights(G, i - 1, k) + [weight];
    MixedOneMore(G, v, UnitWeights(G, i - 1, k), weight);
  }

  lemma NextUnitsAt(G: seq<Column>, i: nat, v: nat, n: nat, k: nat, entry: int, weight: real)
    requires 0 < i <= |G| && NonnegativeValues(G) && Floors(G) <= n && k < n
    requires entry == GeneratorEntry(G[i - 1], v) && weight == UnitWeight(G, i - 1, k)
    ensures AllUnits(G[..i], v, Empty(n)).vals[k] == AllUnits(G[..i - 1], v, Empty(n)).vals[k] + entry as real * weight
  {
    var c := G[i - 1];
    PartsGrow(G, i);
    OneMoreFloor(G, i - 1);
    assert G[..i] == G[..i - 1] + [c];
    OneMoreUnits(G[..i - 1], c, v, n);
    UnitsAt(AllUnits(G[..i - 1], v, Empty(n)), entry, c.value.Floor, k);
    assert weight == 1.0 || weight == 0.0;
  }

  /** After the second one. */
  lemma {:induction false} AllRestsAt(G: seq<Column>, i: nat, v: nat, n: nat, k: nat)
    requires n > 0 && i <= |G| && NonnegativeValues(G) && Mass(G, []) == n as real && k < n
    ensures AllRests(G[..i], v, AllUnits(G, v, Empty(n))).vals[k] ==
            AllUnits(G, v, Empty(n)).vals[k] + Mixed(G, v, RestWeights(G, i, k))
  {
    if i > 0 {
      AllRestsAt(G, i - 1, v, n, k);
      var entry, weight := GeneratorEntry(G[i - 1], v), RestWeight(G, i - 1, k);
      NextRestAt(G, i, v, n, k, entry, weight);
      MixesNextRest(G, i, v, k, entry, weight);
    }
  }

  lemma MixesNextRest(G: seq<Column>, i: nat, v: nat, k: nat, entry: int, weight: real)
    requires 0 < i <= |G| && NonnegativeValues(G)
    requires entry == GeneratorEntry(G[i - 1], v) && weight == RestWeight(G, i - 1, k)
    ensures Mixed(G, v, RestWeights(G, i, k)) == Mixed(G, v, RestWeights(G, i - 1, k)) + entry as real * weight
  {
    assert RestWeights(G, i, k) == RestWeights(G, i - 1, k) + [weight];
    MixedOneMore(G, v, RestWeights(G, i - 1, k), weight);
  }

  lemma NextRestAt(G: seq<Column>, i: nat, v: nat, n: nat, k: nat, entry: int, weight: real)
    requires n > 0 && 0 < i <= |G| && NonnegativeValues(G) && Mass(G, []) == n as real && k < n
    requires entry == GeneratorEntry(G[i - 1], v) && weight == RestWeight(G, i - 1, k)
    ensures AllRests(G[..i], v, AllUnits(G, v, Empty(n))).vals[k] ==
            AllRests(G[..i - 1], v, AllUnits(G, v, Empty(n))).vals[k] + entry as real * weight
  {
    var units, c := AllUnits(G, v, Empty(n)), G[i - 1];
    assert G[..i] == G[..i - 1] + [c];
    OneMoreFloor(G, i - 1);
    RoomForNext(G, G[..i - 1], c, v, n);
    OneMoreRest(G[..i - 1], c, v, units);
    RestsMove(G[..i - 1], v, units);
    RestAt(AllRests(G[..i - 1], v, units), entry, Fraction(c.value), k, weight);
  }

  /**
   * In every block every variable has the value of the same convex combination of columns: the weights are not
   * negative, add up to one, and over all blocks to the values of the columns.
   */
  lemma ConvexCombination(G: seq<Column>, v: nat, n: nat, k: nat)
    requires NonnegativeValues(G) && Mass(G, []) == n as real && k < n
    ensures Assembled(G, v, n)[k] == Mixed(G, v, OfBlock(G, |G|, k)) && SumReal(OfBlock(G, |G|, k)) == 1.0
    ensures forall c :: 0 <= c < |G| ==> OfBlock(G, |G|, k)[c] >= 0.0
    ensures forall c :: 0 <= c < |G| ==> OfColumn(G, c, n)[k] == OfBlock(G, |G|, k)[c]
    ensures forall c :: 0 <= c < |G| ==> SumReal(OfColumn(G, c, n)) == G[c].value
  {
    MassInParts(G);
    PartsGrow(G, 0);
    AllUnitsAt(G, |G|, v, n, k);
    AllRestsAt(G, |G|, v, n, k);
    MixedAdds(G, v, UnitWeights(G, |G|, k), RestWeights(G, |G|, k), OfBlock(G, |G|, k));
    BlockHoldsOne(G, n, k);
    assert G[..|G|] == G;
    forall c | 0 <= c < |G| ensures SumReal(OfColumn(G, c, n)) == G[c].value { AllHandedOut(G, c, n); }
  }

  /** So every block's value lies between the least and the greatest entry. */
  lemma AssembledBetween(G: seq<Column>, v: nat, n: nat, k: nat, lo: int, hi: int)
    requires NonnegativeValues(G) && Mass(G, []) == n as real && k < n
    requires forall c :: 0 <= c < |G| ==> lo <= GeneratorEntry(G[c], v) <= hi
    ensures lo as real <= Assembled(G, v, n)[k] <= hi as real
  {
    ConvexCombination(G, v, n, k);
    MixedBetween(G, v, OfBlock(G, |G|, k), lo, hi);
  }

  /** A whole unit fills a block of its own: no other column has a share in it. */
  lemma UnitFillsBlock(G: seq<Column>, n: nat, c: nat, d: nat, k: nat)
    requires NonnegativeValues(G) && Mass(G, []) == n as real && k < n && c < |G| && d < |G| && c != d
    requires Floors(G[..c]) <= k < Floors(G[..c]) + G[c].value.Floor
    ensures Weight(G, c, k) == 1.0 && Weight(G, d, k) == 0.0
  {
    OneMoreFloor(G, c);
    PartsOrdered(G, c);
    PartsOrdered(G, d);
    FloorsGrow(G, c, d);
  }

  lemma FloorsGrow(G: seq<Column>, c: nat, d: nat)
    requires c < |G| && d < |G| && c != d && NonnegativeValues(G)
    ensures c < d ==> Floors(G[..c + 1]) <= Floors(G[..d])
    ensures d < c ==> Floors(G[..d + 1]) <= Floors(G[..c])
  {
    if c < d {
      PartsGrow(G[..d], c + 1);
      assert G[..d][..c + 1] == G[..c + 1];
    } else {
      PartsGrow(G[..c], d + 1);
      assert G[..c][..d + 1] == G[..d + 1];
    }
  }
}

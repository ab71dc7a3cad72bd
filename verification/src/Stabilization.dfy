/** The stabilization object: its center, its subgradient, and the parameters that steer smoothing. */
module DualStabilization {
  import opened Vectors
  import opened Smoothing

  /** The dual values of one LP: master constraints, master cuts, linking constraints. */
  datatype Duals = Duals(conss: Vector, cuts: Vector, linking: Vector)
  {
    function All(): Vector {
      conss + cuts + linking
    }
  }

  datatype RowSide = Infinite | Given(value: real)

  /** A row, with its activity at the pricing columns. */
  datatype Row = Row(lhs: RowSide, rhs: RowSide, activity: real)

  /** The rows at the pricing columns; a linking constraint has a single value. */
  datatype Activity = Activity(conss: seq<Row>, cuts: seq<Row>, linking: Vector)

  /** How far the activity falls short of a side; an infinite side has no such value, and 0 stands for it. */
  function Gap(side: RowSide, activity: real): real {
    if side.Given? then side.value - activity else 0.0
  }

  /** The entry of the subgradient: the violated side depends on the sign of the dual. */
  function Infeasibility(dual: real, r: Row): real {
    if dual > 0.0 then Gap(r.lhs, r.activity) else if dual < 0.0 then Gap(r.rhs, r.activity) else 0.0
  }

  /** The rows have the sides that the signs of their duals are about, and none lacks both. */
  ghost predicate RowsFit(rows: seq<Row>, side: nat -> Side) {
    forall i :: 0 <= i < |rows| ==>
      && rows[i].lhs.Infinite? == side(i).lhsInfinite && rows[i].rhs.Infinite? == side(i).rhsInfinite
      && !(rows[i].lhs.Infinite? && rows[i].rhs.Infinite?)
  }

  /**
   * v measures each row at the side that its dual is about: at the left-hand side if it is positive, at the right-hand
   * side if it is negative. The side is finite.
   */
  ghost predicate Measures(v: Vector, duals: Vector, rows: seq<Row>) {
    && |v| == |duals| == |rows|
    && forall i :: 0 <= i < |v| ==>
         && (duals[i] > 0.0 ==> rows[i].lhs.Given? && v[i] == rows[i].lhs.value - rows[i].activity)
         && (duals[i] < 0.0 ==> rows[i].rhs.Given? && v[i] == rows[i].rhs.value - rows[i].activity)
         && (duals[i] == 0.0 ==> v[i] == 0.0)
  }

  /** With duals of the right signs no infinite side is ever used. */
  lemma InfeasibilitiesMeasure(duals: Vector, rows: seq<Row>, side: nat -> Side)
    requires |duals| == |rows| && RightSigns(duals, side) && RowsFit(rows, side)
    ensures Measures(Infeasibilities(duals, rows), duals, rows)
  {
    forall i | 0 <= i < |rows|
      ensures duals[i] > 0.0 ==> rows[i].lhs.Given?
      ensures duals[i] < 0.0 ==> rows[i].rhs.Given?
    {
      UsedSideIsFinite(duals[i], side(i));
    }
  }

  function Infeasibilities(center: Vector, rs: seq<Row>): (v: Vector)
    requires |center| == |rs|
    ensures |v| == |rs| && forall i :: 0 <= i < |rs| ==> v[i] == Infeasibility(center[i], rs[i])
  {
    seq(|rs|, i requires 0 <= i < |rs| => Infeasibility(center[i], rs[i]))
  }

  /** A linking constraint contributes its activity, unless its smoothed dual is zero. */
  function Masked(duals: Vector, activity: Vector): (v: Vector)
    requires |duals| == |activity|
    ensures |v| == |activity| && forall i :: 0 <= i < |v| ==> v[i] == if duals[i] == 0.0 then 0.0 else activity[i]
  {
    seq(|duals|, i requires 0 <= i < |duals| => if duals[i] == 0.0 then 0.0 else activity[i])
  }

  /** A row whose center has the right sign never uses an infinite side, unless both its sides are infinite. */
  lemma UsedSideIsFinite(dual: real, side: Side)
    requires RightSign(dual, side) && !(side.lhsInfinite && side.rhsInfinite)
    ensures dual > 0.0 ==> !side.lhsInfinite
    ensures dual < 0.0 ==> !side.rhsInfinite
  {
  }

  /** There is an activity for every row. */
  predicate HasSize(lp: Duals, act: Activity) {
    |act.conss| == |lp.conss| && |act.cuts| == |lp.cuts| && |act.linking| == |lp.linking|
  }

  function At(v: Vector, i: nat): real {
    if i < |v| then v[i] else 0.0
  }

  /** Growing an array: the new entries are zero. */
  function Extended(v: Vector, n: nat): (w: Vector)
    ensures |w| == if |v| < n then n else |v|
    ensures forall i :: 0 <= i < |w| ==> w[i] == if i < |v| then v[i] else 0.0
  {
    if |v| < n then v + Zeros(n - |v|) else v
  }

  lemma ExtendedTwice(v: Vector, n: nat)
    ensures Extended(Extended(v, n), n) == Extended(v, n)
  {
  }

  lemma ExtendedSquares(v: Vector, n: nat)
    ensures SumSq(Extended(v, n)) == SumSq(v)
  {
    if |v| < n {
      SumSqAppend(v, Zeros(n - |v|));
      SumSqZeros(n - |v|);
    }
  }

  /** The first n sides. */
  function Sides(side: nat -> Side, n: nat): (s: seq<Side>)
    ensures |s| == n && forall i :: 0 <= i < n ==> s[i] == side(i)
  {
    seq(n, i requires 0 <= i < n => side(i))
  }

  ghost predicate RightSigns(v: Vector, side: nat -> Side) {
    forall i :: 0 <= i < |v| ==> RightSign(v[i], side(i))
  }

  lemma ExtendedSigns(v: Vector, n: nat, side: nat -> Side)
    requires RightSigns(v, side)
    ensures RightSigns(Extended(v, n), side)
  {
  }

  lemma DualVectorSigns(s: Smooth, center: Vector, current: Vector, subgradient: Vector, side: nat -> Side)
    requires |center| == |current| == |subgradient|
    requires 0.0 <= s.alpha <= 1.0 && 0.0 <= s.alphabar <= 1.0
    requires RightSigns(center, side) && RightSigns(current, side)
    ensures RightSigns(DualVector(s, center, current, subgradient, Sides(side, |center|)), side)
  {
    var v := DualVector(s, center, current, subgradient, Sides(side, |center|));
    forall i | 0 <= i < |v| ensures RightSign(v[i], side(i)) {
      ComputedSign(s, center[i], current[i], subgradient[i], side(i));
    }
  }

  lemma DifferenceAppend(a: Vector, b: Vector, x: Vector, y: Vector)
    requires |a| == |x| && |b| == |y|
    ensures Difference(a + b, x + y) == Difference(a, x) + Difference(b, y)
  {
  }

  /** Squared distances add up over the three groups of rows. */
  lemma DistanceOfParts(a: Vector, b: Vector, c: Vector, x: Vector, y: Vector, z: Vector)
    requires |a| == |x| && |b| == |y| && |c| == |z|
    ensures SumSq(Difference(a + b + c, x + y + z)) ==
            SumSq(Difference(a, x)) + SumSq(Difference(b, y)) + SumSq(Difference(c, z))
  {
    DifferenceAppend(a + b, c, x + y, z);
    DifferenceAppend(a, b, x, y);
    SumSqAppend(Difference(a + b, x + y), Difference(c, z));
    SumSqAppend(Difference(a, x), Difference(b, y));
  }

  lemma ProductsOfParts(a: Vector, b: Vector, c: Vector, x: Vector, y: Vector, z: Vector, f: Vector, g: Vector,
    h: Vector)
    requires |a| == |x| == |f| && |b| == |y| == |g| && |c| == |z| == |h|
    ensures SumProducts(Difference(a + b + c, x + y + z), f + g + h) ==
            SumProducts(Difference(a, x), f) + SumProducts(Difference(b, y), g) + SumProducts(Difference(c, z), h)
  {
    DifferenceAppend(a + b, c, x + y, z);
    DifferenceAppend(a, b, x, y);
    SumProductsAppend(Difference(a + b, x + y), Difference(c, z), f + g, h);
    SumProductsAppend(Difference(a, x), Difference(b, y), f, g);
  }

  lemma DirectionAppend(s: Smooth, a: Vector, b: Vector, x: Vector, y: Vector, f: Vector, g: Vector)
    requires |a| == |x| == |f| && |b| == |y| == |g|
    ensures Direction(s, a + b, x + y, f + g) == Direction(s, a, x, f) + Direction(s, b, y, g)
  {
  }

  lemma DirectionOfParts(s: Smooth, a: Vector, b: Vector, c: Vector, x: Vector, y: Vector, z: Vector, f: Vector,
    g: Vector, h: Vector)
    requires |a| == |x| == |f| && |b| == |y| == |g| && |c| == |z| == |h|
    ensures SumSq(Direction(s, a + b + c, x + y + z, f + g + h)) ==
            SumSq(Direction(s, a, x, f)) + SumSq(Direction(s, b, y, g)) + SumSq(Direction(s, c, z, h))
  {
    DirectionAppend(s, a + b, c, x + y, z, f + g, h);
    DirectionAppend(s, a, b, x, y, f, g);
    SumSqAppend(Direction(s, a + b, x + y, f + g), Direction(s, c, z, h));
    SumSqAppend(Direction(s, a, x, f), Direction(s, b, y, g));
  }

  lemma DualVectorAppend(s: Smooth, a: Vector, b: Vector, x: Vector, y: Vector, f: Vector, g: Vector, p: seq<Side>,
    q: seq<Side>)
    requires |a| == |x| == |f| == |p| && |b| == |y| == |g| == |q|
    ensures DualVector(s, a + b, x + y, f + g, p + q) == DualVector(s, a, x, f, p) + DualVector(s, b, y, g, q)
  {
  }

  /** The direction does not depend on the factor by which it is going to be multiplied. */
  lemma DirectionIgnoresFactor(s: Smooth, factor: real, center: Vector, current: Vector, subgradient: Vector)
    requires |center| == |current| == |subgradient|
    ensures Direction(s.(hybridfactor := factor), center, current, subgradient) ==
      Direction(s, center, current, subgradient)
  {
    var d := Direction(s.(hybridfactor := factor), center, current, subgradient);
    assert forall i :: 0 <= i < |d| ==> d[i] == DirectionEntry(s, center[i], current[i], subgradient[i]);
  }

  lemma BetaIgnoresFactor(s: Smooth, factor: real, center: Vector, current: Vector, subgradient: Vector)
    requires |center| == |current| == |subgradient|
    ensures BetaOf(s.(hybridfactor := factor), center, current, subgradient) == BetaOf(s, center, current, subgradient)
  {
  }

  method AddDistances(start: real, center: Vector, current: Vector) returns (sum: real)
    requires |center| == |current|
    ensures sum == start + SumSq(Difference(center, current))
  {
    sum := start;
    ghost var d := Difference(center, current);
    for i := 0 to |center|
      invariant sum == start + SumSq(d[..i])
    {
      sum := sum + Sqr(center[i] - current[i]);
      assert d[..i + 1][..i] == d[..i];
    }
    assert d[..|center|] == d;
  }

  /** The rows' share of the subgradient product. */
  method WeighInfeasibilities(current: Vector, center: Vector, duals: Vector, rs: seq<Row>)
    returns (product: real)
    requires |current| == |center| == |duals| == |rs|
    ensures product == Dot(Difference(current, center), Infeasibilities(duals, rs))
  {
    product := 0.0;
    ghost var x, y := Difference(current, center), Infeasibilities(duals, rs);
    for i := 0 to |rs|
      invariant product == Dot(x[..i], y[..i])
    {
      product := product + (current[i] - center[i]) * Infeasibility(duals[i], rs[i]);
      assert x[..i + 1][..i] == x[..i] && y[..i + 1][..i] == y[..i];
    }
    assert x[..|rs|] == x && y[..|rs|] == y;
  }

  method WeighLinking(current: Vector, center: Vector, duals: Vector, activity: Vector) returns (product: real)
    requires |current| == |center| == |duals| == |activity|
    ensures product == Dot(Difference(current, center), Masked(duals, activity))
  {
    product := 0.0;
    ghost var x, y := Difference(current, center), Masked(duals, activity);
    for i := 0 to |activity|
      invariant product == Dot(x[..i], y[..i])
    {
      product := product + (current[i] - center[i]) * if duals[i] == 0.0 then 0.0 else activity[i];
      assert x[..i + 1][..i] == x[..i] && y[..i + 1][..i] == y[..i];
    }
    assert x[..|activity|] == x && y[..|activity|] == y;
  }

  method AddProducts(start: real, center: Vector, current: Vector, subgradient: Vector) returns (sum: real)
    requires |center| == |current| == |subgradient|
    ensures sum == start + SumProducts(Difference(current, center), subgradient)
  {
    sum := start;
    ghost var d := Difference(current, center);
    for i := 0 to |center|
      invariant sum == start + SumProducts(d[..i], subgradient[..i])
    {
      sum := sum + Abs(current[i] - center[i]) * Abs(subgradient[i]);
      assert d[..i + 1][..i] == d[..i] && subgradient[..i + 1][..i] == subgradient[..i];
    }
    assert d[..|center|] == d && subgradient[..|center|] == subgradient;
  }

  method AddDirections(start: real, s: Smooth, center: Vector, current: Vector, subgradient: Vector) returns (sum: real)
    requires |center| == |current| == |subgradient|
    ensures sum == start + SumSq(Direction(s, center, current, subgradient))
  {
    sum := start;
    ghost var d := Direction(s, center, current, subgradient);
    for i := 0 to |center|
      invariant sum == start + SumSq(d[..i])
    {
      sum := sum + Sqr(DirectionEntry(s, center[i], current[i], subgradient[i]));
      assert d[..i + 1][..i] == d[..i];
    }
    assert d[..|center|] == d;
  }

  /** One more entry of the target has been written. */
  lemma PrefixGrows(before: Vector, after: Vector, target: Vector, source: Vector, i: nat)
    requires |before| == |target| == |source| && i < |before| && after == before[i := target[i]]
    requires before[..i] == target[..i] && before[i..] == source[i..]
    ensures after[..i + 1] == target[..i + 1] && after[i + 1..] == source[i + 1..]
  {
    forall j | i + 1 <= j < |before| ensures after[j] == source[j] {
      assert before[j] == before[i..][j - i] == source[i..][j - i];
    }
    forall j | 0 <= j < i ensures after[j] == target[j] {
      assert before[j] == before[..i][j] == target[..i][j];
    }
  }

  ghost predicate IsSquareRoot(f: real -> real) {
    forall x :: x >= 0.0 ==> IsRoot(f(x), x)
  }

  /** 1 - k(1-alpha), but not below zero. */
  function Alphabar(k: nat, alpha: real): real {
    Max(0.0, 1.0 - k as real * (1.0 - alpha))
  }

  function Max(x: real, y: real): real {
    if x > y then x else y
  }

  function Min(x: real, y: real): real {
    if x < y then x else y
  }

  /** With alpha at most 0.9, alphabar has vanished after ten mispricings. */
  lemma TenthMispricing(k: nat, alpha: real)
    requires 0.0 <= alpha <= 0.9
    ensures 0.0 <= Alphabar(k, alpha) <= 1.0
    ensures k >= 10 ==> Alphabar(k, alpha) == 0.0
  {
    TimesNonnegative(1.0 - alpha, k as real);
    if k >= 10 { ProductOrder(10.0, k as real, 1.0 - alpha); }
  }

  class Stabilization {
    const hybridascent: bool
    const sqrt: real -> real
    const undefined: real -> real
    const consSide: nat -> Side
    const cutSide: nat -> Side

    var stabcenterconsvals: Vector
    var stabcentercutvals: Vector
    var stabcenterlinkingconsvals: Vector
    var stabcenterconv: Vector
    var subgradientconsvals: Vector
    var subgradientcutvals: Vector
    var subgradientlinkingconsvals: Vector
    var dualdiffnorm: real
    var subgradientnorm: real
    var hybridfactor: real
    var alpha: real
    var alphabar: real
    var beta: real
    var nodenr: int
    var k: nat
    var t: nat
    var hasstabilitycenter: bool
    var stabcenterbound: Bound
    var inmispricingschedule: bool
    var subgradientproduct: real

    ghost predicate Valid()
      reads this
    {
      && IsSquareRoot(sqrt)
      && 0.0 <= alpha <= 0.9 && 0.0 <= alphabar <= 1.0
      && RightSigns(stabcenterconsvals, consSide) && RightSigns(stabcentercutvals, cutSide)
      && (hybridascent ==> |subgradientlinkingconsvals| == |stabcenterlinkingconsvals|)
      && (!hybridascent ==> beta == 0.0)
      && subgradientnorm >= 0.0 && SubgradientSquares() <= Sqr(subgradientnorm)
    }

    /** What a mispricing schedule has reached; outside of a schedule the count is zero. */
    ghost predicate OnSchedule()
      reads this
    {
      if inmispricingschedule then alphabar == Alphabar(k, alpha) else k == 0
    }

    function Center(): Vector
      reads this
    {
      stabcenterconsvals + stabcentercutvals + stabcenterlinkingconsvals
    }

    function Subgradient(): Vector
      reads this
    {
      subgradientconsvals + subgradientcutvals + subgradientlinkingconsvals
    }

    function SubgradientSquares(): real
      reads this
    {
      SumSq(subgradientconsvals) + SumSq(subgradientcutvals) + SumSq(subgradientlinkingconsvals)
    }

    /** The fields that computeDual reads. */
    function Current(): Smooth
      reads this
    {
      Smooth(alpha, alphabar, beta, hybridfactor, dualdiffnorm, subgradientnorm, hasstabilitycenter,
             inmispricingschedule, undefined)
    }

    /** The LP is at least as large as when the arrays were last grown, and its duals have the right signs. */
    ghost predicate Admits(lp: Duals)
      reads this
    {
      && |stabcenterconsvals| <= |lp.conss| && |stabcentercutvals| <= |lp.cuts|
      && |subgradientconsvals| <= |lp.conss| && |subgradientcutvals| <= |lp.cuts|
      && |stabcenterlinkingconsvals| == |lp.linking|
      && RightSigns(lp.conss, consSide) && RightSigns(lp.cuts, cutSide)
    }

    /** The arrays have the size of the LP. */
    ghost predicate Fits(lp: Duals)
      reads this
    {
      && |stabcenterconsvals| == |lp.conss| && |stabcentercutvals| == |lp.cuts|
      && |stabcenterlinkingconsvals| == |lp.linking|
      && (hybridascent ==> |subgradientconsvals| == |lp.conss| && |subgradientcutvals| == |lp.cuts|)
    }

    /** A new object for the given numbers of linking constraints and pricing problems. */
    constructor (hybridascent: bool, sqrt: real -> real, undefined: real -> real, consSide: nat -> Side,
                 cutSide: nat -> Side)
      requires IsSquareRoot(sqrt)
      ensures Valid() && OnSchedule() && !hasstabilitycenter && !inmispricingschedule
      ensures nodenr == -1 && alpha == 0.8 && beta == 0.0
      ensures this.hybridascent == hybridascent && this.consSide == consSide && this.cutSide == cutSide
      ensures stabcenterconsvals == stabcentercutvals == stabcenterlinkingconsvals == stabcenterconv == []
      ensures subgradientconsvals == subgradientcutvals == subgradientlinkingconsvals == []
    {
      this.hybridascent, this.sqrt, this.undefined := hybridascent, sqrt, undefined;
      this.consSide, this.cutSide := consSide, cutSide;
      stabcenterconsvals, stabcentercutvals, stabcenterlinkingconsvals, stabcenterconv := [], [], [], [];
      subgradientconsvals, subgradientcutvals, subgradientlinkingconsvals := [], [], [];
      dualdiffnorm, subgradientnorm, hybridfactor, alpha, alphabar, beta := 0.0, 0.0, 0.0, 0.8, 0.8, 0.0;
      nodenr, k, t, hasstabilitycenter, stabcenterbound := -1, 0, 0, false, MinusInfinity;
      inmispricingschedule, subgradientproduct := false, 0.0;
    }

    method UpdateStabcenterconsvals(nconss: nat)
      requires Valid() && |stabcenterconsvals| <= nconss
      modifies `stabcenterconsvals
      ensures Valid() && stabcenterconsvals == Extended(old(stabcenterconsvals), nconss)
    {
      if nconss == |stabcenterconsvals| { return; }
      ExtendedSigns(stabcenterconsvals, nconss, consSide);
      stabcenterconsvals := stabcenterconsvals + Zeros(nconss - |stabcenterconsvals|);
    }

    method UpdateStabcentercutvals(ncuts: nat)
      requires Valid() && |stabcentercutvals| <= ncuts
      modifies `stabcentercutvals
      ensures Valid() && stabcentercutvals == Extended(old(stabcentercutvals), ncuts)
    {
      if ncuts == |stabcentercutvals| { return; }
      ExtendedSigns(stabcentercutvals, ncuts, cutSide);
      stabcentercutvals := stabcentercutvals + Zeros(ncuts - |stabcentercutvals|);
    }

    method UpdateSubgradientconsvals(nconss: nat)
      requires Valid() && |subgradientconsvals| <= nconss
      modifies `subgradientconsvals
      ensures Valid() && subgradientconsvals == Extended(old(subgradientconsvals), nconss)
    {
      if nconss == |subgradientconsvals| { return; }
      ExtendedSquares(subgradientconsvals, nconss);
      subgradientconsvals := subgradientconsvals + Zeros(nconss - |subgradientconsvals|);
    }

    method UpdateSubgradientcutvals(ncuts: nat)
      requires Valid() && |subgradientcutvals| <= ncuts
      modifies `subgradientcutvals
      ensures Valid() && subgradientcutvals == Extended(old(subgradientcutvals), ncuts)
    {
      if ncuts == |subgradientcutvals| { return; }
      ExtendedSquares(subgradientcutvals, ncuts);
      subgradientcutvals := subgradientcutvals + Zeros(ncuts - |subgradientcutvals|);
    }

    method SetNLinkingconsvals(nlinkingconssnew: nat)
      requires Valid()
      modifies `stabcenterlinkingconsvals, `subgradientlinkingconsvals
      ensures Valid() && stabcenterlinkingconsvals == Zeros(nlinkingconssnew)
      ensures subgradientlinkingconsvals == if hybridascent
        then Zeros(nlinkingconssnew) else old(subgradientlinkingconsvals)
    {
      if hybridascent {
        SumSqZeros(nlinkingconssnew);
        subgradientlinkingconsvals := Zeros(nlinkingconssnew);
      }
      stabcenterlinkingconsvals := Zeros(nlinkingconssnew);
    }

    method SetNConvconsvals(nconvconssnew: nat)
      requires Valid()
      modifies `stabcenterconv
      ensures Valid() && stabcenterconv == Zeros(nconvconssnew)
    {
      stabcenterconv := Zeros(nconvconssnew);
    }

    // ---------- smoothed duals ----------

    /** The smoothed dual of master constraint i; entries that the arrays do not have yet are zero. */
    function ConsDual(i: nat, current: real): real
      reads this
    {
      Current().ComputeDual(At(stabcenterconsvals, i), current, UsedEntry(subgradientconsvals, i), consSide(i))
    }

    function CutDual(i: nat, current: real): real
      reads this
    {
      Current().ComputeDual(At(stabcentercutvals, i), current, UsedEntry(subgradientcutvals, i), cutSide(i))
    }

    /** Smoothing reads the subgradient only for hybrid ascent from a center. */
    function UsedEntry(v: Vector, i: nat): real
      reads this
    {
      if hybridascent && hasstabilitycenter then At(v, i) else 0.0
    }

    method ConsGetDual(i: nat, lp: Duals) returns (dual: real)
      requires Valid() && Admits(lp) && i < |lp.conss|
      modifies `stabcenterconsvals, `subgradientconsvals
      ensures Valid() && Admits(lp)
      ensures stabcenterconsvals == if i < |old(stabcenterconsvals)|
        then old(stabcenterconsvals) else Extended(old(stabcenterconsvals), |lp.conss|)
      ensures subgradientconsvals == if i < |old(subgradientconsvals)| || !hybridascent
        then old(subgradientconsvals) else Extended(old(subgradientconsvals), |lp.conss|)
      ensures dual == old(ConsDual(i, lp.conss[i])) && RightSign(dual, consSide(i))
    {
      if i >= |stabcenterconsvals| { UpdateStabcenterconsvals(|lp.conss|); }
      if i >= |subgradientconsvals| && hybridascent { UpdateSubgradientconsvals(|lp.conss|); }
      var subgradient := 0.0;
      if hybridascent && hasstabilitycenter { subgradient := subgradientconsvals[i]; }
      dual := Current().ComputeDual(stabcenterconsvals[i], lp.conss[i], subgradient, consSide(i));
      ComputedSign(Current(), stabcenterconsvals[i], lp.conss[i], subgradient, consSide(i));
    }

    method RowGetDual(i: nat, lp: Duals) returns (dual: real)
      requires Valid() && Admits(lp) && i < |lp.cuts|
      modifies `stabcentercutvals, `subgradientcutvals
      ensures Valid() && Admits(lp)
      ensures stabcentercutvals == if i < |old(stabcentercutvals)|
        then old(stabcentercutvals) else Extended(old(stabcentercutvals), |lp.cuts|)
      ensures subgradientcutvals == if i < |old(subgradientcutvals)| || !hybridascent
        then old(subgradientcutvals) else Extended(old(subgradientcutvals), |lp.cuts|)
      ensures dual == old(CutDual(i, lp.cuts[i])) && RightSign(dual, cutSide(i))
    {
      if i >= |stabcentercutvals| { UpdateStabcentercutvals(|lp.cuts|); }
      if i >= |subgradientcutvals| && hybridascent { UpdateSubgradientcutvals(|lp.cuts|); }
      var subgradient := 0.0;
      if hybridascent && hasstabilitycenter { subgradient := subgradientcutvals[i]; }
      dual := Current().ComputeDual(stabcentercutvals[i], lp.cuts[i], subgradient, cutSide(i));
      ComputedSign(Current(), stabcentercutvals[i], lp.cuts[i], subgradient, cutSide(i));
    }

    method LinkingconsGetDual(i: nat, lp: Duals) returns (dual: real)
      requires Valid() && Admits(lp) && i < |lp.linking|
      ensures dual == Current().ComputeDual(stabcenterlinkingconsvals[i], lp.linking[i],
        UsedEntry(subgradientlinkingconsvals, i), FINITE)
    {
      var subgradient := 0.0;
      if hybridascent && hasstabilitycenter { subgradient := subgradientlinkingconsvals[i]; }
      dual := Current().ComputeDual(stabcenterlinkingconsvals[i], lp.linking[i], subgradient, FINITE);
    }

    /** A convexity constraint has no subgradient, and both its sides are the number of identical blocks. */
    method ConvGetDual(i: nat, current: real) returns (dual: real)
      requires Valid() && i < |stabcenterconv|
      ensures dual == Current().ComputeDual(stabcenterconv[i], current, 0.0, FINITE)
    {
      dual := Current().ComputeDual(stabcenterconv[i], current, 0.0, FINITE);
    }

    /** Asking for one dual changes none of them. */
    method NextConsDual(i: nat, lp: Duals) returns (dual: real)
      requires Valid() && Admits(lp) && i < |lp.conss|
      modifies `stabcenterconsvals, `subgradientconsvals
      ensures Valid() && Admits(lp) && ConsDuals(lp) == old(ConsDuals(lp)) && dual == ConsDuals(lp)[i]
      ensures stabcenterconsvals == old(stabcenterconsvals) ||
              stabcenterconsvals == Extended(old(stabcenterconsvals), |lp.conss|)
      ensures SumSq(subgradientconsvals) == old(SumSq(subgradientconsvals))
    {
      ghost var center, subgradient := stabcenterconsvals, subgradientconsvals;
      ExtendedSquares(subgradientconsvals, |lp.conss|);
      dual := ConsGetDual(i, lp);
      ExtendedTwice(center, |lp.conss|);
      ExtendedTwice(subgradient, |lp.conss|);
    }

    method NextCutDual(i: nat, lp: Duals) returns (dual: real)
      requires Valid() && Admits(lp) && i < |lp.cuts|
      modifies `stabcentercutvals, `subgradientcutvals
      ensures Valid() && Admits(lp) && CutDuals(lp) == old(CutDuals(lp)) && dual == CutDuals(lp)[i]
      ensures stabcentercutvals == old(stabcentercutvals) ||
              stabcentercutvals == Extended(old(stabcentercutvals), |lp.cuts|)
      ensures SumSq(subgradientcutvals) == old(SumSq(subgradientcutvals))
    {
      ghost var center, subgradient := stabcentercutvals, subgradientcutvals;
      ExtendedSquares(subgradientcutvals, |lp.cuts|);
      dual := RowGetDual(i, lp);
      ExtendedTwice(center, |lp.cuts|);
      ExtendedTwice(subgradient, |lp.cuts|);
    }

    /** The duals of all master constraints, as the pricing problems receive them. */
    method HandOutConss(lp: Duals) returns (duals: Vector)
      requires Valid() && Admits(lp)
      modifies `stabcenterconsvals, `subgradientconsvals
      ensures Valid() && Admits(lp) && ConsDuals(lp) == old(ConsDuals(lp)) && duals == ConsDuals(lp)
      ensures stabcenterconsvals == old(stabcenterconsvals) ||
              stabcenterconsvals == Extended(old(stabcenterconsvals), |lp.conss|)
      ensures SumSq(subgradientconsvals) == old(SumSq(subgradientconsvals))
    {
      duals := [];
      ghost var all := ConsDuals(lp);
      for i := 0 to |lp.conss|
        invariant Valid() && Admits(lp) && ConsDuals(lp) == all && duals == all[..i]
        invariant stabcenterconsvals == old(stabcenterconsvals) ||
          stabcenterconsvals == Extended(old(stabcenterconsvals), |lp.conss|)
        invariant SumSq(subgradientconsvals) == old(SumSq(subgradientconsvals))
      {
        var dual := NextConsDual(i, lp);
        duals := duals + [dual];
      }
    }

    method HandOutCuts(lp: Duals) returns (duals: Vector)
      requires Valid() && Admits(lp)
      modifies `stabcentercutvals, `subgradientcutvals
      ensures Valid() && Admits(lp) && CutDuals(lp) == old(CutDuals(lp)) && duals == CutDuals(lp)
      ensures stabcentercutvals == old(stabcentercutvals) ||
              stabcentercutvals == Extended(old(stabcentercutvals), |lp.cuts|)
      ensures SumSq(subgradientcutvals) == old(SumSq(subgradientcutvals))
    {
      duals := [];
      ghost var all := CutDuals(lp);
      for i := 0 to |lp.cuts|
        invariant Valid() && Admits(lp) && CutDuals(lp) == all && duals == all[..i]
        invariant stabcentercutvals == old(stabcentercutvals) ||
          stabcentercutvals == Extended(old(stabcentercutvals), |lp.cuts|)
        invariant SumSq(subgradientcutvals) == old(SumSq(subgradientcutvals))
      {
        var dual := NextCutDual(i, lp);
        duals := duals + [dual];
      }
    }

    method HandOutLinking(lp: Duals) returns (duals: Vector)
      requires Valid() && Admits(lp) && |subgradientlinkingconsvals| <= |lp.linking|
      ensures duals == LinkingDuals(lp)
    {
      duals := [];
      ghost var all := LinkingDuals(lp);
      for i := 0 to |lp.linking|
        invariant duals == all[..i]
      {
        var dual := LinkingconsGetDual(i, lp);
        duals := duals + [dual];
      }
    }

    /** The duals handed out to all constraints and cuts have the right signs. */
    lemma HandedOutSigns(lp: Duals)
      requires Valid() && Admits(lp)
      ensures RightSigns(ConsDuals(lp), consSide) && RightSigns(CutDuals(lp), cutSide)
    {
      ExtendedSigns(stabcenterconsvals, |lp.conss|, consSide);
      ExtendedSigns(stabcentercutvals, |lp.cuts|, cutSide);
      DualVectorSigns(Current(), Extended(stabcenterconsvals, |lp.conss|), lp.conss,
                      Used(subgradientconsvals, |lp.conss|), consSide);
      DualVectorSigns(Current(), Extended(stabcentercutvals, |lp.cuts|), lp.cuts,
                      Used(subgradientcutvals, |lp.cuts|), cutSide);
    }

    // ---------- the stability center ----------

    function Used(v: Vector, n: nat): (w: Vector)
      requires |v| <= n
      reads this
      ensures |w| == n
    {
      if hybridascent && hasstabilitycenter then Extended(v, n) else Zeros(n)
    }

    /** All smoothed duals of the master constraints. */
    function ConsDuals(lp: Duals): (v: Vector)
      requires |stabcenterconsvals| <= |lp.conss| && |subgradientconsvals| <= |lp.conss|
      reads this
      ensures |v| == |lp.conss|
    {
      DualVector(Current(), Extended(stabcenterconsvals, |lp.conss|), lp.conss, Used(subgradientconsvals, |lp.conss|),
        Sides(consSide, |lp.conss|))
    }

    function CutDuals(lp: Duals): (v: Vector)
      requires |stabcentercutvals| <= |lp.cuts| && |subgradientcutvals| <= |lp.cuts|
      reads this
      ensures |v| == |lp.cuts|
    {
      DualVector(Current(), Extended(stabcentercutvals, |lp.cuts|), lp.cuts, Used(subgradientcutvals, |lp.cuts|),
        Sides(cutSide, |lp.cuts|))
    }

    function LinkingDuals(lp: Duals): (v: Vector)
      requires |stabcenterlinkingconsvals| == |lp.linking| && |subgradientlinkingconsvals| <= |lp.linking|
      reads this
      ensures |v| == |lp.linking|
    {
      DualVector(Current(), stabcenterlinkingconsvals, lp.linking, Used(subgradientlinkingconsvals, |lp.linking|),
        Sides((i: nat) => FINITE, |lp.linking|))
    }

    method RefreshConsCenter(lp: Duals)
      requires Valid() && Admits(lp) && Fits(lp)
      modifies `stabcenterconsvals, `subgradientconsvals
      ensures Valid() && Admits(lp) && Fits(lp)
      ensures stabcenterconsvals == old(ConsDuals(lp)) && subgradientconsvals == old(subgradientconsvals)
    {
      for i := 0 to |lp.conss|
        invariant Valid() && Admits(lp) && Fits(lp)
        invariant subgradientconsvals == old(subgradientconsvals)
        invariant stabcenterconsvals[..i] == old(ConsDuals(lp))[..i]
        invariant stabcenterconsvals[i..] == old(stabcenterconsvals)[i..]
      {
        ghost var before := stabcenterconsvals;
        assert before[i] == before[i..][0] == old(stabcenterconsvals)[i..][0] == old(stabcenterconsvals)[i];
        var dual := ConsGetDual(i, lp);
        assert dual == old(ConsDuals(lp))[i];
        stabcenterconsvals := stabcenterconsvals[i := dual];
        PrefixGrows(before, stabcenterconsvals, old(ConsDuals(lp)), old(stabcenterconsvals), i);
      }
    }

    method RefreshCutCenter(lp: Duals)
      requires Valid() && Admits(lp) && Fits(lp)
      modifies `stabcentercutvals, `subgradientcutvals
      ensures Valid() && Admits(lp) && Fits(lp)
      ensures stabcentercutvals == old(CutDuals(lp)) && subgradientcutvals == old(subgradientcutvals)
    {
      for i := 0 to |lp.cuts|
        invariant Valid() && Admits(lp) && Fits(lp)
        invariant subgradientcutvals == old(subgradientcutvals)
        invariant stabcentercutvals[..i] == old(CutDuals(lp))[..i]
        invariant stabcentercutvals[i..] == old(stabcentercutvals)[i..]
      {
        ghost var before := stabcentercutvals;
        assert before[i] == before[i..][0] == old(stabcentercutvals)[i..][0] == old(stabcentercutvals)[i];
        var dual := RowGetDual(i, lp);
        assert dual == old(CutDuals(lp))[i];
        stabcentercutvals := stabcentercutvals[i := dual];
        PrefixGrows(before, stabcentercutvals, old(CutDuals(lp)), old(stabcentercutvals), i);
      }
    }

    method RefreshLinkingCenter(lp: Duals)
      requires Valid() && Admits(lp) && Fits(lp) && |subgradientlinkingconsvals| <= |lp.linking|
      modifies `stabcenterlinkingconsvals
      ensures Valid() && Admits(lp) && Fits(lp)
      ensures stabcenterlinkingconsvals == old(LinkingDuals(lp))
    {
      for i := 0 to |lp.linking|
        invariant Valid() && Admits(lp) && Fits(lp)
        invariant stabcenterlinkingconsvals[..i] == old(LinkingDuals(lp))[..i]
        invariant stabcenterlinkingconsvals[i..] == old(stabcenterlinkingconsvals)[i..]
      {
        ghost var before := stabcenterlinkingconsvals;
        ghost var source := old(stabcenterlinkingconsvals);
        assert before[i] == before[i..][0] == source[i..][0] == source[i];
        var dual := LinkingconsGetDual(i, lp);
        assert dual == old(LinkingDuals(lp))[i];
        stabcenterlinkingconsvals := stabcenterlinkingconsvals[i := dual];
        PrefixGrows(before, stabcenterlinkingconsvals, old(LinkingDuals(lp)), old(stabcenterlinkingconsvals), i);
      }
    }

    // ---------- the subgradient at the center ----------

    method SubgradientOfConss(rs: seq<Row>)
      requires |rs| == |stabcenterconsvals| == |subgradientconsvals|
      modifies `subgradientconsvals, `subgradientnorm
      ensures subgradientconsvals == Infeasibilities(stabcenterconsvals, rs)
      ensures subgradientnorm == old(subgradientnorm) + SumSq(subgradientconsvals)
    {
      ghost var target := Infeasibilities(stabcenterconsvals, rs);
      for i := 0 to |rs|
        invariant |subgradientconsvals| == |rs| && subgradientconsvals[..i] == target[..i]
        invariant subgradientnorm == old(subgradientnorm) + SumSq(target[..i])
      {
        var infeasibility := Infeasibility(stabcenterconsvals[i], rs[i]);
        subgradientconsvals := subgradientconsvals[i := infeasibility];
        subgradientnorm := subgradientnorm + Sqr(infeasibility);
        assert target[..i + 1][..i] == target[..i];
      }
      assert target[..|rs|] == target;
    }

    method SubgradientOfCuts(rs: seq<Row>)
      requires |rs| == |stabcentercutvals| == |subgradientcutvals|
      modifies `subgradientcutvals, `subgradientnorm
      ensures subgradientcutvals == Infeasibilities(stabcentercutvals, rs)
      ensures subgradientnorm == old(subgradientnorm) + SumSq(subgradientcutvals)
    {
      ghost var target := Infeasibilities(stabcentercutvals, rs);
      for i := 0 to |rs|
        invariant |subgradientcutvals| == |rs| && subgradientcutvals[..i] == target[..i]
        invariant subgradientnorm == old(subgradientnorm) + SumSq(target[..i])
      {
        var infeasibility := Infeasibility(stabcentercutvals[i], rs[i]);
        subgradientcutvals := subgradientcutvals[i := infeasibility];
        subgradientnorm := subgradientnorm + Sqr(infeasibility);
        assert target[..i + 1][..i] == target[..i];
      }
      assert target[..|rs|] == target;
    }

    /** A linking constraint is an equation; its infeasibility is its activity. */
    method SubgradientOfLinking(activity: Vector)
      requires |activity| == |subgradientlinkingconsvals|
      modifies `subgradientlinkingconsvals, `subgradientnorm
      ensures subgradientlinkingconsvals == activity
      ensures subgradientnorm == old(subgradientnorm) + SumSq(activity)
    {
      for i := 0 to |activity|
        invariant |subgradientlinkingconsvals| == |activity| && subgradientlinkingconsvals[..i] == activity[..i]
        invariant subgradientnorm == old(subgradientnorm) + SumSq(activity[..i])
      {
        subgradientlinkingconsvals := subgradientlinkingconsvals[i := activity[i]];
        subgradientnorm := subgradientnorm + Sqr(activity[i]);
        assert activity[..i + 1][..i] == activity[..i];
      }
      assert activity[..|activity|] == activity;
    }

    ghost predicate Covers(act: Activity)
      reads this
    {
      && |act.conss| == |stabcenterconsvals| == |subgradientconsvals|
      && |act.cuts| == |stabcentercutvals| == |subgradientcutvals|
      && |act.linking| == |stabcenterlinkingconsvals| == |subgradientlinkingconsvals|
    }

    /** The norm belongs to the stored subgradient. */
    ghost predicate ExactNorm()
      reads this
    {
      IsRoot(subgradientnorm, SubgradientSquares())
    }

    /** The rows of the activity are those of the LP. */
    ghost predicate Knows(act: Activity) {
      RowsFit(act.conss, consSide) && RowsFit(act.cuts, cutSide)
    }

    method CalculateSubgradient(act: Activity)
      requires Valid() && Covers(act)
      modifies `subgradientconsvals, `subgradientcutvals, `subgradientlinkingconsvals, `subgradientnorm
      ensures Valid() && Covers(act) && ExactNorm()
      ensures Knows(act) ==>
        && Measures(subgradientconsvals, stabcenterconsvals, act.conss)
        && Measures(subgradientcutvals, stabcentercutvals, act.cuts)
      ensures subgradientconsvals == Infeasibilities(stabcenterconsvals, act.conss)
      ensures subgradientcutvals == Infeasibilities(stabcentercutvals, act.cuts)
      ensures subgradientlinkingconsvals == act.linking
    {
      if Knows(act) {
        InfeasibilitiesMeasure(stabcenterconsvals, act.conss, consSide);
        InfeasibilitiesMeasure(stabcentercutvals, act.cuts, cutSide);
      }
      SumUpSubgradient(act);
      TakeRoot();
    }

    method SumUpSubgradient(act: Activity)
      requires Covers(act)
      modifies `subgradientconsvals, `subgradientcutvals, `subgradientlinkingconsvals, `subgradientnorm
      ensures Covers(act) && subgradientnorm == SubgradientSquares()
      ensures subgradientconsvals == Infeasibilities(stabcenterconsvals, act.conss)
      ensures subgradientcutvals == Infeasibilities(stabcentercutvals, act.cuts)
      ensures subgradientlinkingconsvals == act.linking
    {
      subgradientnorm := 0.0;
      SubgradientOfConss(act.conss);
      SubgradientOfCuts(act.cuts);
      SubgradientOfLinking(act.linking);
    }

    method TakeRoot()
      requires IsSquareRoot(sqrt) && subgradientnorm == SubgradientSquares()
      modifies `subgradientnorm
      ensures ExactNorm()
    {
      subgradientnorm := sqrt(subgradientnorm);
    }

    /** The bound does not improve on the bound of the center that is already there. */
    predicate Refuses(lowerbound: real)
      reads this
    {
      stabcenterbound.AtLeast(lowerbound) && hasstabilitycenter
    }

    method UpdateConvCenter(dualsolconv: Vector, relevant: seq<bool>)
      requires Valid() && |dualsolconv| == |relevant| == |stabcenterconv|
      modifies `stabcenterconv
      ensures Valid() && |stabcenterconv| == |relevant|
      ensures forall i :: 0 <= i < |relevant| ==>
        stabcenterconv[i] == if relevant[i] then dualsolconv[i] else old(stabcenterconv)[i]
    {
      for i := 0 to |relevant|
        invariant Valid() && |stabcenterconv| == |relevant|
        invariant forall j :: 0 <= j < i ==>
          stabcenterconv[j] == if relevant[j] then dualsolconv[j] else old(stabcenterconv)[j]
        invariant forall j :: i <= j < |relevant| ==> stabcenterconv[j] == old(stabcenterconv)[j]
      {
        if !relevant[i] { continue; }
        stabcenterconv := stabcenterconv[i := dualsolconv[i]];
      }
    }

    method GrowArrays(lp: Duals)
      requires Valid() && Admits(lp)
      modifies `stabcenterconsvals, `stabcentercutvals, `subgradientconsvals, `subgradientcutvals
      ensures Valid() && Admits(lp) && Fits(lp)
      ensures stabcenterconsvals == Extended(old(stabcenterconsvals), |lp.conss|)
      ensures stabcentercutvals == Extended(old(stabcentercutvals), |lp.cuts|)
      ensures subgradientconsvals == if hybridascent
        then Extended(old(subgradientconsvals), |lp.conss|) else old(subgradientconsvals)
      ensures subgradientcutvals == if hybridascent
        then Extended(old(subgradientcutvals), |lp.cuts|) else old(subgradientcutvals)
      ensures SubgradientSquares() == old(SubgradientSquares())
    {
      UpdateStabcenterconsvals(|lp.conss|);
      UpdateStabcentercutvals(|lp.cuts|);
      if hybridascent {
        ExtendedSquares(subgradientconsvals, |lp.conss|);
        ExtendedSquares(subgradientcutvals, |lp.cuts|);
        UpdateSubgradientconsvals(|lp.conss|);
        UpdateSubgradientcutvals(|lp.cuts|);
      }
    }

    /** All three parts of the center move to the smoothed duals. */
    method RefreshCenter(lp: Duals)
      requires Valid() && Admits(lp) && |subgradientlinkingconsvals| <= |lp.linking|
      modifies `stabcenterconsvals, `stabcentercutvals, `stabcenterlinkingconsvals, `subgradientconsvals,
               `subgradientcutvals
      ensures Valid() && Admits(lp) && Fits(lp)
      ensures stabcenterconsvals == old(ConsDuals(lp)) && stabcentercutvals == old(CutDuals(lp))
      ensures stabcenterlinkingconsvals == old(LinkingDuals(lp))
    {
      GrowArrays(lp);
      assert ConsDuals(lp) == old(ConsDuals(lp)) && CutDuals(lp) == old(CutDuals(lp));
      RefreshConsCenter(lp);
      RefreshCutCenter(lp);
      RefreshLinkingCenter(lp);
    }

    /** The center and the subgradient that belong to a successful update. */
    twostate predicate CenterMoved(lowerbound: real, dualsolconv: Vector, relevant: seq<bool>, lp: Duals, act: Activity)
      requires old(|stabcenterconsvals| <= |lp.conss| && |subgradientconsvals| <= |lp.conss|)
      requires old(|stabcentercutvals| <= |lp.cuts| && |subgradientcutvals| <= |lp.cuts|)
      requires old(|stabcenterlinkingconsvals| == |lp.linking| && |subgradientlinkingconsvals| <= |lp.linking|)
      requires |act.conss| == |lp.conss| && |act.cuts| == |lp.cuts|
      reads this
    {
      && stabcenterbound == Finite(lowerbound)
      && stabcenterconsvals == old(ConsDuals(lp)) && stabcentercutvals == old(CutDuals(lp))
      && stabcenterlinkingconsvals == old(LinkingDuals(lp))
      && |dualsolconv| == |relevant| == |stabcenterconv| == |old(stabcenterconv)|
      && (forall i :: 0 <= i < |relevant| ==>
            stabcenterconv[i] == if relevant[i] then dualsolconv[i] else old(stabcenterconv)[i])
      && (hybridascent ==>
            && ExactNorm() && subgradientconsvals == Infeasibilities(stabcenterconsvals, act.conss)
            && subgradientcutvals == Infeasibilities(stabcentercutvals, act.cuts)
            && subgradientlinkingconsvals == act.linking)
      && (hybridascent && Knows(act) ==>
            && Measures(subgradientconsvals, stabcenterconsvals, act.conss)
            && Measures(subgradientcutvals, stabcentercutvals, act.cuts))
    }

    method MoveCenter(lowerbound: real, dualsolconv: Vector, relevant: seq<bool>, lp: Duals, act: Activity)
      requires Valid() && Admits(lp) && |subgradientlinkingconsvals| <= |lp.linking|
      requires |dualsolconv| == |relevant| == |stabcenterconv|
      requires |act.conss| == |lp.conss| && |act.cuts| == |lp.cuts| && |act.linking| == |lp.linking|
      modifies `stabcenterconsvals, `stabcentercutvals, `stabcenterlinkingconsvals, `stabcenterconv,
               `subgradientconsvals, `subgradientcutvals, `subgradientlinkingconsvals, `subgradientnorm,
               `hasstabilitycenter, `stabcenterbound
      ensures Valid() && Admits(lp) && hasstabilitycenter && |subgradientlinkingconsvals| <= |lp.linking|
      ensures CenterMoved(lowerbound, dualsolconv, relevant, lp, act)
      ensures !hybridascent ==> subgradientlinkingconsvals == old(subgradientlinkingconsvals)
    {
      RefreshCenter(lp);
      UpdateConvCenter(dualsolconv, relevant);
      if hybridascent { CalculateSubgradient(act); }
      hasstabilitycenter := true;
      stabcenterbound := Finite(lowerbound);
    }

    /** The smoothed duals become the center, if the bound that they prove is better than the one of the center. */
    method UpdateStabilityCenter(lowerbound: real, dualsolconv: Vector, relevant: seq<bool>, lp: Duals, act: Activity)
      requires Valid() && Admits(lp) && |subgradientlinkingconsvals| <= |lp.linking|
      requires |dualsolconv| == |relevant| == |stabcenterconv|
      requires |act.conss| == |lp.conss| && |act.cuts| == |lp.cuts| && |act.linking| == |lp.linking|
      modifies `stabcenterconsvals, `stabcentercutvals, `stabcenterlinkingconsvals, `stabcenterconv,
               `subgradientconsvals, `subgradientcutvals, `subgradientlinkingconsvals, `subgradientnorm,
               `hasstabilitycenter, `stabcenterbound
      ensures Valid() && Admits(lp) && hasstabilitycenter
      ensures |subgradientlinkingconsvals| <= |lp.linking| && |stabcenterconv| == |relevant|
      ensures !hybridascent ==> subgradientlinkingconsvals == old(subgradientlinkingconsvals)
      ensures if old(Refuses(lowerbound)) then unchanged(this)
        else CenterMoved(lowerbound, dualsolconv, relevant, lp, act)
      ensures old(ExactNorm()) && hybridascent ==> ExactNorm()
    {
      if stabcenterbound.AtLeast(lowerbound) && hasstabilitycenter { return; }
      MoveCenter(lowerbound, dualsolconv, relevant, lp, act);
    }

    // ---------- hybrid smoothing ----------

    /** The arrays, those of the subgradient included, have the size of the LP. */
    ghost predicate HybridFits(lp: Duals)
      reads this
    {
      && |stabcenterconsvals| == |lp.conss| == |subgradientconsvals|
      && |stabcentercutvals| == |lp.cuts| == |subgradientcutvals|
      && |stabcenterlinkingconsvals| == |lp.linking| == |subgradientlinkingconsvals|
    }

    method CalculateDualdiffnorm(lp: Duals)
      requires Valid() && HybridFits(lp)
      modifies `dualdiffnorm
      ensures Valid() && IsRoot(dualdiffnorm, SumSq(Difference(Center(), lp.All())))
    {
      dualdiffnorm := AddDistances(0.0, stabcenterconsvals, lp.conss);
      dualdiffnorm := AddDistances(dualdiffnorm, stabcentercutvals, lp.cuts);
      dualdiffnorm := AddDistances(dualdiffnorm, stabcenterlinkingconsvals, lp.linking);
      DistanceOfParts(stabcenterconsvals, stabcentercutvals, stabcenterlinkingconsvals, lp.conss, lp.cuts, lp.linking);
      dualdiffnorm := sqrt(dualdiffnorm);
    }

    method SumOfProducts(lp: Duals) returns (sum: real)
      requires HybridFits(lp)
      ensures sum == SumProducts(Difference(lp.All(), Center()), Subgradient())
    {
      sum := AddProducts(0.0, stabcenterconsvals, lp.conss, subgradientconsvals);
      sum := AddProducts(sum, stabcentercutvals, lp.cuts, subgradientcutvals);
      sum := AddProducts(sum, stabcenterlinkingconsvals, lp.linking, subgradientlinkingconsvals);
      ProductsOfParts(lp.conss, lp.cuts, lp.linking, stabcenterconsvals, stabcentercutvals, stabcenterlinkingconsvals,
                      subgradientconsvals, subgradientcutvals, subgradientlinkingconsvals);
    }

    method CalculateBeta(lp: Duals)
      requires Valid() && HybridFits(lp) && hybridascent
      modifies `beta
      ensures Valid() && beta == BetaOf(Current(), Center(), lp.All(), Subgradient())
    {
      var product := SumOfProducts(lp);
      beta := NormalisedOf(dualdiffnorm, subgradientnorm, undefined, product);
    }

    method SumOfDirections(lp: Duals) returns (sum: real)
      requires HybridFits(lp)
      ensures sum == SumSq(Direction(Current(), Center(), lp.All(), Subgradient()))
    {
      sum := AddDirections(0.0, Current(), stabcenterconsvals, lp.conss, subgradientconsvals);
      sum := AddDirections(sum, Current(), stabcentercutvals, lp.cuts, subgradientcutvals);
      sum := AddDirections(sum, Current(), stabcenterlinkingconsvals, lp.linking, subgradientlinkingconsvals);
      DirectionOfParts(Current(), stabcenterconsvals, stabcentercutvals, stabcenterlinkingconsvals,
                       lp.conss, lp.cuts, lp.linking,
                       subgradientconsvals, subgradientcutvals, subgradientlinkingconsvals);
    }

    method CalculateHybridFactor(lp: Duals) returns (divisornorm: real)
      requires Valid() && HybridFits(lp)
      modifies `hybridfactor
      ensures Valid() && IsRoot(divisornorm, SumSq(Direction(Current(), Center(), lp.All(), Subgradient())))
      ensures hybridfactor == FactorOf(alpha, dualdiffnorm, undefined, divisornorm)
    {
      ghost var s := Current();
      divisornorm := SumOfDirections(lp);
      divisornorm := sqrt(divisornorm);
      hybridfactor := FactorOf(alpha, dualdiffnorm, undefined, divisornorm);
      assert Current() == s.(hybridfactor := hybridfactor);
      DirectionIgnoresFactor(s, hybridfactor, Center(), lp.All(), Subgradient());
    }

    /** What updateHybrid works out before every round in which hybrid smoothing may be used. */
    ghost predicate Ready(lp: Duals, divisornorm: real)
      reads this
    {
      HybridReady(Current(), Center(), lp.All(), Subgradient(), divisornorm)
    }

    lemma SubgradientSquaresSum()
      ensures SumSq(Subgradient()) == SubgradientSquares()
    {
      SumSqAppend(subgradientconsvals + subgradientcutvals, subgradientlinkingconsvals);
      SumSqAppend(subgradientconsvals, subgradientcutvals);
    }

    method CalculateHybrid(lp: Duals) returns (divisornorm: real)
      requires Valid() && HybridFits(lp) && hybridascent
      modifies `dualdiffnorm, `beta, `hybridfactor
      ensures Valid() && Ready(lp, divisornorm)
    {
      CalculateDualdiffnorm(lp);
      CalculateBeta(lp);
      ghost var s := Current();
      divisornorm := CalculateHybridFactor(lp);
      assert Current() == s.(hybridfactor := hybridfactor);
      BetaIgnoresFactor(s, hybridfactor, Center(), lp.All(), Subgradient());
      MakesReady(lp, divisornorm);
    }

    /** The results of the three calculations belong together. */
    lemma MakesReady(lp: Duals, divisornorm: real)
      requires Valid() && HybridFits(lp)
      requires IsRoot(dualdiffnorm, SumSq(Difference(Center(), lp.All())))
      requires beta == BetaOf(Current(), Center(), lp.All(), Subgradient())
      requires IsRoot(divisornorm, SumSq(Direction(Current(), Center(), lp.All(), Subgradient())))
      requires hybridfactor == FactorOf(alpha, dualdiffnorm, undefined, divisornorm)
      ensures Ready(lp, divisornorm)
    {
      SubgradientSquaresSum();
    }

    /** The hybrid factor is worked out, and the step it leads to is not longer than that of pure smoothing. */
    method UpdateHybrid(lp: Duals) returns (divisornorm: real)
      requires Valid() && Admits(lp) && |subgradientlinkingconsvals| <= |lp.linking|
      modifies `stabcenterconsvals, `stabcentercutvals, `subgradientconsvals, `subgradientcutvals,
               `dualdiffnorm, `beta, `hybridfactor
      ensures Valid() && Admits(lp) && (old(ExactNorm()) ==> ExactNorm())
      ensures if hasstabilitycenter && hybridascent && !inmispricingschedule
        then Fits(lp) && (alpha > 0.0 ==> Ready(lp, divisornorm)) else unchanged(this)
      ensures hasstabilitycenter && hybridascent && !inmispricingschedule ==>
        && stabcenterconsvals == Extended(old(stabcenterconsvals), |lp.conss|)
        && stabcentercutvals == Extended(old(stabcentercutvals), |lp.cuts|)
        && subgradientconsvals == Extended(old(subgradientconsvals), |lp.conss|)
        && subgradientcutvals == Extended(old(subgradientcutvals), |lp.cuts|)
    {
      divisornorm := 0.0;
      if hasstabilitycenter && hybridascent && !inmispricingschedule {
        GrowArrays(lp);
        if alpha > 0.0 { divisornorm := CalculateHybrid(lp); }
      }
    }

    /** The smoothed duals of all rows. */
    function AllDuals(lp: Duals): (v: Vector)
      requires HybridFits(lp)
      reads this
      ensures |v| == |lp.All()|
    {
      ConsDuals(lp) + CutDuals(lp) + LinkingDuals(lp)
    }

    ghost function AllSides(lp: Duals): (s: seq<Side>)
      reads this
      ensures |s| == |lp.All()|
    {
      Sides(consSide, |lp.conss|) + Sides(cutSide, |lp.cuts|) + Sides((i: nat) => FINITE, |lp.linking|)
    }

    lemma AllDualsVector(lp: Duals)
      requires HybridFits(lp) && hybridascent && hasstabilitycenter
      ensures |Center()| == |Subgradient()| == |lp.All()|
      ensures AllDuals(lp) == DualVector(Current(), Center(), lp.All(), Subgradient(), AllSides(lp))
    {
      var s := Current();
      var conss, cuts := Sides(consSide, |lp.conss|), Sides(cutSide, |lp.cuts|);
      DualVectorAppend(s, stabcenterconsvals, stabcentercutvals, lp.conss, lp.cuts,
                       subgradientconsvals, subgradientcutvals, conss, cuts);
      DualVectorAppend(s, stabcenterconsvals + stabcentercutvals, stabcenterlinkingconsvals,
                       lp.conss + lp.cuts, lp.linking,
                       subgradientconsvals + subgradientcutvals, subgradientlinkingconsvals,
                       conss + cuts, Sides((i: nat) => FINITE, |lp.linking|));
    }

    lemma CenterSigns(lp: Duals)
      requires Valid() && HybridFits(lp)
      ensures forall i :: 0 <= i < |Center()| ==> RightSign(Center()[i], AllSides(lp)[i])
    {
    }

    lemma DivisorPositiveOrNoBeta(lp: Duals, divisornorm: real)
      requires Valid() && HybridFits(lp) && Ready(lp, divisornorm) && ExactNorm() && dualdiffnorm > 0.0
      ensures beta == 0.0 || divisornorm > 0.0
    {
      SubgradientSquaresSum();
      if subgradientnorm > 0.0 {
        DivisorPositive(Current(), Center(), lp.All(), Subgradient(), divisornorm);
      } else {
        ZeroNormMakesBetaZero(Current(), Center(), lp.All(), Subgradient());
      }
    }

    /**
     * After updateHybrid the smoothed duals lie at most (1-alpha) times the distance of the LP duals away from the
     * center, as in pure smoothing.
     */
    lemma HybridRound(lp: Duals, divisornorm: real)
      requires Valid() && HybridFits(lp) && Ready(lp, divisornorm) && ExactNorm() && dualdiffnorm > 0.0
      requires hybridascent && hasstabilitycenter && !inmispricingschedule
      ensures |AllDuals(lp)| == |Center()|
      ensures SumSq(Difference(AllDuals(lp), Center())) <= StepSquare(alpha, dualdiffnorm)
    {
      DivisorPositiveOrNoBeta(lp, divisornorm);
      AllDualsVector(lp);
      CenterSigns(lp);
      StabilizedStep(Current(), Center(), lp.All(), Subgradient(), AllSides(lp), divisornorm);
    }

    // ---------- the parameters ----------

    /** A new node starts over. Neither beta nor alphabar is reset. */
    method UpdateNode(node: int)
      requires Valid()
      modifies `nodenr, `k, `t, `alpha, `hasstabilitycenter, `stabcenterbound, `inmispricingschedule
      ensures Valid() && nodenr == node && (old(OnSchedule()) ==> OnSchedule())
      ensures old(nodenr) == node ==> unchanged(this)
      ensures old(nodenr) != node ==>
        && k == 0 && t == 1 && alpha == 0.8 && !hasstabilitycenter
        && stabcenterbound.MinusInfinity? && !inmispricingschedule
    {
      if nodenr != node {
        nodenr, k, t, alpha := node, 0, 1, 0.8;
        hasstabilitycenter, stabcenterbound, inmispricingschedule := false, MinusInfinity, false;
      }
    }

    /** How the LP duals and the subgradient at the smoothed duals point, seen from the center. */
    function SubgradientProduct(lp: Duals, act: Activity): real
      requires HasSize(lp, act)
      requires |stabcenterconsvals| <= |lp.conss| && |subgradientconsvals| <= |lp.conss|
      requires |stabcentercutvals| <= |lp.cuts| && |subgradientcutvals| <= |lp.cuts|
      requires |stabcenterlinkingconsvals| == |lp.linking| && |subgradientlinkingconsvals| <= |lp.linking|
      reads this
    {
      Dot(Difference(lp.conss, Extended(stabcenterconsvals, |lp.conss|)), Infeasibilities(ConsDuals(lp), act.conss)) +
      Dot(Difference(lp.cuts, Extended(stabcentercutvals, |lp.cuts|)), Infeasibilities(CutDuals(lp), act.cuts)) -
      LinkingShare(lp, act)
    }

    function LinkingShare(lp: Duals, act: Activity): real
      requires |stabcenterlinkingconsvals| == |lp.linking| == |act.linking|
      requires |subgradientlinkingconsvals| <= |lp.linking|
      reads this
    {
      Dot(Difference(lp.linking, stabcenterlinkingconsvals), Masked(LinkingDuals(lp), act.linking))
    }

    method GrowCenters(lp: Duals)
      requires Valid() && Admits(lp)
      modifies `stabcenterconsvals, `stabcentercutvals
      ensures Valid() && Admits(lp) && ConsDuals(lp) == old(ConsDuals(lp)) && CutDuals(lp) == old(CutDuals(lp))
      ensures stabcenterconsvals == Extended(old(stabcenterconsvals), |lp.conss|)
      ensures stabcentercutvals == Extended(old(stabcentercutvals), |lp.cuts|)
    {
      UpdateStabcenterconsvals(|lp.conss|);
      UpdateStabcentercutvals(|lp.cuts|);
    }

    /** The shares of the three groups of rows, once the duals have been handed out. */
    method MeasureProduct(lp: Duals, act: Activity, ghost c: Vector, ghost d: Vector) returns (product: real)
      requires Valid() && Admits(lp) && |subgradientlinkingconsvals| <= |lp.linking| && HasSize(lp, act)
      requires |stabcenterconsvals| == |lp.conss| == |c| && |stabcentercutvals| == |lp.cuts| == |d|
      requires c == ConsDuals(lp) && d == CutDuals(lp)
      modifies `stabcenterconsvals, `stabcentercutvals, `subgradientconsvals, `subgradientcutvals
      ensures Valid() && Admits(lp) && SubgradientSquares() == old(SubgradientSquares())
      ensures stabcenterconsvals == old(stabcenterconsvals) && stabcentercutvals == old(stabcentercutvals)
      ensures product == Dot(Difference(lp.conss, stabcenterconsvals), Infeasibilities(c, act.conss)) +
                         Dot(Difference(lp.cuts, stabcentercutvals), Infeasibilities(d, act.cuts)) -
                         old(LinkingShare(lp, act))
    {
      var linkingDuals := HandOutLinking(lp);
      product := WeighLinking(lp.linking, stabcenterlinkingconsvals, linkingDuals, act.linking);
      var consDuals := HandOutConss(lp);
      var cutDuals := HandOutCuts(lp);
      var conss := WeighInfeasibilities(lp.conss, stabcenterconsvals, consDuals, act.conss);
      var cuts := WeighInfeasibilities(lp.cuts, stabcentercutvals, cutDuals, act.cuts);
      product := conss + cuts - product;
    }

    /** The product, with each row measured at the side that its smoothed dual is about. */
    ghost predicate IsProduct(product: real, lp: Duals, act: Activity)
      requires HasSize(lp, act)
      requires |stabcenterconsvals| <= |lp.conss| && |subgradientconsvals| <= |lp.conss|
      requires |stabcentercutvals| <= |lp.cuts| && |subgradientcutvals| <= |lp.cuts|
      requires |stabcenterlinkingconsvals| == |lp.linking| && |subgradientlinkingconsvals| <= |lp.linking|
      reads this
    {
      exists c, d :: Measures(c, ConsDuals(lp), act.conss) && Measures(d, CutDuals(lp), act.cuts) &&
        product == Dot(Difference(lp.conss, Extended(stabcenterconsvals, |lp.conss|)), c) +
                   Dot(Difference(lp.cuts, Extended(stabcentercutvals, |lp.cuts|)), d) - LinkingShare(lp, act)
    }

    /** Whatever the state, no infinite side enters the product that updateSubgradientProduct works out. */
    lemma ProductMeasured(lp: Duals, act: Activity)
      requires Valid() && Admits(lp) && |subgradientlinkingconsvals| <= |lp.linking| && HasSize(lp, act) && Knows(act)
      ensures IsProduct(SubgradientProduct(lp, act), lp, act)
    {
      HandedOutSigns(lp);
      InfeasibilitiesMeasure(ConsDuals(lp), act.conss, consSide);
      InfeasibilitiesMeasure(CutDuals(lp), act.cuts, cutSide);
    }

    method UpdateSubgradientProduct(lp: Duals, act: Activity)
      requires Valid() && Admits(lp) && |subgradientlinkingconsvals| <= |lp.linking| && HasSize(lp, act)
      modifies `stabcenterconsvals, `stabcentercutvals, `subgradientconsvals, `subgradientcutvals, `subgradientproduct
      ensures Valid() && Admits(lp) && subgradientproduct == old(SubgradientProduct(lp, act))
      ensures stabcenterconsvals == Extended(old(stabcenterconsvals), |lp.conss|)
      ensures stabcentercutvals == Extended(old(stabcentercutvals), |lp.cuts|)
      ensures SubgradientSquares() == old(SubgradientSquares())
    {
      ghost var c, d := ConsDuals(lp), CutDuals(lp);
      GrowCenters(lp);
      subgradientproduct := MeasureProduct(lp, act, c, d);
    }

    method IncreaseAlpha()
      requires Valid()
      modifies `alpha
      ensures Valid() && old(alpha) <= alpha == Min(0.9, old(alpha) + (1.0 - old(alpha)) * 0.1)
    {
      alpha := Min(0.9, alpha + (1.0 - alpha) * 0.1);
    }

    method DecreaseAlpha()
      requires Valid()
      modifies `alpha
      ensures Valid() && alpha == Max(0.0, old(alpha) - 0.1) <= old(alpha)
    {
      alpha := Max(0.0, alpha - 0.1);
    }

    /** After a successful round: smooth more if the subgradient points away from the LP duals, and less otherwise. */
    method UpdateAlpha()
      requires Valid()
      modifies `alpha, `t
      ensures Valid() && t == old(t) + 1 && (!inmispricingschedule && old(OnSchedule()) ==> OnSchedule())
      ensures alpha == if subgradientproduct < 0.0
        then Min(0.9, old(alpha) + (1.0 - old(alpha)) * 0.1) else Max(0.0, old(alpha) - 0.1)
    {
      t := t + 1;
      if subgradientproduct < 0.0 { IncreaseAlpha(); } else { DecreaseAlpha(); }
    }

    method UpdateAlphaMisprice()
      requires Valid()
      modifies `k, `alphabar
      ensures Valid() && k == old(k) + 1 && alphabar == Alphabar(k, alpha)
      ensures k as real * (1.0 - alpha) <= 1.0 ==> alphabar == 1.0 - k as real * (1.0 - alpha)
      ensures k as real * (1.0 - alpha) >= 1.0 ==> alphabar == 0.0
      ensures k >= 10 ==> alphabar == 0.0
    {
      k := k + 1;
      TenthMispricing(k, alpha);
      alphabar := Alphabar(k, alpha);
    }

    method ActivateMispricingSchedule()
      requires Valid()
      modifies `inmispricingschedule
      ensures Valid() && inmispricingschedule
    {
      inmispricingschedule := true;
    }

    method DisablingMispricingSchedule()
      requires Valid()
      modifies `inmispricingschedule, `k
      ensures Valid() && !inmispricingschedule && k == 0
    {
      inmispricingschedule, k := false, 0;
    }

    method IsStabilized() returns (stabilized: bool)
      requires Valid()
      ensures stabilized == Current().Stabilized()
    {
      if inmispricingschedule { return alphabar > 0.0; }
      stabilized := alpha > 0.0;
    }

    /** From the tenth mispricing on a schedule no longer smooths: every dual is the one of the LP. */
    lemma ScheduleEnds(i: nat, current: real)
      requires Valid() && inmispricingschedule && alphabar == Alphabar(k, alpha) && k >= 10
      ensures !Current().Stabilized() && ConsDual(i, current) == current && CutDual(i, current) == current
    {
      TenthMispricing(k, alpha);
      UnstabilizedReturnsCurrent(Current(), At(stabcenterconsvals, i), current, UsedEntry(subgradientconsvals, i),
        consSide(i));
      UnstabilizedReturnsCurrent(Current(), At(stabcentercutvals, i), current, UsedEntry(subgradientcutvals, i),
        cutSide(i));
    }
  }

  datatype Bound = MinusInfinity | Finite(value: real)
  {
    predicate AtLeast(x: real) {
      Finite? && x <= value
    }
  }
}

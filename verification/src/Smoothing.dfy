/** The arithmetic of dual smoothing: computeDual, beta, and the hybrid factor, on plain values. */
module Smoothing {
  import opened Vectors

  /** Which sides of a row are infinite. */
  datatype Side = Side(lhsInfinite: bool, rhsInfinite: bool)

  const FINITE: Side := Side(false, false)

  /** The sign that the dual of a row must have. */
  predicate RightSign(v: real, side: Side) {
    if side.rhsInfinite then v >= 0.0 else side.lhsInfinite ==> v <= 0.0
  }

  function Quotient(undefined: real -> real, a: real, b: real): real {
    if b == 0.0 then undefined(a) else a / b
  }

  /** The subgradient, scaled to the distance of the duals. */
  function Ascent(undefined: real -> real, subgradient: real, dualdiffnorm: real, subgradientnorm: real): real {
    Quotient(undefined, subgradient * dualdiffnorm, subgradientnorm)
  }

  /** From the center to the mixture of the ascent step and the LP dual. */
  function Deviation(beta: real, center: real, ascent: real, current: real): real {
    beta * (center + ascent) + (1.0 - beta) * current - center
  }

  /** The fields that computeDual reads; `undefined` stands for the results of dividing by zero. */
  datatype Smooth = Smooth(alpha: real, alphabar: real, beta: real, hybridfactor: real, dualdiffnorm: real,
                           subgradientnorm: real, hasCenter: bool, inSchedule: bool, undefined: real -> real)
  {
    /** The hybrid point before its sign is corrected. */
    function Unclamped(center: real, current: real, subgradient: real): real {
      var ascent := Ascent(undefined, subgradient, dualdiffnorm, subgradientnorm);
      center + hybridfactor * Deviation(beta, center, ascent, current)
    }

    function UsedAlpha(): real {
      if inSchedule then alphabar else alpha
    }

    function UsedBeta(): real {
      if inSchedule then 0.0 else beta
    }

    function ComputeDual(center: real, current: real, subgradient: real, side: Side): real {
      if hasCenter && (UsedBeta() == 0.0 || UsedAlpha() == 0.0) then
        UsedAlpha() * center + (1.0 - UsedAlpha()) * current
      else if hasCenter && UsedBeta() > 0.0 then
        Clamp(Unclamped(center, current, subgradient), side)
      else current
    }

    /** isStabilized */
    predicate Stabilized() {
      UsedAlpha() > 0.0
    }
  }

  function Clamp(dual: real, side: Side): real {
    if side.rhsInfinite then (if dual > 0.0 then dual else 0.0)
    else if side.lhsInfinite then (if dual < 0.0 then dual else 0.0)
    else dual
  }

  /**
   * A hybrid point before its sign is corrected: from the center, beta times the subgradient, scaled to the distance of
   * the duals, and one minus beta times the way to the LP dual, stretched by the hybrid factor.
   */
  ghost predicate IsHybridPoint(s: Smooth, center: real, current: real, subgradient: real, x: real) {
    exists d :: IsStretched(s, center, current, subgradient, d, x)
  }

  ghost predicate IsStretched(s: Smooth, center: real, current: real, subgradient: real, d: real, x: real) {
    && d * s.subgradientnorm == subgradient * s.dualdiffnorm
    && x - center == s.hybridfactor * (s.beta * d + (1.0 - s.beta) * (current - center))
  }

  /** x, or the nearest value that has the sign that the sides of the row demand. */
  ghost predicate IsCorrected(dual: real, x: real, side: Side) {
    && (x >= 0.0 ==> dual == if side.lhsInfinite && !side.rhsInfinite then 0.0 else x)
    && (x <= 0.0 ==> dual == if side.rhsInfinite then 0.0 else x)
  }

  /** What computeDual returns, case by case. */
  lemma ComputedDual(s: Smooth, center: real, current: real, subgradient: real, side: Side)
    ensures var dual := s.ComputeDual(center, current, subgradient, side);
      && (!s.hasCenter ==> dual == current)
      && (s.hasCenter && s.inSchedule ==> dual - center == (1.0 - s.alphabar) * (current - center))
      && (s.hasCenter && !s.inSchedule && (s.beta == 0.0 || s.alpha == 0.0) ==>
            dual - center == (1.0 - s.alpha) * (current - center))
      && (s.hasCenter && !s.inSchedule && s.beta > 0.0 && s.alpha != 0.0 && s.subgradientnorm > 0.0 ==>
            exists x :: IsHybridPoint(s, center, current, subgradient, x) && IsCorrected(dual, x, side))
  {
    MixedWay(s.UsedAlpha(), center, current);
    if s.hasCenter && !s.inSchedule && s.beta > 0.0 && s.alpha != 0.0 && s.subgradientnorm > 0.0 {
      UnclampedIsHybrid(s, center, current, subgradient);
    }
  }

  lemma MixedWay(a: real, center: real, current: real)
    ensures a * center + (1.0 - a) * current - center == (1.0 - a) * (current - center)
  {
  }

  lemma UnclampedIsHybrid(s: Smooth, center: real, current: real, subgradient: real)
    requires s.subgradientnorm > 0.0
    ensures IsHybridPoint(s, center, current, subgradient, s.Unclamped(center, current, subgradient))
  {
    var d := subgradient * s.dualdiffnorm / s.subgradientnorm;
    DeviationWay(s.beta, center, d, current);
    QuotientTimesDivisor(subgradient * s.dualdiffnorm, s.subgradientnorm);
    assert IsStretched(s, center, current, subgradient, d, s.Unclamped(center, current, subgradient));
  }

  lemma DeviationWay(beta: real, center: real, d: real, current: real)
    ensures Deviation(beta, center, d, current) == beta * d + (1.0 - beta) * (current - center)
  {
  }

  /** Every branch of computeDual returns a dual of the right sign. */
  lemma ComputedSign(s: Smooth, center: real, current: real, subgradient: real, side: Side)
    requires 0.0 <= s.alpha <= 1.0 && 0.0 <= s.alphabar <= 1.0
    requires RightSign(center, side) && RightSign(current, side)
    ensures RightSign(s.ComputeDual(center, current, subgradient, side), side)
  {
    var a := s.UsedAlpha();
    MixSign(a, center, current);
  }

  lemma MixSign(a: real, x: real, y: real)
    requires 0.0 <= a <= 1.0
    ensures x >= 0.0 && y >= 0.0 ==> a * x + (1.0 - a) * y >= 0.0
    ensures x <= 0.0 && y <= 0.0 ==> a * x + (1.0 - a) * y <= 0.0
  {
    TimesNonnegative(a, x);
    TimesNonnegative(1.0 - a, y);
  }

  lemma TimesNonnegative(f: real, x: real)
    requires f >= 0.0
    ensures (x >= 0.0 ==> f * x >= 0.0) && (x <= 0.0 ==> f * x <= 0.0)
  {
  }

  /** Outside of stabilization the LP dual is returned unchanged. */
  lemma UnstabilizedReturnsCurrent(s: Smooth, center: real, current: real, subgradient: real, side: Side)
    requires s.UsedAlpha() == 0.0 || !s.hasCenter
    ensures s.ComputeDual(center, current, subgradient, side) == current
  {
  }

  /** Clamping never moves away from a center of the right sign. */
  lemma ClampNearer(dual: real, center: real, side: Side)
    requires RightSign(center, side)
    ensures Sqr(Clamp(dual, side) - center) <= Sqr(dual - center)
  {
    var c, d := Clamp(dual, side) - center, dual - center;
    assert (d <= c <= 0.0) || (0.0 <= c <= d);
    SmallerSquare(c, d);
  }

  lemma SmallerSquare(c: real, d: real)
    requires (d <= c <= 0.0) || (0.0 <= c <= d)
    ensures Sqr(c) <= Sqr(d)
  {
    var e, f := d - c, d + c;
    assert e * f >= 0.0;
    assert Sqr(d) - Sqr(c) == e * f;
  }

  // ---------- the norms, beta and the hybrid factor ----------

  ghost predicate IsRoot(root: real, x: real) {
    root >= 0.0 && Sqr(root) == x
  }

  /** One component of the direction that hybrid smoothing follows from the center. */
  function DirectionEntry(s: Smooth, center: real, current: real, subgradient: real): real {
    EntryOf(s.beta, s.dualdiffnorm, s.subgradientnorm, s.undefined, center, current, subgradient)
  }

  function EntryOf(beta: real, dualdiffnorm: real, subgradientnorm: real, undefined: real -> real,
                   center: real, current: real, subgradient: real): real
  {
    (beta - 1.0) * center + beta * Ascent(undefined, subgradient, dualdiffnorm, subgradientnorm)
    + (1.0 - beta) * current
  }

  function Direction(s: Smooth, center: Vector, current: Vector, subgradient: Vector): (d: Vector)
    requires |center| == |current| == |subgradient|
    ensures |d| == |center|
    ensures forall i :: 0 <= i < |d| ==> d[i] == DirectionEntry(s, center[i], current[i], subgradient[i])
  {
    seq(|center|, i requires 0 <= i < |center| => DirectionEntry(s, center[i], current[i], subgradient[i]))
  }

  /** What beta is after calculateBeta. */
  function BetaOf(s: Smooth, center: Vector, current: Vector, subgradient: Vector): real
    requires |center| == |current| == |subgradient|
  {
    NormalisedProduct(s, SumProducts(Difference(current, center), subgradient))
  }

  function NormalisedProduct(s: Smooth, p: real): real {
    NormalisedOf(s.dualdiffnorm, s.subgradientnorm, s.undefined, p)
  }

  function NormalisedOf(dualdiffnorm: real, subgradientnorm: real, undefined: real -> real, p: real): real {
    if subgradientnorm > 0.0 then Quotient(undefined, p, subgradientnorm * dualdiffnorm) else p
  }

  function FactorOf(alpha: real, dualdiffnorm: real, undefined: real -> real, divisornorm: real): real {
    Quotient(undefined, (1.0 - alpha) * dualdiffnorm, divisornorm)
  }

  /** Beta, times the two norms, is the sum of |difference| times |subgradient|. */
  lemma BetaTimesNorms(s: Smooth, center: Vector, current: Vector, subgradient: Vector)
    requires |center| == |current| == |subgradient| && s.subgradientnorm > 0.0 && s.dualdiffnorm > 0.0
    ensures BetaOf(s, center, current, subgradient) * (s.subgradientnorm * s.dualdiffnorm) ==
            SumProducts(Difference(current, center), subgradient)
  {
    TimesPositive(s.subgradientnorm, s.dualdiffnorm);
    QuotientTimesDivisor(SumProducts(Difference(current, center), subgradient), s.subgradientnorm * s.dualdiffnorm);
  }

  lemma TimesPositive(x: real, y: real)
    requires x > 0.0 && y > 0.0
    ensures x * y > 0.0
  {
  }

  lemma QuotientTimesDivisor(p: real, q: real)
    requires q != 0.0
    ensures p / q * q == p
  {
  }

  /** The hybrid factor stretches the direction to (1-alpha) times the distance of the duals. */
  lemma FactorTimesDivisor(alpha: real, dualdiffnorm: real, undefined: real -> real, divisornorm: real)
    requires divisornorm > 0.0
    ensures FactorOf(alpha, dualdiffnorm, undefined, divisornorm) * divisornorm == (1.0 - alpha) * dualdiffnorm
  {
    QuotientTimesDivisor((1.0 - alpha) * dualdiffnorm, divisornorm);
  }

  /** The state after updateHybrid: norms, beta and factor belong to the same center, duals and subgradient. */
  ghost predicate HybridReady(s: Smooth, center: Vector, current: Vector, subgradient: Vector, divisornorm: real) {
    && |center| == |current| == |subgradient|
    && IsRoot(s.dualdiffnorm, SumSq(Difference(center, current)))
    && s.subgradientnorm >= 0.0 && SumSq(subgradient) <= Sqr(s.subgradientnorm)
    && s.beta == BetaOf(s, center, current, subgradient)
    && IsRoot(divisornorm, SumSq(Direction(s, center, current, subgradient)))
    && s.hybridfactor == FactorOf(s.alpha, s.dualdiffnorm, s.undefined, divisornorm)
  }

  lemma DifferenceSquares(x: Vector, y: Vector)
    requires |x| == |y|
    ensures SumSq(Difference(x, y)) == SumSq(Difference(y, x))
  {
    SumSqScaled(Difference(y, x), Difference(x, y), -1.0);
  }

  /**
   * With positive norms beta lies in [0,1], even if the subgradient has lost weight since its norm was taken
   * (entries that were appended as zeros or reset to zero).
   */
  lemma BetaInUnitInterval(s: Smooth, center: Vector, current: Vector, subgradient: Vector)
    requires |center| == |current| == |subgradient|
    requires IsRoot(s.dualdiffnorm, SumSq(Difference(center, current)))
    requires s.subgradientnorm > 0.0 && s.dualdiffnorm > 0.0 && SumSq(subgradient) <= Sqr(s.subgradientnorm)
    ensures 0.0 <= BetaOf(s, center, current, subgradient) <= 1.0
  {
    DifferenceSquares(center, current);
    QuotientOfProducts(s, Difference(current, center), subgradient);
  }

  lemma QuotientOfProducts(s: Smooth, x: Vector, y: Vector)
    requires |x| == |y| && s.dualdiffnorm > 0.0 && s.subgradientnorm > 0.0
    requires SumSq(x) == Sqr(s.dualdiffnorm) && SumSq(y) <= Sqr(s.subgradientnorm)
    ensures 0.0 <= NormalisedProduct(s, SumProducts(x, y)) <= 1.0
  {
    var q := s.subgradientnorm * s.dualdiffnorm;
    PositiveProduct(s.subgradientnorm, s.dualdiffnorm);
    ProductWithinNorms(x, y, s.dualdiffnorm, s.subgradientnorm, q);
    NormalisedInUnit(s, SumProducts(x, y), q);
  }

  lemma NormalisedInUnit(s: Smooth, p: real, q: real)
    requires s.subgradientnorm > 0.0 && q == s.subgradientnorm * s.dualdiffnorm && q > 0.0 && 0.0 <= p <= q
    ensures 0.0 <= NormalisedProduct(s, p) <= 1.0
    ensures p == q ==> NormalisedProduct(s, p) == 1.0
  {
    NormalisedIs(s, p, q);
    QuotientTimes(s.undefined, p, q);
    RatioInUnit(NormalisedProduct(s, p), p, q);
  }

  lemma NormalisedIs(s: Smooth, p: real, q: real)
    requires s.subgradientnorm > 0.0 && q == s.subgradientnorm * s.dualdiffnorm
    ensures NormalisedProduct(s, p) == Quotient(s.undefined, p, q)
  {
  }

  lemma QuotientTimes(u: real -> real, p: real, q: real)
    requires q != 0.0
    ensures Quotient(u, p, q) * q == p
  {
  }

  lemma RatioInUnit(r: real, p: real, q: real)
    requires q > 0.0 && r * q == p && 0.0 <= p <= q
    ensures 0.0 <= r <= 1.0
    ensures p == q ==> r == 1.0
  {
    if r < 0.0 { PositiveProduct(-r, q); }
    if r > 1.0 { PositiveProduct(r - 1.0, q); }
    if p == q { RatioIsOne(r, p, q); }
  }

  lemma RatioIsOne(r: real, p: real, q: real)
    requires q > 0.0 && r * q == p && p == q
    ensures r == 1.0
  {
    if r < 1.0 { PositiveProduct(1.0 - r, q); }
    if r > 1.0 { PositiveProduct(r - 1.0, q); }
  }

  lemma ProductWithinNorms(x: Vector, y: Vector, a: real, b: real, q: real)
    requires |x| == |y| && a > 0.0 && b > 0.0 && SumSq(x) == Sqr(a) && SumSq(y) <= Sqr(b) && q == b * a
    ensures SumProducts(x, y) <= q
  {
    CauchySchwarz(x, y);
    ProductBound(SumProducts(x, y), SumSq(x), SumSq(y), a, b, q);
  }

  lemma ProductBound(p: real, A: real, B: real, a: real, b: real, q: real)
    requires a > 0.0 && b > 0.0 && SquareWithin(p, A, B) && A == Sqr(a) && B <= Sqr(b) && q == b * a
    ensures p <= q
  {
    ProductOrder(B, Sqr(b), A);
    SquareOfProduct(b, a);
    PositiveProduct(b, a);
    SquareOrder(p, b * a);
  }

  /** Some row has both a dual away from its center and a nonzero subgradient. */
  ghost predicate Overlap(x: Vector, y: Vector)
    requires |x| == |y|
  {
    exists i :: 0 <= i < |x| && x[i] != 0.0 && y[i] != 0.0
  }

  lemma AbsProduct(x: real, y: real)
    ensures Abs(x) * Abs(y) >= 0.0
    ensures Abs(x) * Abs(y) > 0.0 <==> x != 0.0 && y != 0.0
  {
    if x != 0.0 && y != 0.0 { PositiveProduct(Abs(x), Abs(y)); }
  }

  lemma {:induction false} ProductsPositive(x: Vector, y: Vector)
    requires |x| == |y|
    ensures SumProducts(x, y) > 0.0 <==> Overlap(x, y)
  {
    if |x| > 0 {
      var n := |x| - 1;
      ProductsPositive(x[..n], y[..n]);
      AbsProduct(x[n], y[n]);
      if Overlap(x, y) {
        var i :| 0 <= i < |x| && x[i] != 0.0 && y[i] != 0.0;
        if i < n { assert x[..n][i] != 0.0 && y[..n][i] != 0.0; }
      }
    }
  }

  /**
   * calculateBeta asserts that beta is positive or the subgradient is zero. With positive norms it is positive
   * exactly if some row has both a dual that moved and a nonzero subgradient.
   */
  lemma BetaPositive(s: Smooth, center: Vector, current: Vector, subgradient: Vector)
    requires |center| == |current| == |subgradient| && s.subgradientnorm > 0.0 && s.dualdiffnorm > 0.0
    ensures BetaOf(s, center, current, subgradient) > 0.0 <==> Overlap(Difference(current, center), subgradient)
  {
    ProductsPositive(Difference(current, center), subgradient);
    NormalisedPositive(s, SumProducts(Difference(current, center), subgradient));
  }

  /**
   * The assertion of calculateBeta, as long as the duals differ from the center: it holds exactly if there is such a
   * row or the subgradient is zero.
   */
  lemma BetaAssertion(s: Smooth, center: Vector, current: Vector, subgradient: Vector)
    requires |center| == |current| == |subgradient| && s.dualdiffnorm > 0.0
    requires IsRoot(s.subgradientnorm, SumSq(subgradient))
    ensures BetaOf(s, center, current, subgradient) > 0.0 || s.subgradientnorm == 0.0 <==>
            Overlap(Difference(current, center), subgradient) || s.subgradientnorm == 0.0
  {
    if s.subgradientnorm > 0.0 { BetaPositive(s, center, current, subgradient); }
  }

  lemma NormalisedPositive(s: Smooth, p: real)
    requires s.subgradientnorm > 0.0 && s.dualdiffnorm > 0.0 && p >= 0.0
    ensures NormalisedProduct(s, p) > 0.0 <==> p > 0.0
  {
    var q := s.subgradientnorm * s.dualdiffnorm;
    PositiveProduct(s.subgradientnorm, s.dualdiffnorm);
    NormalisedIs(s, p, q);
    QuotientTimes(s.undefined, p, q);
    QuotientPositive(p, q, NormalisedProduct(s, p));
  }

  lemma QuotientPositive(p: real, q: real, r: real)
    requires q > 0.0 && p >= 0.0 && r * q == p
    ensures r > 0.0 <==> p > 0.0
  {
    if r > 0.0 { PositiveProduct(r, q); } else { TimesNonnegative(q, r); }
  }

  /** Without an overlap beta is zero. */
  lemma BetaVanishes(s: Smooth, center: Vector, current: Vector, subgradient: Vector)
    requires |center| == |current| == |subgradient| && s.subgradientnorm > 0.0 && s.dualdiffnorm > 0.0
    requires !Overlap(Difference(current, center), subgradient)
    ensures BetaOf(s, center, current, subgradient) == 0.0
  {
    var p := SumProducts(Difference(current, center), subgradient);
    ProductsPositive(Difference(current, center), subgradient);
    assert p == 0.0;
    PositiveProduct(s.subgradientnorm, s.dualdiffnorm);
    NormalisedIs(s, p, s.subgradientnorm * s.dualdiffnorm);
    QuotientTimes(s.undefined, p, s.subgradientnorm * s.dualdiffnorm);
    QuotientZero(NormalisedProduct(s, p), s.subgradientnorm * s.dualdiffnorm);
  }

  lemma QuotientZero(r: real, q: real)
    requires q > 0.0 && r * q == 0.0
    ensures r == 0.0
  {
    if r > 0.0 { PositiveProduct(r, q); }
    if r < 0.0 { PositiveProduct(-r, q); }
  }

  /** Without a subgradient beta is zero, so the undefined hybrid factor is not used. */
  lemma ZeroNormMakesBetaZero(s: Smooth, center: Vector, current: Vector, subgradient: Vector)
    requires |center| == |current| == |subgradient| && s.subgradientnorm == 0.0
    requires SumSq(subgradient) <= Sqr(s.subgradientnorm)
    ensures BetaOf(s, center, current, subgradient) == 0.0
  {
    SumSqZero(subgradient);
    ProductsPositive(Difference(current, center), subgradient);
  }

  /** The vector of unclamped duals. */
  function UnclampedVector(s: Smooth, center: Vector, current: Vector, subgradient: Vector): (v: Vector)
    requires |center| == |current| == |subgradient|
    ensures |v| == |center|
    ensures forall i :: 0 <= i < |v| ==> v[i] == s.Unclamped(center[i], current[i], subgradient[i])
  {
    seq(|center|, i requires 0 <= i < |center| => s.Unclamped(center[i], current[i], subgradient[i]))
  }

  /** The vector that computeDual returns row by row. */
  function DualVector(s: Smooth, center: Vector, current: Vector, subgradient: Vector, sides: seq<Side>): (v: Vector)
    requires |center| == |current| == |subgradient| == |sides|
    ensures |v| == |center|
    ensures forall i :: 0 <= i < |v| ==> v[i] == s.ComputeDual(center[i], current[i], subgradient[i], sides[i])
  {
    seq(|center|, i requires 0 <= i < |center| => s.ComputeDual(center[i], current[i], subgradient[i], sides[i]))
  }

  lemma UnclampedStep(s: Smooth, c: real, x: real, g: real)
    ensures s.Unclamped(c, x, g) - c == s.hybridfactor * DirectionEntry(s, c, x, g)
  {
    var q := Ascent(s.undefined, g, s.dualdiffnorm, s.subgradientnorm);
    Rearranged(s.beta, c, q, x);
    TimesEqual(s.hybridfactor, Deviation(s.beta, c, q, x), DirectionEntry(s, c, x, g));
  }

  lemma Rearranged(b: real, c: real, q: real, x: real)
    ensures Deviation(b, c, q, x) == (b - 1.0) * c + b * q + (1.0 - b) * x
  {
    Distribute(b, c, q);
  }

  /** w = f^2 d with f = (1-a)n/r and r^2 = d gives w = ((1-a)n)^2. */
  lemma FactorCancels(a: real, n: real, u: real -> real, f: real, r: real, d: real, w: real)
    requires r > 0.0 && f == FactorOf(a, n, u, r) && Sqr(r) == d && w == Sqr(f) * d
    ensures w == StepSquare(a, n)
  {
    assert f * r == (1.0 - a) * n;
    TimesEqual(Sqr(f), d, Sqr(r));
    SquareOfProduct(f, r);
  }

  lemma ScaledDistance(a: real, n: real, d: real, w: real)
    requires d == Sqr(n) && w == Sqr(1.0 - a) * d
    ensures w == StepSquare(a, n)
  {
    TimesEqual(Sqr(1.0 - a), d, Sqr(n));
    SquareOfProduct(1.0 - a, n);
  }

  /** The square of (1-alpha) times the distance of the duals. */
  function StepSquare(alpha: real, distance: real): real {
    Sqr((1.0 - alpha) * distance)
  }

  lemma UnclampedIsScaledDirection(s: Smooth, center: Vector, current: Vector, subgradient: Vector)
    requires |center| == |current| == |subgradient|
    ensures SumSq(Difference(UnclampedVector(s, center, current, subgradient), center)) ==
            Sqr(s.hybridfactor) * SumSq(Direction(s, center, current, subgradient))
  {
    var d := Direction(s, center, current, subgradient);
    var w := Difference(UnclampedVector(s, center, current, subgradient), center);
    forall i | 0 <= i < |d| ensures w[i] == s.hybridfactor * d[i] {
      UnclampedStep(s, center[i], current[i], subgradient[i]);
    }
    SumSqScaled(d, w, s.hybridfactor);
  }

  /** The unclamped hybrid point lies exactly (1-alpha) times the dual distance away from the center. */
  lemma HybridStepLength(s: Smooth, center: Vector, current: Vector, subgradient: Vector, divisornorm: real)
    requires HybridReady(s, center, current, subgradient, divisornorm) && divisornorm > 0.0
    ensures SumSq(Difference(UnclampedVector(s, center, current, subgradient), center)) ==
            StepSquare(s.alpha, s.dualdiffnorm)
  {
    var d := Direction(s, center, current, subgradient);
    var w := Difference(UnclampedVector(s, center, current, subgradient), center);
    UnclampedIsScaledDirection(s, center, current, subgradient);
    FactorCancels(s.alpha, s.dualdiffnorm, s.undefined, s.hybridfactor, divisornorm, SumSq(d), SumSq(w));
  }

  /** Pure smoothing takes a step of the same length. */
  lemma PureStepLength(s: Smooth, center: Vector, current: Vector, subgradient: Vector, sides: seq<Side>)
    requires |center| == |current| == |subgradient| == |sides|
    requires s.hasCenter && (s.UsedBeta() == 0.0 || s.UsedAlpha() == 0.0) &&
      IsRoot(s.dualdiffnorm, SumSq(Difference(center, current)))
    ensures SumSq(Difference(DualVector(s, center, current, subgradient, sides), center)) ==
            StepSquare(s.UsedAlpha(), s.dualdiffnorm)
  {
    var a := s.UsedAlpha();
    var d, w := Difference(current, center), Difference(DualVector(s, center, current, subgradient, sides), center);
    forall i | 0 <= i < |d| ensures w[i] == (1.0 - a) * d[i] {
      PureEntry(s, center[i], current[i], subgradient[i], sides[i]);
    }
    SumSqScaled(d, w, 1.0 - a);
    DifferenceSquares(center, current);
    ScaledDistance(a, s.dualdiffnorm, SumSq(d), SumSq(w));
  }

  lemma PureEntry(s: Smooth, c: real, x: real, g: real, side: Side)
    requires s.hasCenter && (s.UsedBeta() == 0.0 || s.UsedAlpha() == 0.0)
    ensures s.ComputeDual(c, x, g, side) - c == (1.0 - s.UsedAlpha()) * (x - c)
  {
    MixStep(s.UsedAlpha(), c, x);
  }

  lemma MixStep(a: real, c: real, x: real)
    ensures a * c + (1.0 - a) * x - c == (1.0 - a) * (x - c)
  {
  }

  /** After sign correction the step is at most as long, from a center of the right signs. */
  lemma ClampedStepNotLonger(s: Smooth, center: Vector, current: Vector, subgradient: Vector, sides: seq<Side>,
                             divisornorm: real)
    requires HybridReady(s, center, current, subgradient, divisornorm) && divisornorm > 0.0 && |sides| == |center|
    requires s.hasCenter && s.UsedBeta() > 0.0 && s.UsedAlpha() != 0.0
    requires forall i :: 0 <= i < |center| ==> RightSign(center[i], sides[i])
    ensures SumSq(Difference(DualVector(s, center, current, subgradient, sides), center)) <=
            StepSquare(s.alpha, s.dualdiffnorm)
  {
    var v := Difference(UnclampedVector(s, center, current, subgradient), center);
    var w := Difference(DualVector(s, center, current, subgradient, sides), center);
    forall i | 0 <= i < |v| ensures Sqr(w[i]) <= Sqr(v[i]) {
      ClampNearer(s.Unclamped(center[i], current[i], subgradient[i]), center[i], sides[i]);
    }
    SumSqNearer(v, w);
    HybridStepLength(s, center, current, subgradient, divisornorm);
  }

  /** The step that computeDual takes from the center, whichever branch it follows. */
  lemma StabilizedStep(s: Smooth, center: Vector, current: Vector, subgradient: Vector, sides: seq<Side>,
                       divisornorm: real)
    requires s.hasCenter && |center| == |current| == |subgradient| == |sides|
    requires IsRoot(s.dualdiffnorm, SumSq(Difference(center, current))) && s.dualdiffnorm > 0.0
    requires forall i :: 0 <= i < |center| ==> RightSign(center[i], sides[i])
    requires s.UsedBeta() == 0.0 || s.UsedAlpha() == 0.0 ||
             (HybridReady(s, center, current, subgradient, divisornorm) && divisornorm > 0.0)
    ensures SumSq(Difference(DualVector(s, center, current, subgradient, sides), center)) <=
            StepSquare(s.UsedAlpha(), s.dualdiffnorm)
  {
    if s.UsedBeta() == 0.0 || s.UsedAlpha() == 0.0 {
      PureStepLength(s, center, current, subgradient, sides);
    } else {
      BetaNotNegative(s, center, current, subgradient, divisornorm);
      ClampedStepNotLonger(s, center, current, subgradient, sides, divisornorm);
    }
  }

  lemma BetaNotNegative(s: Smooth, center: Vector, current: Vector, subgradient: Vector, divisornorm: real)
    requires HybridReady(s, center, current, subgradient, divisornorm) && s.dualdiffnorm > 0.0
    ensures 0.0 <= s.beta <= 1.0
  {
    if s.subgradientnorm > 0.0 {
      BetaInUnitInterval(s, center, current, subgradient);
    } else {
      ZeroNormMakesBetaZero(s, center, current, subgradient);
    }
  }

  // ---------- the hybrid factor never divides by zero ----------

  lemma {:induction false} SumSqZero(v: Vector)
    requires SumSq(v) == 0.0
    ensures forall i :: 0 <= i < |v| ==> v[i] == 0.0
  {
    if |v| > 0 {
      ZeroSquare(v[|v| - 1]);
      SumSqZero(v[..|v| - 1]);
    }
  }

  ghost predicate IsMultiple(p: real, f: real, x: real) {
    p == f * x
  }

  ghost predicate IsScaled(y: Vector, x: Vector, f: real) {
    |y| == |x| && forall i :: 0 <= i < |x| ==> y[i] == f * x[i]
  }

  lemma ScaledEntry(x: Vector, y: Vector, f: real, i: nat)
    requires IsScaled(y, x, f) && i < |x|
    ensures y[i] == f * x[i]
  {
  }

  /** Proportional vectors: the products add up to the ratio times the squares. */
  lemma {:induction false} ProportionalProducts(x: Vector, y: Vector, f: real)
    requires f >= 0.0 && IsScaled(y, x, f)
    ensures IsMultiple(SumProducts(x, y), f, SumSq(x))
  {
    if |x| > 0 {
      var n := |x| - 1;
      ProportionalProducts(x[..n], y[..n], f);
      ScaledEntry(x, y, f, n);
      ProportionalStep(SumProducts(x[..n], y[..n]), SumSq(x[..n]), x[n], y[n], f, SumProducts(x, y), SumSq(x));
    }
  }

  lemma ProportionalStep(P: real, S: real, x: real, y: real, f: real, P1: real, S1: real)
    requires f >= 0.0 && IsMultiple(P, f, S) && y == f * x && P1 == P + Abs(x) * Abs(y) && S1 == S + Sqr(x)
    ensures IsMultiple(P1, f, S1)
  {
    AbsScaled(f, x, y);
    Distribute(f, S, Sqr(x));
    TimesEqual(f, S1, S + Sqr(x));
  }

  lemma AbsScaled(f: real, x: real, y: real)
    requires f >= 0.0 && y == f * x
    ensures Abs(x) * Abs(y) == f * Sqr(x)
  {
    TimesNonnegative(f, x);
    if x >= 0.0 {
      assert Abs(x) == x && Abs(y) == y;
      TimesEqual(x, y, f * x);
    } else {
      assert Abs(x) == -x && Abs(y) == -y;
      TimesEqual(-x, -y, f * -x);
    }
  }

  /** If the subgradient is (g/n) times the dual difference, beta is 1. */
  lemma BetaOfProportional(s: Smooth, center: Vector, current: Vector, subgradient: Vector, f: real)
    requires |center| == |current| == |subgradient|
    requires s.dualdiffnorm > 0.0 && s.subgradientnorm > 0.0 && f >= 0.0 && f * s.dualdiffnorm == s.subgradientnorm
    requires IsRoot(s.dualdiffnorm, SumSq(Difference(center, current)))
    requires IsScaled(subgradient, Difference(center, current), f)
    ensures BetaOf(s, center, current, subgradient) == 1.0
  {
    var d := Difference(center, current);
    ProductsOfNegated(d, Difference(current, center), subgradient);
    ProportionalProducts(d, subgradient, f);
    BetaOfMultiple(s, SumProducts(d, subgradient), f, SumSq(d));
  }

  lemma BetaOfMultiple(s: Smooth, p: real, f: real, S: real)
    requires s.dualdiffnorm > 0.0 && s.subgradientnorm > 0.0 && f * s.dualdiffnorm == s.subgradientnorm
    requires IsMultiple(p, f, S) && S == Sqr(s.dualdiffnorm)
    ensures NormalisedProduct(s, p) == 1.0
  {
    var q := s.subgradientnorm * s.dualdiffnorm;
    RatioTimesSquares(p, f, s.dualdiffnorm, s.subgradientnorm, S, q);
    PositiveProduct(s.subgradientnorm, s.dualdiffnorm);
    NormalisedInUnit(s, p, q);
  }

  lemma RatioTimesSquares(p: real, f: real, n: real, g: real, S: real, q: real)
    requires IsMultiple(p, f, S) && f * n == g && S == Sqr(n) && q == g * n
    ensures p == q
  {
    Regroup(f, n, n);
    TimesEqual(n, f * n, g);
    TimesEqual(f, S, n * n);
  }

  /** A vanishing direction entry ties the subgradient to the dual difference. */
  lemma VanishingEntry(s: Smooth, c: real, x: real, g: real, r: real)
    requires s.subgradientnorm > 0.0 && r * s.subgradientnorm == s.dualdiffnorm
    requires DirectionEntry(s, c, x, g) == 0.0
    ensures (s.beta * r) * g == (1.0 - s.beta) * (c - x)
  {
    AscentCommutes(s.undefined, g, s.dualdiffnorm, s.subgradientnorm, r);
    Regroup(s.beta, r, g);
    TimesEqual(s.beta, Ascent(s.undefined, g, s.dualdiffnorm, s.subgradientnorm), r * g);
    SplitDifference(s.beta, c, x);
  }

  lemma SplitDifference(b: real, c: real, x: real)
    ensures (1.0 - b) * (c - x) == -((b - 1.0) * c + (1.0 - b) * x)
  {
  }

  lemma AscentCommutes(undefined: real -> real, g: real, n: real, m: real, r: real)
    requires m > 0.0 && r * m == n
    ensures Ascent(undefined, g, n, m) == r * g
  {
    TimesEqual(g, n, r * m);
    var q := g * n / m;
    assert q * m == g * n;
    assert (r * g) * m == g * (r * m);
    CancelFactor(q, r * g, m);
  }

  lemma CancelFactor(x: real, y: real, m: real)
    requires m != 0.0 && x * m == y * m
    ensures x == y
  {
    assert (x - y) * m == 0.0;
  }

  lemma CancelEqual(b: real, c: real, n: real, x: real, y: real)
    requires n != 0.0 && x == b * n && y == c * n && x == y
    ensures b == c
  {
    CancelFactor(b, c, n);
  }

  /** From (b r)^2 g^2 == c^2 n^2 with r g == n, where b and c share out 1. */
  lemma BetaIsHalf(b: real, c: real, n: real, g: real, r: real)
    requires n > 0.0 && r * g == n && 0.0 <= b && 0.0 <= c && b + c == 1.0
    requires Sqr(b * r) * Sqr(g) == Sqr(c) * Sqr(n)
    ensures b == 0.5
  {
    var x, y, z := b * n, c * n, (b * r) * g;
    BetaSquares(b, c, n, g, r, x, y, z);
    SameSquare(x, y, z);
    TimesNonnegative(n, b);
    TimesNonnegative(n, c);
    SquareOrder(x, y);
    SquareOrder(y, x);
    CancelEqual(b, c, n, x, y);
  }

  lemma BetaSquares(b: real, c: real, n: real, g: real, r: real, x: real, y: real, z: real)
    requires r * g == n && z == (b * r) * g && Sqr(b * r) * Sqr(g) == Sqr(c) * Sqr(n) && x == b * n && y == c * n
    ensures z == x && Sqr(z) == Sqr(y)
  {
    Regroup(b, r, g);
    TimesEqual(b, r * g, n);
    SquareOfProduct(b * r, g);
    SquareOfProduct(c, n);
  }

  lemma SameSquare(x: real, y: real, z: real)
    requires z == x && Sqr(z) == Sqr(y)
    ensures Sqr(x) == Sqr(y)
  {
  }

  /** With beta 1/2 the entries are proportional with ratio f = g/n. */
  lemma ProportionalEntry(x: real, d: real, r: real, f: real)
    requires f * r == 1.0 && (0.5 * r) * x == 0.5 * d
    ensures x == f * d
  {
    assert r * x == d;
    TimesEqual(f, r * x, d);
    Regroup(f, r, x);
  }

  lemma Reciprocal(n: real, g: real, r: real, f: real)
    requires n > 0.0 && g > 0.0 && r * g == n && f * n == g
    ensures f * r == 1.0
  {
    TimesEqual(f, r * g, n);
    Regroup(f, r, g);
    CancelFactor(f * r, 1.0, g);
  }

  /**
   * If the direction vanished, subgradient and dual difference would be proportional; beta would then be 1/2
   * because of the norms and 1 because of the products. So the hybrid factor never divides by zero.
   */
  lemma DivisorPositive(s: Smooth, center: Vector, current: Vector, subgradient: Vector, divisornorm: real)
    requires HybridReady(s, center, current, subgradient, divisornorm)
    requires s.dualdiffnorm > 0.0 && s.subgradientnorm > 0.0 && SumSq(subgradient) == Sqr(s.subgradientnorm)
    ensures divisornorm > 0.0
  {
    BetaInUnitInterval(s, center, current, subgradient);
    if divisornorm == 0.0 {
      var r, f := Ratios(s.dualdiffnorm, s.subgradientnorm);
      DirectionVanishes(s, center, current, subgradient);
      VanishingMakesBetaHalf(s, center, current, subgradient, r);
      VanishingMakesProportional(s, center, current, subgradient, r, f);
      BetaOfProportional(s, center, current, subgradient, f);
    }
  }

  lemma Ratios(n: real, g: real) returns (r: real, f: real)
    requires n > 0.0 && g > 0.0
    ensures r * g == n && f * n == g && f > 0.0 && f * r == 1.0
  {
    r, f := n / g, g / n;
    PositiveRatio(g, n, f);
    Reciprocal(n, g, r, f);
  }

  lemma PositiveRatio(g: real, n: real, f: real)
    requires g > 0.0 && n > 0.0 && f * n == g
    ensures f > 0.0
  {
    if f <= 0.0 { TimesNonnegative(n, f); }
  }

  ghost predicate Vanishes(s: Smooth, center: Vector, current: Vector, subgradient: Vector) {
    && |center| == |current| == |subgradient|
    && forall i :: 0 <= i < |center| ==> DirectionEntry(s, center[i], current[i], subgradient[i]) == 0.0
  }

  lemma DirectionVanishes(s: Smooth, center: Vector, current: Vector, subgradient: Vector)
    requires |center| == |current| == |subgradient| && SumSq(Direction(s, center, current, subgradient)) == 0.0
    ensures Vanishes(s, center, current, subgradient)
  {
    SumSqZero(Direction(s, center, current, subgradient));
    forall i | 0 <= i < |center| ensures DirectionEntry(s, center[i], current[i], subgradient[i]) == 0.0 {
      assert Direction(s, center, current, subgradient)[i] == 0.0;
    }
  }

  /** f * g == c * d entry by entry gives f^2 * |g|^2 == c^2 * |d|^2. */
  lemma {:induction false} ProportionalSquares(g: Vector, d: Vector, f: real, c: real)
    requires Proportional(g, d, f, c)
    ensures SquaresAgree(f, SumSq(g), c, SumSq(d))
  {
    var u := seq(|g|, i requires 0 <= i < |g| => f * g[i]);
    SumSqScaled(g, u, f);
    SumSqScaled(d, u, c);
  }

  ghost predicate Proportional(g: Vector, d: Vector, f: real, c: real) {
    |g| == |d| && forall i :: 0 <= i < |g| ==> f * g[i] == c * d[i]
  }

  ghost predicate SquaresAgree(f: real, G: real, c: real, D: real) {
    Sqr(f) * G == Sqr(c) * D
  }

  lemma VanishingMakesBetaHalf(s: Smooth, center: Vector, current: Vector, subgradient: Vector, r: real)
    requires Vanishes(s, center, current, subgradient) && 0.0 <= s.beta <= 1.0
    requires s.dualdiffnorm > 0.0 && s.subgradientnorm > 0.0 && r * s.subgradientnorm == s.dualdiffnorm
    requires SumSq(Difference(center, current)) == Sqr(s.dualdiffnorm)
    requires SumSq(subgradient) == Sqr(s.subgradientnorm)
    ensures s.beta == 0.5
  {
    var f, c := s.beta * r, 1.0 - s.beta;
    VanishingProportional(s, center, current, subgradient, r, f, c);
    ProportionalSquares(subgradient, Difference(center, current), f, c);
    HalfFromSquares(s.beta, c, SumSq(subgradient), SumSq(Difference(center, current)), s.dualdiffnorm,
                    s.subgradientnorm, r, f);
  }

  lemma VanishingProportional(s: Smooth, center: Vector, current: Vector, subgradient: Vector, r: real, f: real,
    c: real)
    requires Vanishes(s, center, current, subgradient) && f == s.beta * r && c == 1.0 - s.beta
    requires s.subgradientnorm > 0.0 && r * s.subgradientnorm == s.dualdiffnorm
    ensures Proportional(subgradient, Difference(center, current), f, c)
  {
    forall i | 0 <= i < |center| ensures f * subgradient[i] == c * Difference(center, current)[i] {
      VanishingEntry(s, center[i], current[i], subgradient[i], r);
    }
  }

  lemma HalfFromSquares(b: real, c: real, G: real, D: real, n: real, g: real, r: real, f: real)
    requires n > 0.0 && r * g == n && 0.0 <= b && 0.0 <= c && b + c == 1.0 && f == b * r
    requires SquaresAgree(f, G, c, D) && G == Sqr(g) && D == Sqr(n)
    ensures b == 0.5
  {
    TimesEqual(Sqr(f), G, Sqr(g));
    TimesEqual(Sqr(c), D, Sqr(n));
    BetaIsHalf(b, c, n, g, r);
  }

  lemma VanishingMakesProportional(s: Smooth, center: Vector, current: Vector, subgradient: Vector, r: real, f: real)
    requires Vanishes(s, center, current, subgradient) && s.beta == 0.5 && f * r == 1.0
    requires s.subgradientnorm > 0.0 && r * s.subgradientnorm == s.dualdiffnorm
    ensures IsScaled(subgradient, Difference(center, current), f)
  {
    forall i | 0 <= i < |center| ensures subgradient[i] == f * Difference(center, current)[i] {
      VanishingEntry(s, center[i], current[i], subgradient[i], r);
      ProportionalEntry(subgradient[i], center[i] - current[i], r, f);
    }
  }

  /** |x|*|z| does not depend on the sign of x. */
  lemma {:induction false} ProductsOfNegated(x: Vector, y: Vector, z: Vector)
    requires |x| == |y| == |z| && forall i :: 0 <= i < |x| ==> y[i] == -x[i]
    ensures SumProducts(x, z) == SumProducts(y, z)
  {
    if |x| > 0 {
      var n := |x| - 1;
      ProductsOfNegated(x[..n], y[..n], z[..n]);
      TimesEqual(Abs(z[n]), Abs(x[n]), Abs(y[n]));
    }
  }
}

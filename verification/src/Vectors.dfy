/** Sums over dual vectors: squares, products, and the Cauchy-Schwarz inequality. */
module Vectors {

  type Vector = seq<real>

  function Sqr(x: real): real {
    x * x
  }

  function Abs(x: real): (r: real)
    ensures r >= 0.0 && Sqr(r) == Sqr(x)
  {
    if x >= 0.0 then x else -x
  }

  function SumSq(v: Vector): (s: real)
    ensures s >= 0.0
  {
    if |v| == 0 then 0.0 else SumSq(v[..|v| - 1]) + Sqr(v[|v| - 1])
  }

  /** Sum of |x_i| * |y_i|. */
  function SumProducts(x: Vector, y: Vector): (s: real)
    requires |x| == |y|
    ensures s >= 0.0
  {
    if |x| == 0 then 0.0
    else SumProducts(x[..|x| - 1], y[..|y| - 1]) + Abs(x[|x| - 1]) * Abs(y[|y| - 1])
  }

  function Difference(x: Vector, y: Vector): (d: Vector)
    requires |x| == |y|
    ensures |d| == |x| && forall i :: 0 <= i < |x| ==> d[i] == x[i] - y[i]
  {
    seq(|x|, i requires 0 <= i < |x| => x[i] - y[i])
  }

  function Zeros(n: nat): (z: Vector)
    ensures |z| == n && forall i :: 0 <= i < n ==> z[i] == 0.0
  {
    seq(n, i => 0.0)
  }

  lemma {:induction false} SumSqAppend(a: Vector, b: Vector)
    ensures SumSq(a + b) == SumSq(a) + SumSq(b)
  {
    if |b| == 0 {
      assert a + b == a;
    } else {
      assert (a + b)[..|a + b| - 1] == a + b[..|b| - 1];
      SumSqAppend(a, b[..|b| - 1]);
    }
  }

  /** The scalar product. */
  function Dot(x: Vector, y: Vector): real
    requires |x| == |y|
  {
    if |x| == 0 then 0.0 else Dot(x[..|x| - 1], y[..|x| - 1]) + x[|x| - 1] * y[|x| - 1]
  }

  lemma {:induction false} DotSelf(x: Vector)
    ensures Dot(x, x) == SumSq(x)
  {
    if |x| > 0 { DotSelf(x[..|x| - 1]); }
  }

  lemma {:induction false} DotAppend(a: Vector, b: Vector, x: Vector, y: Vector)
    requires |a| == |x| && |b| == |y|
    ensures Dot(a + b, x + y) == Dot(a, x) + Dot(b, y)
  {
    if |b| == 0 {
      assert a + b == a && x + y == x;
    } else {
      assert (a + b)[..|a + b| - 1] == a + b[..|b| - 1];
      assert (x + y)[..|x + y| - 1] == x + y[..|y| - 1];
      DotAppend(a, b[..|b| - 1], x, y[..|y| - 1]);
    }
  }

  /** One row: the scalar product and the sum of products, each of a single pair. */
  lemma ProductsOfOne(x: real, y: real)
    ensures Dot([x], [y]) == x * y && SumSq([x]) == x * x && SumProducts([x], [y]) == Abs(x * y)
  {
    assert [x][..0] == [] && [y][..0] == [];
    AbsOfProduct(x, y);
  }

  lemma AbsOfProduct(x: real, y: real)
    ensures Abs(x * y) == Abs(x) * Abs(y)
  {
  }

  lemma {:induction false} SumProductsAppend(a: Vector, b: Vector, x: Vector, y: Vector)
    requires |a| == |x| && |b| == |y|
    ensures SumProducts(a + b, x + y) == SumProducts(a, x) + SumProducts(b, y)
  {
    if |b| == 0 {
      assert a + b == a && x + y == x;
    } else {
      assert (a + b)[..|a + b| - 1] == a + b[..|b| - 1];
      assert (x + y)[..|x + y| - 1] == x + y[..|y| - 1];
      SumProductsAppend(a, b[..|b| - 1], x, y[..|y| - 1]);
    }
  }

  lemma {:induction false} SumSqZeros(n: nat)
    ensures SumSq(Zeros(n)) == 0.0
  {
    if n > 0 {
      assert Zeros(n)[..n - 1] == Zeros(n - 1);
      SumSqZeros(n - 1);
    }
  }

  lemma {:induction false} SumSqScaled(v: Vector, w: Vector, f: real)
    requires |v| == |w| && forall i :: 0 <= i < |v| ==> w[i] == f * v[i]
    ensures SumSq(w) == Sqr(f) * SumSq(v)
  {
    if |v| > 0 {
      var n := |v| - 1;
      SumSqScaled(v[..n], w[..n], f);
      ScaledOneMore(SumSq(w[..n]), SumSq(v[..n]), w[n], v[n], f);
    }
  }

  lemma ScaledOneMore(a: real, b: real, x: real, y: real, f: real)
    requires a == Sqr(f) * b && x == f * y
    ensures a + Sqr(x) == Sqr(f) * (b + Sqr(y))
  {
    ScaledSquare(f, y);
    Distribute(Sqr(f), b, Sqr(y));
  }

  lemma ScaledSquare(f: real, x: real)
    ensures Sqr(f * x) == Sqr(f) * Sqr(x)
  {
  }

  lemma Distribute(f: real, a: real, b: real)
    ensures f * (a + b) == f * a + f * b
  {
  }

  /** Moving each entry nearer to its counterpart in c does not increase the sum of squares. */
  lemma {:induction false} SumSqNearer(v: Vector, w: Vector)
    requires |v| == |w| && forall i :: 0 <= i < |v| ==> Sqr(w[i]) <= Sqr(v[i])
    ensures SumSq(w) <= SumSq(v)
  {
    if |v| > 0 { SumSqNearer(v[..|v| - 1], w[..|w| - 1]); }
  }

  lemma TimesEqual(f: real, x: real, y: real)
    requires x == y
    ensures f * x == f * y
  {
  }

  lemma PositiveProduct(a: real, b: real)
    requires a > 0.0 && b > 0.0
    ensures a * b > 0.0
  {
  }

  lemma Regroup(a: real, b: real, c: real)
    ensures a * (b * c) == (a * b) * c
  {
  }

  lemma SquareOfProduct(a: real, b: real)
    ensures Sqr(a * b) == Sqr(a) * Sqr(b)
  {
  }

  // ---------- Cauchy-Schwarz ----------

  /** p^2 is at most A*B. */
  ghost predicate SquareWithin(p: real, A: real, B: real) {
    Sqr(p) <= A * B
  }

  lemma SquareOrder(s: real, t: real)
    requires t >= 0.0 && Sqr(s) <= Sqr(t)
    ensures s <= t
  {
    if s > t { SquareGrows(s, t); }
  }

  lemma SquareGrows(s: real, t: real)
    requires s > t >= 0.0
    ensures Sqr(s) > Sqr(t)
  {
    var d, e := s - t, s + t;
    assert d * e > 0.0;
    assert Sqr(s) - Sqr(t) == d * e;
  }

  lemma ZeroSquare(x: real)
    requires Sqr(x) == 0.0
    ensures x == 0.0
  {
    if Abs(x) > 0.0 { SquareGrows(Abs(x), 0.0); }
  }

  lemma ProductOrder(x: real, y: real, f: real)
    requires x <= y && f >= 0.0
    ensures f * x <= f * y
  {
  }

  /** 2pab <= A*b^2 + B*a^2 whenever p^2 <= A*B. */
  lemma CrossTerm(p: real, A: real, B: real, a: real, b: real)
    requires p >= 0.0 && A >= 0.0 && B >= 0.0 && a >= 0.0 && b >= 0.0 && Sqr(p) <= A * B
    ensures 2.0 * p * a * b <= A * Sqr(b) + B * Sqr(a)
  {
    var X, Y := A * Sqr(b), B * Sqr(a);
    var s := 2.0 * p * a * b;
    CrossSquares(p, A, B, a, b);
    assert Sqr(X + Y) - 4.0 * X * Y == Sqr(X - Y) >= 0.0;
    assert X >= 0.0 && Y >= 0.0;
    SquareOrder(s, X + Y);
  }

  lemma CrossSquares(p: real, A: real, B: real, a: real, b: real)
    requires Sqr(p) <= A * B
    ensures Sqr(2.0 * p * a * b) <= 4.0 * (A * Sqr(b)) * (B * Sqr(a))
  {
    var f := 4.0 * Sqr(a) * Sqr(b);
    assert f >= 0.0;
    ProductOrder(Sqr(p), A * B, f);
    assert Sqr(2.0 * p * a * b) == f * Sqr(p);
    assert 4.0 * (A * Sqr(b)) * (B * Sqr(a)) == f * (A * B);
  }

  lemma SumOfProducts(p: real, A: real, B: real, a: real, b: real)
    requires p >= 0.0 && A >= 0.0 && B >= 0.0 && a >= 0.0 && b >= 0.0 && Sqr(p) <= A * B
    ensures Sqr(p + a * b) <= (A + Sqr(a)) * (B + Sqr(b))
  {
    CrossTerm(p, A, B, a, b);
    assert Sqr(p + a * b) == Sqr(p) + 2.0 * p * a * b + Sqr(a) * Sqr(b);
    assert (A + Sqr(a)) * (B + Sqr(b)) == A * B + A * Sqr(b) + B * Sqr(a) + Sqr(a) * Sqr(b);
  }

  /** The induction step, with the new sums under names of their own. */
  lemma SumOfEntries(p: real, A: real, B: real, x: real, y: real, p1: real, A1: real, B1: real)
    requires p >= 0.0 && A >= 0.0 && B >= 0.0 && SquareWithin(p, A, B)
    requires p1 == p + Abs(x) * Abs(y) && A1 == A + Sqr(x) && B1 == B + Sqr(y)
    ensures SquareWithin(p1, A1, B1)
  {
    SumOfProducts(p, A, B, Abs(x), Abs(y));
  }

  lemma {:induction false} CauchySchwarz(x: Vector, y: Vector)
    requires |x| == |y|
    ensures SquareWithin(SumProducts(x, y), SumSq(x), SumSq(y))
  {
    if |x| > 0 {
      var n := |x| - 1;
      CauchySchwarz(x[..n], y[..n]);
      SumOfEntries(SumProducts(x[..n], y[..n]), SumSq(x[..n]), SumSq(y[..n]), x[n], y[n],
                   SumProducts(x, y), SumSq(x), SumSq(y));
    }
  }
}

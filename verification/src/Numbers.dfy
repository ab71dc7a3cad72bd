/** Integrality and rounding of exact reals, shared by all components. */
module Numbers {

  /** True when x has no fractional part (the exact reading of SCIPisFeasIntegral). */
  predicate IsInt(x: real) {
    x.Floor as real == x
  }

  /** The least integer that is not below x. */
  function Ceil(x: real): (c: int)
    ensures x <= c as real < x + 1.0
  {
    if IsInt(x) then x.Floor else x.Floor + 1
  }

  lemma IntIsInt(k: int)
    ensures IsInt(k as real)
  {
  }

  lemma FloorUnique(x: real, k: int)
    requires k as real <= x < k as real + 1.0
    ensures x.Floor == k
  {
  }

  lemma IntClosed(x: real, y: real)
    requires IsInt(x) && IsInt(y)
    ensures IsInt(x + y) && IsInt(x - y)
  {
    var a, b := x.Floor, y.Floor;
    FloorUnique(x + y, a + b);
    FloorUnique(x - y, a - b);
  }

  lemma IntAbsorbed(x: real, y: real)
    requires IsInt(x - y)
    ensures IsInt(x) <==> IsInt(y)
  {
    if IsInt(x) { IntClosed(x, x - y); }
    if IsInt(y) { IntClosed(x - y, y); }
  }
}

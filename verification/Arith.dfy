/** Products and quotients by a variable, for raster-scan addresses. */
module Arith {

  lemma MulLe(a: int, b: int, d: nat)
    ensures a <= b ==> a * d <= b * d
  {
    assert (b - a) * d == b * d - a * d;
    assert b - a >= 0 ==> (b - a) * d >= 0;
  }

  /** Quotient and remainder are the only pair with these bounds. */
  lemma DivModUnique(q: int, r: int, d: nat)
    requires 0 <= r < d
    ensures (q * d + r) / d == q && (q * d + r) % d == r
  {
    var x := q * d + r;
    var p := x / d;
    MulLe(q + 1, p, d);
    MulLe(p + 1, q, d);
    assert (q + 1) * d == q * d + d && (p + 1) * d == p * d + d;
  }

  /** Raster positions with columns in range are equal only if both coordinates are. */
  lemma RasterInjective(x1: int, y1: int, x2: int, y2: int, stride: nat)
    requires x1 - x2 < stride && x2 - x1 < stride
    ensures y1 * stride + x1 == y2 * stride + x2 <==> x1 == x2 && y1 == y2
  {
    MulLe(y1 + 1, y2, stride);
    MulLe(y2 + 1, y1, stride);
    assert (y1 + 1) * stride == y1 * stride + stride && (y2 + 1) * stride == y2 * stride + stride;
  }
}

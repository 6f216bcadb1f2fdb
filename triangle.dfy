/** The geometry of Renderer::drawTriangle (src/renderer.cpp): the clipped
    bounding box, the twice-signed-area denominator, the edge values and the
    barycentric weights w0 = e0 / denom, w1 = e1 / denom, w2 = 1 - w0 - w1 with
    the depth they interpolate. Screen coordinates are integers; depths and
    weights are reals. */
module Triangles {

  datatype Vertex = Vertex(x: int, y: int, z: real)

  datatype Triangle = Triangle(v0: Vertex, v1: Vertex, v2: Vertex)

  /** The largest coordinate magnitude the model admits: with it, every product
      drawTriangle forms in int stays within 32 bits (EdgeValuesFitInt32). */
  const CoordLimit: int := 10000

  const Int32Min: int := -0x8000_0000
  const Int32Max: int := 0x7fff_ffff

  predicate IsInt32(v: int) {
    Int32Min <= v <= Int32Max
  }

  function Min(a: int, b: int): int {
    if a <= b then a else b
  }

  function Max(a: int, b: int): int {
    if a >= b then a else b
  }

  /** std::min({a, b, c}). */
  function Min3(a: int, b: int, c: int): (r: int)
    ensures r <= a && r <= b && r <= c
    ensures r == a || r == b || r == c
  {
    Min(Min(a, b), c)
  }

  /** std::max({a, b, c}). */
  function Max3(a: int, b: int, c: int): (r: int)
    ensures a <= r && b <= r && c <= r
    ensures r == a || r == b || r == c
  {
    Max(Max(a, b), c)
  }

  function Abs(v: real): real {
    if v < 0.0 then -v else v
  }

  /** The bounding box of the vertices, clipped to [0, w - 1] x [0, h - 1]. */
  function MinX(t: Triangle): int {
    Max(0, Min3(t.v0.x, t.v1.x, t.v2.x))
  }

  function MaxX(t: Triangle, w: int): int {
    Min(w - 1, Max3(t.v0.x, t.v1.x, t.v2.x))
  }

  function MinY(t: Triangle): int {
    Max(0, Min3(t.v0.y, t.v1.y, t.v2.y))
  }

  function MaxY(t: Triangle, h: int): int {
    Min(h - 1, Max3(t.v0.y, t.v1.y, t.v2.y))
  }

  predicate InBox(t: Triangle, w: int, h: int, x: int, y: int) {
    MinX(t) <= x <= MaxX(t, w) && MinY(t) <= y <= MaxY(t, h)
  }

  /** A pixel of the box is on the screen and between the vertices' extremes. */
  lemma InBoxBounds(t: Triangle, w: int, h: int, x: int, y: int)
    requires InBox(t, w, h, x, y)
    ensures 0 <= x < w && 0 <= y < h
    ensures Min3(t.v0.x, t.v1.x, t.v2.x) <= x <= Max3(t.v0.x, t.v1.x, t.v2.x)
    ensures Min3(t.v0.y, t.v1.y, t.v2.y) <= y <= Max3(t.v0.y, t.v1.y, t.v2.y)
  {
  }

  /** Twice the signed area of the triangle. */
  function Denom(t: Triangle): int {
    (t.v1.y - t.v2.y) * (t.v0.x - t.v2.x) + (t.v2.x - t.v1.x) * (t.v0.y - t.v2.y)
  }

  /** The early return: |float(denom)| < 1e-6. */
  predicate Degenerate(t: Triangle) {
    Abs(Denom(t) as real) < 0.000001
  }

  /** The numerator of w0: twice the signed area of (p, v1, v2). */
  function Edge0(t: Triangle, x: int, y: int): int {
    (t.v1.y - t.v2.y) * (x - t.v2.x) + (t.v2.x - t.v1.x) * (y - t.v2.y)
  }

  /** The numerator of w1: twice the signed area of (v0, p, v2). */
  function Edge1(t: Triangle, x: int, y: int): int {
    (t.v2.y - t.v0.y) * (x - t.v2.x) + (t.v0.x - t.v2.x) * (y - t.v2.y)
  }

  /** The integer counterpart of w2 = 1 - w0 - w1. */
  function Edge2(t: Triangle, x: int, y: int): int {
    Denom(t) - Edge0(t, x, y) - Edge1(t, x, y)
  }

  function W0(t: Triangle, x: int, y: int): real
    requires Denom(t) != 0
  {
    Edge0(t, x, y) as real / Denom(t) as real
  }

  function W1(t: Triangle, x: int, y: int): real
    requires Denom(t) != 0
  {
    Edge1(t, x, y) as real / Denom(t) as real
  }

  function W2(t: Triangle, x: int, y: int): real
    requires Denom(t) != 0
  {
    1.0 - W0(t, x, y) - W1(t, x, y)
  }

  /** The fill test: all three weights non-negative. */
  predicate Inside(t: Triangle, x: int, y: int)
    requires Denom(t) != 0
  {
    W0(t, x, y) >= 0.0 && W1(t, x, y) >= 0.0 && W2(t, x, y) >= 0.0
  }

  /** The depth interpolated at the pixel. */
  function Depth(t: Triangle, x: int, y: int): real
    requires Denom(t) != 0
  {
    W0(t, x, y) * t.v0.z + W1(t, x, y) * t.v1.z + W2(t, x, y) * t.v2.z
  }

  /** drawTriangle fills the pixel (before its depth test). */
  predicate Covers(t: Triangle, w: int, h: int, x: int, y: int) {
    !Degenerate(t) && InBox(t, w, h, x, y) && Inside(t, x, y)
  }

  /** The vertex order with v1 and v2 exchanged: the opposite winding. */
  function Swap(t: Triangle): Triangle {
    Triangle(t.v0, t.v2, t.v1)
  }

  /** The same winding started from the next vertex. */
  function Rotate(t: Triangle): Triangle {
    Triangle(t.v1, t.v2, t.v0)
  }

  /** The vertex order reversed. */
  function Reverse(t: Triangle): Triangle {
    Triangle(t.v2, t.v1, t.v0)
  }

  predicate InCoordRange(t: Triangle) {
    -CoordLimit <= t.v0.x <= CoordLimit && -CoordLimit <= t.v0.y <= CoordLimit &&
    -CoordLimit <= t.v1.x <= CoordLimit && -CoordLimit <= t.v1.y <= CoordLimit &&
    -CoordLimit <= t.v2.x <= CoordLimit && -CoordLimit <= t.v2.y <= CoordLimit
  }

  // ---------------------------------------------------------------------------
  // The skip test and the fill test in integer terms

  /** For an integer denominator the 1e-6 guard skips exactly the zero-area
      (collinear or coincident) triangles. */
  lemma DegenerateIffZeroArea(t: Triangle)
    ensures Degenerate(t) <==> Denom(t) == 0
  {
    var d := Denom(t);
    if d > 0 {
      assert 1.0 <= d as real;
    } else if d < 0 {
      assert (d as real) <= -1.0;
    }
  }

  /** e2 is itself an edge value: twice the signed area of (v0, v1, p). */
  lemma Edge2IsEdge(t: Triangle, x: int, y: int)
    ensures Edge2(t, x, y) == (t.v0.y - t.v1.y) * (x - t.v1.x) + (t.v1.x - t.v0.x) * (y - t.v1.y)
  {
  }

  /** w2 = 1 - w0 - w1 is e2 / denom. */
  lemma W2IsQuotient(t: Triangle, x: int, y: int)
    requires Denom(t) != 0
    ensures W2(t, x, y) == Edge2(t, x, y) as real / Denom(t) as real
  {
    var d := Denom(t) as real;
    var e0 := Edge0(t, x, y) as real;
    var e1 := Edge1(t, x, y) as real;
    QuotientOfDifference(d, e0, e1);
  }

  lemma QuotientOfDifference(d: real, e0: real, e1: real)
    requires d != 0.0
    ensures 1.0 - e0 / d - e1 / d == (d - e0 - e1) / d
  {
    assert (d - e0 - e1) / d == d / d - e0 / d - e1 / d;
  }

  /** A quotient is non-negative exactly when numerator times denominator is. */
  lemma QuotientSign(e: int, d: int)
    requires d != 0
    ensures e as real / d as real >= 0.0 <==> e * d >= 0
  {
    var q := e as real / d as real;
    assert q * (d as real) == e as real;
    if d > 0 {
      ProductSign(e, d);
      QuotientSignPositive(e as real, d as real);
    } else {
      ProductSign(-e, -d);
      assert e as real / d as real == (-e) as real / (-d) as real;
      QuotientSignPositive((-e) as real, (-d) as real);
    }
  }

  lemma QuotientSignPositive(e: real, d: real)
    requires 0.0 < d
    ensures e / d >= 0.0 <==> e >= 0.0
  {
    var q := e / d;
    assert q * d == e;
    if q < 0.0 {
      assert q * d < 0.0;
    } else {
      assert q * d >= 0.0;
    }
  }

  lemma ProductSign(e: int, d: int)
    requires 0 < d
    ensures e * d >= 0 <==> e >= 0
  {
    if e < 0 {
      assert e * d <= -1 * d;
    }
  }

  /** A pixel passes the fill test exactly when each integer edge value has the
      sign of denom (or is zero). */
  lemma InsideIffEdgeSigns(t: Triangle, x: int, y: int)
    requires Denom(t) != 0
    ensures Inside(t, x, y) <==>
      Edge0(t, x, y) * Denom(t) >= 0 && Edge1(t, x, y) * Denom(t) >= 0 && Edge2(t, x, y) * Denom(t) >= 0
  {
    QuotientSign(Edge0(t, x, y), Denom(t));
    QuotientSign(Edge1(t, x, y), Denom(t));
    QuotientSign(Edge2(t, x, y), Denom(t));
    W2IsQuotient(t, x, y);
  }

  /** The depth is the weighted sum of the vertex depths, whatever names the
      weights are computed under. */
  lemma DepthOfWeights(t: Triangle, x: int, y: int, w0: real, w1: real, w2: real)
    requires Denom(t) != 0
    requires w0 == W0(t, x, y) && w1 == W1(t, x, y) && w2 == W2(t, x, y)
    ensures Depth(t, x, y) == w0 * t.v0.z + w1 * t.v1.z + w2 * t.v2.z
  {
  }

  /** A non-degenerate triangle contains its vertices, and the interpolated
      depth there is the vertex's own depth. */
  lemma VerticesInterpolate(t: Triangle)
    requires Denom(t) != 0
    ensures Inside(t, t.v0.x, t.v0.y) && Depth(t, t.v0.x, t.v0.y) == t.v0.z
    ensures Inside(t, t.v1.x, t.v1.y) && Depth(t, t.v1.x, t.v1.y) == t.v1.z
    ensures Inside(t, t.v2.x, t.v2.y) && Depth(t, t.v2.x, t.v2.y) == t.v2.z
  {
    var d := Denom(t) as real;
    assert Edge0(t, t.v0.x, t.v0.y) == Denom(t) && Edge1(t, t.v0.x, t.v0.y) == 0;
    assert Edge0(t, t.v1.x, t.v1.y) == 0 && Edge1(t, t.v1.x, t.v1.y) == Denom(t);
    assert Edge0(t, t.v2.x, t.v2.y) == 0 && Edge1(t, t.v2.x, t.v2.y) == 0;
    assert d / d == 1.0;
    assert 0.0 / d == 0.0;
  }

  // ---------------------------------------------------------------------------
  // Winding independence

  lemma SwapEdges(t: Triangle, x: int, y: int)
    ensures Denom(Swap(t)) == -Denom(t)
    ensures Edge0(Swap(t), x, y) == -Edge0(t, x, y)
    ensures Edge1(Swap(t), x, y) == -Edge2(t, x, y)
  {
    Edge2IsEdge(t, x, y);
  }

  lemma RotateEdges(t: Triangle, x: int, y: int)
    ensures Denom(Rotate(t)) == Denom(t)
    ensures Edge0(Rotate(t), x, y) == Edge1(t, x, y)
    ensures Edge1(Rotate(t), x, y) == Edge2(t, x, y)
  {
    Edge2IsEdge(t, x, y);
  }

  lemma NegatedQuotient(e: int, d: int)
    requires d != 0
    ensures (-e) as real / (-d) as real == e as real / d as real
  {
    var q := e as real / d as real;
    assert q * ((-d) as real) == (-e) as real;
  }

  /** Exchanging v1 and v2 negates the area and every edge value, so the weights
      of v1 and v2 trade places and the weight of v0 is kept. */
  lemma SwapWeights(t: Triangle, x: int, y: int)
    requires Denom(t) != 0
    ensures Denom(Swap(t)) != 0
    ensures W0(Swap(t), x, y) == W0(t, x, y)
    ensures W1(Swap(t), x, y) == W2(t, x, y)
    ensures W2(Swap(t), x, y) == W1(t, x, y)
  {
    SwapEdges(t, x, y);
    NegatedQuotient(Edge0(t, x, y), Denom(t));
    NegatedQuotient(Edge2(t, x, y), Denom(t));
    W2IsQuotient(t, x, y);
  }

  /** Starting from the next vertex shifts the weights by one. */
  lemma RotateWeights(t: Triangle, x: int, y: int)
    requires Denom(t) != 0
    ensures Denom(Rotate(t)) != 0
    ensures W0(Rotate(t), x, y) == W1(t, x, y)
    ensures W1(Rotate(t), x, y) == W2(t, x, y)
    ensures W2(Rotate(t), x, y) == W0(t, x, y)
  {
    RotateEdges(t, x, y);
    W2IsQuotient(t, x, y);
  }

  /** The opposite winding covers the same pixels with the same depths. */
  lemma SwapCovers(t: Triangle, w: int, h: int, x: int, y: int)
    ensures Covers(Swap(t), w, h, x, y) <==> Covers(t, w, h, x, y)
    ensures Covers(t, w, h, x, y) ==> Depth(Swap(t), x, y) == Depth(t, x, y)
  {
    SwapEdges(t, x, y);
    DegenerateIffZeroArea(t);
    DegenerateIffZeroArea(Swap(t));
    assert InBox(Swap(t), w, h, x, y) == InBox(t, w, h, x, y);
    if Denom(t) != 0 {
      SwapWeights(t, x, y);
      DepthOfWeights(Swap(t), x, y, W0(t, x, y), W2(t, x, y), W1(t, x, y));
    }
  }

  /** Starting from another vertex covers the same pixels with the same depths. */
  lemma RotateCovers(t: Triangle, w: int, h: int, x: int, y: int)
    ensures Covers(Rotate(t), w, h, x, y) <==> Covers(t, w, h, x, y)
    ensures Covers(t, w, h, x, y) ==> Depth(Rotate(t), x, y) == Depth(t, x, y)
  {
    RotateEdges(t, x, y);
    DegenerateIffZeroArea(t);
    DegenerateIffZeroArea(Rotate(t));
    assert InBox(Rotate(t), w, h, x, y) == InBox(t, w, h, x, y);
    if Denom(t) != 0 {
      RotateWeights(t, x, y);
      DepthOfWeights(Rotate(t), x, y, W1(t, x, y), W2(t, x, y), W0(t, x, y));
    }
  }

  /** Reversing the vertex order (clockwise against counter-clockwise) covers the
      same pixels with the same depths. */
  lemma ReverseCovers(t: Triangle, w: int, h: int, x: int, y: int)
    ensures Covers(Reverse(t), w, h, x, y) <==> Covers(t, w, h, x, y)
    ensures Covers(t, w, h, x, y) ==> Depth(Reverse(t), x, y) == Depth(t, x, y)
  {
    assert Reverse(t) == Rotate(Swap(t));
    SwapCovers(t, w, h, x, y);
    RotateCovers(Swap(t), w, h, x, y);
  }

  // ---------------------------------------------------------------------------
  // 32-bit arithmetic

  /** Within CoordLimit, denom and the edge values at any pixel of the box fit
      in a 32-bit int, and so does every product and difference forming them. */
  lemma EdgeValuesFitInt32(t: Triangle, x: int, y: int)
    requires InCoordRange(t)
    requires Min3(t.v0.x, t.v1.x, t.v2.x) <= x <= Max3(t.v0.x, t.v1.x, t.v2.x)
    requires Min3(t.v0.y, t.v1.y, t.v2.y) <= y <= Max3(t.v0.y, t.v1.y, t.v2.y)
    ensures IsInt32(Denom(t)) && IsInt32(Edge0(t, x, y)) && IsInt32(Edge1(t, x, y))
    ensures IsInt32((t.v1.y - t.v2.y) * (x - t.v2.x)) && IsInt32((t.v2.x - t.v1.x) * (y - t.v2.y))
    ensures IsInt32((t.v2.y - t.v0.y) * (x - t.v2.x)) && IsInt32((t.v0.x - t.v2.x) * (y - t.v2.y))
    ensures IsInt32((t.v1.y - t.v2.y) * (t.v0.x - t.v2.x)) && IsInt32((t.v2.x - t.v1.x) * (t.v0.y - t.v2.y))
  {
    TwoProductsFit(t.v1.y - t.v2.y, t.v0.x - t.v2.x, t.v2.x - t.v1.x, t.v0.y - t.v2.y);
    TwoProductsFit(t.v1.y - t.v2.y, x - t.v2.x, t.v2.x - t.v1.x, y - t.v2.y);
    TwoProductsFit(t.v2.y - t.v0.y, x - t.v2.x, t.v0.x - t.v2.x, y - t.v2.y);
  }

  /** Two products of differences of in-range coordinates, and their sum, fit in
      a 32-bit int. */
  lemma TwoProductsFit(a: int, b: int, c: int, d: int)
    requires -2 * CoordLimit <= a <= 2 * CoordLimit && -2 * CoordLimit <= b <= 2 * CoordLimit
    requires -2 * CoordLimit <= c <= 2 * CoordLimit && -2 * CoordLimit <= d <= 2 * CoordLimit
    ensures IsInt32(a * b) && IsInt32(c * d) && IsInt32(a * b + c * d)
  {
    ProductBound(a, b, 2 * CoordLimit);
    ProductBound(c, d, 2 * CoordLimit);
  }

  lemma ProductBound(a: int, b: int, L: int)
    requires 0 <= L && -L <= a <= L && -L <= b <= L
    ensures -(L * L) <= a * b <= L * L
  {
    var p := if a < 0 then -a else a;
    var q := if b < 0 then -b else b;
    NonNegativeProductBound(p, q, L);
    assert a * b == p * q || a * b == -(p * q);
  }

  lemma NonNegativeProductBound(p: int, q: int, L: int)
    requires 0 <= p <= L && 0 <= q <= L
    ensures 0 <= p * q <= L * L
  {
    assert p * q <= L * q;
    assert L * q <= L * L;
  }
}

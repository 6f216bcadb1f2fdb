/** Three-component vector algebra of the renderer (src/vector3D.cpp).
    Components are mathematical reals: single-precision rounding is not modelled.
    The square root is not built in, so the magnitude takes it as a parameter,
    constrained by IsSqrt. */
module Vectors {

  datatype Vector3D = Vector3D(x: real, y: real, z: real)

  /** What the default constructor builds. */
  const Origin: Vector3D := Vector3D(0.0, 0.0, 0.0)

  /** `sqrt` behaves as the non-negative square root on non-negative reals. */
  ghost predicate IsSqrt(sqrt: real -> real) {
    forall v: real :: 0.0 <= v ==> 0.0 <= sqrt(v) && sqrt(v) * sqrt(v) == v
  }

  function Add(a: Vector3D, b: Vector3D): Vector3D {
    Vector3D(a.x + b.x, a.y + b.y, a.z + b.z)
  }

  /** Subtraction undoes addition of the same vector. */
  function Sub(a: Vector3D, b: Vector3D): (r: Vector3D)
    ensures Add(r, b) == a
  {
    Vector3D(a.x - b.x, a.y - b.y, a.z - b.z)
  }

  function Scale(v: Vector3D, s: real): Vector3D {
    Vector3D(v.x * s, v.y * s, v.z * s)
  }

  /** Division by a scalar; scaling back by the same scalar recovers the vector. */
  function Div(v: Vector3D, s: real): (r: Vector3D)
    requires s != 0.0
    ensures Scale(r, s) == v
  {
    Vector3D(v.x / s, v.y / s, v.z / s)
  }

  function Dot(a: Vector3D, b: Vector3D): real {
    a.x * b.x + a.y * b.y + a.z * b.z
  }

  /** The cross product is orthogonal to both of its arguments. */
  function Cross(a: Vector3D, b: Vector3D): (r: Vector3D)
    ensures Dot(a, r) == 0.0 && Dot(b, r) == 0.0
  {
    Vector3D(a.y * b.z - a.z * b.y,
             a.z * b.x - a.x * b.z,
             a.x * b.y - a.y * b.x)
  }

  /** The Euclidean norm: non-negative, its square is the vector dotted with
      itself, and it is positive for every vector but the origin. */
  function Magnitude(v: Vector3D, sqrt: real -> real): (r: real)
    requires IsSqrt(sqrt)
    ensures 0.0 <= r && r * r == Dot(v, v)
    ensures v != Origin ==> 0.0 < r
  {
    var sq := v.x * v.x + v.y * v.y + v.z * v.z;
    DotSelfNonNegative(v);
    assert 0.0 <= sqrt(sq) && sqrt(sq) * sqrt(sq) == sq;
    if v == Origin then
      sqrt(sq)
    else
      DotSelfPositive(v);
      PositiveRoot(sqrt(sq), sq);
      sqrt(sq)
  }

  /** The unit vector in the direction of v. A zero magnitude gives the origin,
      so the origin normalizes to itself. */
  function Normalize(v: Vector3D, sqrt: real -> real): (r: Vector3D)
    requires IsSqrt(sqrt)
    ensures Magnitude(v, sqrt) == 0.0 ==> r == Origin
    ensures v == Origin ==> r == Origin
    ensures v != Origin ==> Scale(r, Magnitude(v, sqrt)) == v
  {
    var mag := Magnitude(v, sqrt);
    if mag > 0.0 then Div(v, mag) else Origin
  }

  lemma AddThenSub(a: Vector3D, b: Vector3D)
    ensures Sub(Add(a, b), b) == a
  {
  }

  lemma AddCommutes(a: Vector3D, b: Vector3D)
    ensures Add(a, b) == Add(b, a)
  {
  }

  lemma OriginIsNeutral(v: Vector3D)
    ensures Add(v, Origin) == v && Sub(v, v) == Origin && Scale(v, 0.0) == Origin
  {
  }

  lemma DivUndoesScale(v: Vector3D, s: real)
    requires s != 0.0
    ensures Div(Scale(v, s), s) == v
  {
  }

  lemma DotCommutes(a: Vector3D, b: Vector3D)
    ensures Dot(a, b) == Dot(b, a)
  {
  }

  lemma DotSelfNonNegative(v: Vector3D)
    ensures 0.0 <= Dot(v, v)
  {
    calc {
      Dot(v, v);
    ==
      v.x * v.x + v.y * v.y + v.z * v.z;
    >=  { SquareNonNegative(v.x); SquareNonNegative(v.y); SquareNonNegative(v.z); }
      0.0;
    }
  }

  /** Only the origin has a zero square length. */
  lemma DotSelfPositive(v: Vector3D)
    requires v != Origin
    ensures 0.0 < Dot(v, v)
  {
    assert v.x != 0.0 || v.y != 0.0 || v.z != 0.0 by {
      assert v == Vector3D(v.x, v.y, v.z);
    }
    SquareNonNegative(v.x);
    SquareNonNegative(v.y);
    SquareNonNegative(v.z);
    if v.x != 0.0 {
      SquarePositive(v.x);
    } else if v.y != 0.0 {
      SquarePositive(v.y);
    } else {
      SquarePositive(v.z);
    }
    calc {
      Dot(v, v);
    ==
      v.x * v.x + v.y * v.y + v.z * v.z;
    >
      0.0;
    }
  }

  lemma PositiveRoot(m: real, sq: real)
    requires 0.0 <= m && m * m == sq && 0.0 < sq
    ensures 0.0 < m
  {
    assert 0.0 < m * m;
    assert m != 0.0;
  }

  lemma UnitRoot(m: real)
    requires 0.0 <= m && m * m == 1.0
    ensures m == 1.0
  {
    SquareMonotone(m);
  }

  lemma SquareMonotone(m: real)
    requires 0.0 <= m
    ensures m < 1.0 ==> m * m < 1.0
    ensures 1.0 < m ==> 1.0 < m * m
  {
    if m < 1.0 {
      assert m * m <= m * 1.0;
    }
    if 1.0 < m {
      assert m * 1.0 < m * m;
    }
  }

  lemma SquarePositive(a: real)
    requires a != 0.0
    ensures 0.0 < a * a
  {
    if a < 0.0 {
      assert a * a == (-a) * (-a);
    }
  }

  lemma SquareNonNegative(a: real)
    ensures 0.0 <= a * a
  {
    if a != 0.0 {
      SquarePositive(a);
    }
  }

  lemma CrossAntiCommutes(a: Vector3D, b: Vector3D)
    ensures Cross(a, b) == Scale(Cross(b, a), -1.0)
  {
  }

  lemma CrossSelfIsOrigin(a: Vector3D)
    ensures Cross(a, a) == Origin
  {
  }

  /** A normalized non-zero vector has length one. */
  lemma NormalizeIsUnit(v: Vector3D, sqrt: real -> real)
    requires IsSqrt(sqrt)
    requires v != Origin
    ensures Magnitude(Normalize(v, sqrt), sqrt) == 1.0
  {
    var mag := Magnitude(v, sqrt);
    var n := Normalize(v, sqrt);
    assert Scale(n, mag) == v && mag * mag == Dot(v, v);
    DotOfScaled(n, mag, v);
    SquarePositive(mag);
    CancelSquare(Dot(n, n), mag * mag, Dot(v, v));
    UnitRoot(Magnitude(n, sqrt));
  }

  /** Scaling a vector by m scales its square length by m * m. */
  lemma DotOfScaled(n: Vector3D, m: real, v: Vector3D)
    requires Scale(n, m) == v
    ensures Dot(n, n) * (m * m) == Dot(v, v)
  {
    SquareOfProduct(n.x, m, v.x);
    SquareOfProduct(n.y, m, v.y);
    SquareOfProduct(n.z, m, v.z);
  }

  lemma SquareOfProduct(a: real, m: real, b: real)
    requires a * m == b
    ensures (a * a) * (m * m) == b * b
  {
  }

  lemma CancelSquare(d: real, q: real, s: real)
    requires 0.0 < q && d * q == s && s == q
    ensures d == 1.0
  {
    assert (d - 1.0) * q == 0.0;
  }
}

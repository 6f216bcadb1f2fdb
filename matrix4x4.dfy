/** 4x4 homogeneous transforms (src/matrix4x4.cpp). A matrix is a value: four
    rows of four reals, indexed m[row][column] as in the C++ struct. The angle
    of a rotation enters only through its cosine c and sine s, which the caller
    supplies. */
module Matrices {
  import opened Vectors

  type Row = r: seq<real> | |r| == 4 witness [0.0, 0.0, 0.0, 0.0]
  const ZeroRow: Row := [0.0, 0.0, 0.0, 0.0]
  type Matrix4x4 = m: seq<Row> | |m| == 4 witness [ZeroRow, ZeroRow, ZeroRow, ZeroRow]

  /** What the default constructor builds: every entry zero. */
  function Zero(): (r: Matrix4x4)
    ensures forall i, j :: 0 <= i < 4 && 0 <= j < 4 ==> r[i][j] == 0.0
  {
    [ZeroRow, ZeroRow, ZeroRow, ZeroRow]
  }

  function IdentityMatrix(): (r: Matrix4x4)
    ensures forall i, j :: 0 <= i < 4 && 0 <= j < 4 ==> r[i][j] == if i == j then 1.0 else 0.0
  {
    [[1.0, 0.0, 0.0, 0.0], [0.0, 1.0, 0.0, 0.0], [0.0, 0.0, 1.0, 0.0], [0.0, 0.0, 0.0, 1.0]]
  }

  /** The matrix after the assignment m[i][j] = v. */
  function With(m: Matrix4x4, i: int, j: int, v: real): (r: Matrix4x4)
    requires 0 <= i < 4 && 0 <= j < 4
    ensures r[i][j] == v
    ensures forall p, q :: 0 <= p < 4 && 0 <= q < 4 && (p != i || q != j) ==> r[p][q] == m[p][q]
  {
    m[i := m[i][j := v]]
  }

  /** Matrix4x4::identity: starts from the zero matrix and sets the diagonal. */
  method Identity() returns (result: Matrix4x4)
    ensures result == IdentityMatrix()
  {
    result := Zero();
    for i := 0 to 4
      invariant forall p, q :: 0 <= p < 4 && 0 <= q < 4 ==>
        result[p][q] == if p == q && p < i then 1.0 else 0.0
    {
      result := With(result, i, i, 1.0);
    }
    assert forall p :: 0 <= p < 4 ==> result[p] == IdentityMatrix()[p];
  }

  /** Rotation about the x axis by the angle whose cosine is c and sine is s. */
  function RotationX(c: real, s: real): (r: Matrix4x4)
    ensures r[1][1] == c && r[1][2] == -s && r[2][1] == s && r[2][2] == c
    ensures forall i, j :: 0 <= i < 4 && 0 <= j < 4 && !(1 <= i <= 2 && 1 <= j <= 2) ==>
      r[i][j] == IdentityMatrix()[i][j]
  {
    With(With(With(With(IdentityMatrix(), 1, 1, c), 1, 2, -s), 2, 1, s), 2, 2, c)
  }

  /** Rotation about the y axis; the sine sits above the diagonal in row 0. */
  function RotationY(c: real, s: real): (r: Matrix4x4)
    ensures r[0][0] == c && r[0][2] == s && r[2][0] == -s && r[2][2] == c
    ensures forall i, j :: 0 <= i < 4 && 0 <= j < 4 && !(i in {0, 2} && j in {0, 2}) ==>
      r[i][j] == IdentityMatrix()[i][j]
  {
    With(With(With(With(IdentityMatrix(), 0, 0, c), 0, 2, s), 2, 0, -s), 2, 2, c)
  }

  /** Rotation about the z axis. */
  function RotationZ(c: real, s: real): (r: Matrix4x4)
    ensures r[0][0] == c && r[0][1] == -s && r[1][0] == s && r[1][1] == c
    ensures forall i, j :: 0 <= i < 4 && 0 <= j < 4 && !(0 <= i <= 1 && 0 <= j <= 1) ==>
      r[i][j] == IdentityMatrix()[i][j]
  {
    With(With(With(With(IdentityMatrix(), 0, 0, c), 0, 1, -s), 1, 0, s), 1, 1, c)
  }

  /** Translation by (x, y, z): the identity with the offset in column 3. */
  function Translation(x: real, y: real, z: real): (r: Matrix4x4)
    ensures r[0][3] == x && r[1][3] == y && r[2][3] == z
    ensures forall i, j :: 0 <= i < 4 && 0 <= j < 4 && !(i < 3 && j == 3) ==>
      r[i][j] == IdentityMatrix()[i][j]
  {
    With(With(With(IdentityMatrix(), 0, 3, x), 1, 3, y), 2, 3, z)
  }

  /** a[i][0]*b[0][j] + ... + a[i][n-1]*b[n-1][j], summed in the order of the loop over k. */
  function RowCol(a: Matrix4x4, b: Matrix4x4, i: int, j: int, n: nat): real
    requires 0 <= i < 4 && 0 <= j < 4 && n <= 4
  {
    if n == 0 then 0.0 else RowCol(a, b, i, j, n - 1) + a[i][n - 1] * b[n - 1][j]
  }

  /** The matrix product of operator*, entry by entry. */
  function Mul(a: Matrix4x4, b: Matrix4x4): Matrix4x4 {
    seq(4, i requires 0 <= i < 4 =>
      seq(4, j requires 0 <= j < 4 => RowCol(a, b, i, j, 4)))
  }

  /** Matrix4x4::operator*: the triple loop accumulating into result.m[i][j]. */
  method Multiply(a: Matrix4x4, b: Matrix4x4) returns (result: Matrix4x4)
    ensures result == Mul(a, b)
  {
    result := Zero();
    for i := 0 to 4
      invariant forall p, q :: 0 <= p < 4 && 0 <= q < 4 ==>
        result[p][q] == if p < i then Mul(a, b)[p][q] else 0.0
    {
      for j := 0 to 4
        invariant forall p, q :: 0 <= p < 4 && 0 <= q < 4 ==>
          result[p][q] == if p < i || (p == i && q < j) then Mul(a, b)[p][q] else 0.0
      {
        result := With(result, i, j, 0.0);
        for k := 0 to 4
          invariant result[i][j] == RowCol(a, b, i, j, k)
          invariant forall p, q :: 0 <= p < 4 && 0 <= q < 4 && (p != i || q != j) ==>
            result[p][q] == if p < i || (p == i && q < j) then Mul(a, b)[p][q] else 0.0
        {
          result := With(result, i, j, result[i][j] + a[i][k] * b[k][j]);
        }
      }
    }
    assert forall p :: 0 <= p < 4 ==> result[p] == Mul(a, b)[p];
  }

  /** Row i of m applied to the homogeneous point (v.x, v.y, v.z, 1). */
  function Homogeneous(m: Matrix4x4, i: int, v: Vector3D): real
    requires 0 <= i < 4
  {
    m[i][0] * v.x + m[i][1] * v.y + m[i][2] * v.z + m[i][3]
  }

  /** Matrix4x4::transform: the perspective divide by w, with w == 0 read as 1.
      Multiplying the result back by a non-zero w recovers the homogeneous
      coordinates, and a zero w leaves them undivided. */
  function Transform(m: Matrix4x4, v: Vector3D): (r: Vector3D)
    ensures Homogeneous(m, 3, v) != 0.0 ==>
      Scale(r, Homogeneous(m, 3, v)) == Vector3D(Homogeneous(m, 0, v), Homogeneous(m, 1, v), Homogeneous(m, 2, v))
    ensures Homogeneous(m, 3, v) == 0.0 ==>
      r == Vector3D(Homogeneous(m, 0, v), Homogeneous(m, 1, v), Homogeneous(m, 2, v))
  {
    var w := m[3][0] * v.x + m[3][1] * v.y + m[3][2] * v.z + m[3][3];
    var w := if w == 0.0 then 1.0 else w;
    Vector3D((m[0][0] * v.x + m[0][1] * v.y + m[0][2] * v.z + m[0][3]) / w,
             (m[1][0] * v.x + m[1][1] * v.y + m[1][2] * v.z + m[1][3]) / w,
             (m[2][0] * v.x + m[2][1] * v.y + m[2][2] * v.z + m[2][3]) / w)
  }

  /** A matrix whose last row is (0, 0, 0, 1): it never changes w. */
  predicate IsAffine(m: Matrix4x4) {
    m[3] == [0.0, 0.0, 0.0, 1.0]
  }

  /** Each entry of the product is the sum over k of m[i][k] * other[k][j]. */
  lemma MulEntry(a: Matrix4x4, b: Matrix4x4, i: int, j: int)
    requires 0 <= i < 4 && 0 <= j < 4
    ensures Mul(a, b)[i][j] == a[i][0] * b[0][j] + a[i][1] * b[1][j] + a[i][2] * b[2][j] + a[i][3] * b[3][j]
  {
    calc {
      Mul(a, b)[i][j];
    ==
      RowCol(a, b, i, j, 4);
    ==
      RowCol(a, b, i, j, 3) + a[i][3] * b[3][j];
    ==
      RowCol(a, b, i, j, 2) + a[i][2] * b[2][j] + a[i][3] * b[3][j];
    ==
      RowCol(a, b, i, j, 1) + a[i][1] * b[1][j] + a[i][2] * b[2][j] + a[i][3] * b[3][j];
    ==
      a[i][0] * b[0][j] + a[i][1] * b[1][j] + a[i][2] * b[2][j] + a[i][3] * b[3][j];
    }
  }

  lemma IdentityLeftUnit(a: Matrix4x4)
    ensures Mul(IdentityMatrix(), a) == a
  {
    forall i, j | 0 <= i < 4 && 0 <= j < 4
      ensures Mul(IdentityMatrix(), a)[i][j] == a[i][j]
    {
      MulEntry(IdentityMatrix(), a, i, j);
    }
    assert forall i :: 0 <= i < 4 ==> Mul(IdentityMatrix(), a)[i] == a[i];
  }

  lemma IdentityRightUnit(a: Matrix4x4)
    ensures Mul(a, IdentityMatrix()) == a
  {
    forall i, j | 0 <= i < 4 && 0 <= j < 4
      ensures Mul(a, IdentityMatrix())[i][j] == a[i][j]
    {
      MulEntry(a, IdentityMatrix(), i, j);
    }
    assert forall i :: 0 <= i < 4 ==> Mul(a, IdentityMatrix())[i] == a[i];
  }

  /** Products of affine matrices are affine. */
  lemma MulPreservesAffine(a: Matrix4x4, b: Matrix4x4)
    requires IsAffine(a) && IsAffine(b)
    ensures IsAffine(Mul(a, b))
  {
    forall j | 0 <= j < 4
      ensures Mul(a, b)[3][j] == [0.0, 0.0, 0.0, 1.0][j]
    {
      MulEntry(a, b, 3, j);
    }
  }

  /** For an affine matrix w is 1, so transform is the plain affine product. */
  lemma TransformAffine(m: Matrix4x4, v: Vector3D)
    requires IsAffine(m)
    ensures Transform(m, v) == Vector3D(Homogeneous(m, 0, v), Homogeneous(m, 1, v), Homogeneous(m, 2, v))
  {
    assert Homogeneous(m, 3, v) == 1.0;
  }

  lemma TranslationMoves(x: real, y: real, z: real, v: Vector3D)
    ensures Transform(Translation(x, y, z), v) == Add(v, Vector3D(x, y, z))
  {
    TransformAffine(Translation(x, y, z), v);
  }

  /** Rotating about x keeps the x component. */
  lemma RotationXAction(c: real, s: real, v: Vector3D)
    ensures Transform(RotationX(c, s), v) == Vector3D(v.x, c * v.y - s * v.z, s * v.y + c * v.z)
  {
    TransformAffine(RotationX(c, s), v);
  }

  /** Rotating about y keeps the y component. */
  lemma RotationYAction(c: real, s: real, v: Vector3D)
    ensures Transform(RotationY(c, s), v) == Vector3D(c * v.x + s * v.z, v.y, -s * v.x + c * v.z)
  {
    TransformAffine(RotationY(c, s), v);
  }

  /** Rotating about z keeps the z component. */
  lemma RotationZAction(c: real, s: real, v: Vector3D)
    ensures Transform(RotationZ(c, s), v) == Vector3D(c * v.x - s * v.y, s * v.x + c * v.y, v.z)
  {
    TransformAffine(RotationZ(c, s), v);
  }
}

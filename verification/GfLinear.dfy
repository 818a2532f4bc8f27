/**
 The vectors, ranges and 4x4 matrices that pxr/base/gf/bbox3d.cpp works with, over exact
 reals.  Vectors are row vectors: the last row of a matrix is its translation.
 */
module GfLinear {

  datatype Vec3 = Vec3(x: real, y: real, z: real) {
    function At(i: nat): real
      requires i < 3
    {
      if i == 0 then x else if i == 1 then y else z
    }

    function With(i: nat, r: real): Vec3
      requires i < 3
    {
      if i == 0 then this.(x := r) else if i == 1 then this.(y := r) else this.(z := r)
    }
  }

  // ---------------------------------------------------------------- ranges

  datatype Range3 = Range3(min: Vec3, max: Vec3) {
    /** A range is empty if it is turned around in any dimension. */
    predicate IsEmpty() {
      min.x > max.x || min.y > max.y || min.z > max.z
    }

    predicate Contains(p: Vec3) {
      min.x <= p.x <= max.x && min.y <= p.y <= max.y && min.z <= p.z <= max.z
    }
  }

  function Min(a: real, b: real): real {
    if b < a then b else a
  }

  function Max(a: real, b: real): real {
    if b > a then b else a
  }

  function Abs(a: real): real {
    if a < 0.0 then -a else a
  }

  /** GfRange3d::GetUnion: the componentwise extremes, whether or not a range is empty. */
  function Union(a: Range3, b: Range3): Range3 {
    Range3(Vec3(Min(a.min.x, b.min.x), Min(a.min.y, b.min.y), Min(a.min.z, b.min.z)),
           Vec3(Max(a.max.x, b.max.x), Max(a.max.y, b.max.y), Max(a.max.z, b.max.z)))
  }

  // ---------------------------------------------------------------- matrices

  datatype Vec4 = Vec4(x: real, y: real, z: real, w: real) {
    function At(i: nat): real
      requires i < 4
    {
      if i == 0 then x else if i == 1 then y else if i == 2 then z else w
    }
  }

  /** The rows of a matrix. */
  datatype Matrix = Matrix(r0: Vec4, r1: Vec4, r2: Vec4, r3: Vec4) {
    function At(i: nat, j: nat): real
      requires i < 4 && j < 4
    {
      Row(i).At(j)
    }

    function Row(i: nat): Vec4
      requires i < 4
    {
      if i == 0 then r0 else if i == 1 then r1 else if i == 2 then r2 else r3
    }

    function ColX(): Vec4 { Vec4(r0.x, r1.x, r2.x, r3.x) }
    function ColY(): Vec4 { Vec4(r0.y, r1.y, r2.y, r3.y) }
    function ColZ(): Vec4 { Vec4(r0.z, r1.z, r2.z, r3.z) }
    function ColW(): Vec4 { Vec4(r0.w, r1.w, r2.w, r3.w) }

    predicate IsAffine() {
      r0.w == 0.0 && r1.w == 0.0 && r2.w == 0.0 && r3.w == 1.0
    }

    /** The determinant of the upper left 3x3 matrix. */
    function Determinant3(): real {
      r0.x * r1.y * r2.z + r0.y * r1.z * r2.x + r0.z * r1.x * r2.y
      - r0.x * r1.z * r2.y - r0.y * r1.x * r2.z - r0.z * r1.y * r2.x
    }
  }

  const IDENTITY := Scaling(1.0)

  function Scaling(s: real): Matrix {
    Matrix(Vec4(s, 0.0, 0.0, 0.0), Vec4(0.0, s, 0.0, 0.0), Vec4(0.0, 0.0, s, 0.0), Vec4(0.0, 0.0, 0.0, 1.0))
  }

  function Dot(v: Vec4, u: Vec4): real {
    v.x * u.x + v.y * u.y + v.z * u.z + v.w * u.w
  }

  /** A row vector times a matrix. */
  function RowMul(v: Vec4, m: Matrix): Vec4 {
    Vec4(Dot(v, m.ColX()), Dot(v, m.ColY()), Dot(v, m.ColZ()), Dot(v, m.ColW()))
  }

  function Mul(a: Matrix, b: Matrix): Matrix {
    Matrix(RowMul(a.r0, b), RowMul(a.r1, b), RowMul(a.r2, b), RowMul(a.r3, b))
  }

  /** Where an affine matrix takes a point. */
  function Apply(m: Matrix, p: Vec3): Vec3 {
    var q := RowMul(Vec4(p.x, p.y, p.z, 1.0), m);
    Vec3(q.x, q.y, q.z)
  }

  function Scale(v: Vec4, s: real): Vec4 {
    Vec4(v.x * s, v.y * s, v.z * s, v.w * s)
  }

  function ScaleRows(m: Matrix, s: real): Matrix {
    Matrix(Scale(m.r0, s), Scale(m.r1, s), Scale(m.r2, s), Scale(m.r3, s))
  }

  /** The transposed cofactors, with the 2x2 determinants that GfMatrix4d::GetInverse shares between them. */
  function Adjugate(m: Matrix): Matrix {
    // of the first two columns
    var y01 := m.r0.x * m.r1.y - m.r1.x * m.r0.y;
    var y02 := m.r0.x * m.r2.y - m.r2.x * m.r0.y;
    var y03 := m.r0.x * m.r3.y - m.r3.x * m.r0.y;
    var y12 := m.r1.x * m.r2.y - m.r2.x * m.r1.y;
    var y13 := m.r1.x * m.r3.y - m.r3.x * m.r1.y;
    var y23 := m.r2.x * m.r3.y - m.r3.x * m.r2.y;
    // of the last two columns
    var w01 := m.r0.z * m.r1.w - m.r1.z * m.r0.w;
    var w02 := m.r0.z * m.r2.w - m.r2.z * m.r0.w;
    var w03 := m.r0.z * m.r3.w - m.r3.z * m.r0.w;
    var w12 := m.r1.z * m.r2.w - m.r2.z * m.r1.w;
    var w13 := m.r1.z * m.r3.w - m.r3.z * m.r1.w;
    var w23 := m.r2.z * m.r3.w - m.r3.z * m.r2.w;
    Matrix(
      Vec4(m.r1.y * w23 - m.r2.y * w13 + m.r3.y * w12,
           m.r2.y * w03 - m.r3.y * w02 - m.r0.y * w23,
           m.r0.y * w13 - m.r1.y * w03 + m.r3.y * w01,
           m.r1.y * w02 - m.r2.y * w01 - m.r0.y * w12),
      Vec4(m.r2.x * w13 - m.r3.x * w12 - m.r1.x * w23,
           m.r0.x * w23 - m.r2.x * w03 + m.r3.x * w02,
           m.r1.x * w03 - m.r3.x * w01 - m.r0.x * w13,
           m.r0.x * w12 - m.r1.x * w02 + m.r2.x * w01),
      Vec4(m.r1.w * y23 - m.r2.w * y13 + m.r3.w * y12,
           m.r2.w * y03 - m.r3.w * y02 - m.r0.w * y23,
           m.r0.w * y13 - m.r1.w * y03 + m.r3.w * y01,
           m.r1.w * y02 - m.r2.w * y01 - m.r0.w * y12),
      Vec4(m.r2.z * y13 - m.r3.z * y12 - m.r1.z * y23,
           m.r0.z * y23 - m.r2.z * y03 + m.r3.z * y02,
           m.r1.z * y03 - m.r3.z * y01 - m.r0.z * y13,
           m.r0.z * y12 - m.r1.z * y02 + m.r2.z * y01))
  }

  function Determinant(m: Matrix): real {
    var a := Adjugate(m).r0;
    m.r3.x * a.w + m.r2.x * a.z + m.r1.x * a.y + m.r0.x * a.x
  }

  const FLT_MAX := 340282346638528859811704183484516925440.0

  /** GfMatrix4d::GetInverse. */
  function Inverse(m: Matrix, eps: real): Matrix
    requires eps >= 0.0
  {
    var a, det := Adjugate(m), Determinant(m);
    if Abs(det) > eps then
      ScaleRows(a, 1.0 / det)
    else
      Scaling(FLT_MAX)
  }

  // ---------------------------------------------------------------- laws

  /** A row times a matrix times a column. */
  function Form(v: Vec4, a: Matrix, b: Vec4): real {
    v.x * a.r0.x * b.x + v.x * a.r0.y * b.y + v.x * a.r0.z * b.z + v.x * a.r0.w * b.w
    + v.y * a.r1.x * b.x + v.y * a.r1.y * b.y + v.y * a.r1.z * b.z + v.y * a.r1.w * b.w
    + v.z * a.r2.x * b.x + v.z * a.r2.y * b.y + v.z * a.r2.z * b.z + v.z * a.r2.w * b.w
    + v.w * a.r3.x * b.x + v.w * a.r3.y * b.y + v.w * a.r3.z * b.z + v.w * a.r3.w * b.w
  }

  lemma RowFirst(v: Vec4, a: Matrix, b: Vec4, q: Vec4)
    requires q.x == v.x * a.r0.x + v.y * a.r1.x + v.z * a.r2.x + v.w * a.r3.x
    requires q.y == v.x * a.r0.y + v.y * a.r1.y + v.z * a.r2.y + v.w * a.r3.y
    requires q.z == v.x * a.r0.z + v.y * a.r1.z + v.z * a.r2.z + v.w * a.r3.z
    requires q.w == v.x * a.r0.w + v.y * a.r1.w + v.z * a.r2.w + v.w * a.r3.w
    ensures Dot(q, b) == Form(v, a, b)
  {
    assert q.x * b.x == v.x * a.r0.x * b.x + v.y * a.r1.x * b.x + v.z * a.r2.x * b.x + v.w * a.r3.x * b.x;
    assert q.y * b.y == v.x * a.r0.y * b.y + v.y * a.r1.y * b.y + v.z * a.r2.y * b.y + v.w * a.r3.y * b.y;
    assert q.z * b.z == v.x * a.r0.z * b.z + v.y * a.r1.z * b.z + v.z * a.r2.z * b.z + v.w * a.r3.z * b.z;
    assert q.w * b.w == v.x * a.r0.w * b.w + v.y * a.r1.w * b.w + v.z * a.r2.w * b.w + v.w * a.r3.w * b.w;
  }

  lemma ColumnFirst(v: Vec4, a: Matrix, b: Vec4, c: Vec4)
    requires c.x == a.r0.x * b.x + a.r0.y * b.y + a.r0.z * b.z + a.r0.w * b.w
    requires c.y == a.r1.x * b.x + a.r1.y * b.y + a.r1.z * b.z + a.r1.w * b.w
    requires c.z == a.r2.x * b.x + a.r2.y * b.y + a.r2.z * b.z + a.r2.w * b.w
    requires c.w == a.r3.x * b.x + a.r3.y * b.y + a.r3.z * b.z + a.r3.w * b.w
    ensures Dot(v, c) == Form(v, a, b)
  {
    assert v.x * c.x == v.x * a.r0.x * b.x + v.x * a.r0.y * b.y + v.x * a.r0.z * b.z + v.x * a.r0.w * b.w;
    assert v.y * c.y == v.y * a.r1.x * b.x + v.y * a.r1.y * b.y + v.y * a.r1.z * b.z + v.y * a.r1.w * b.w;
    assert v.z * c.z == v.z * a.r2.x * b.x + v.z * a.r2.y * b.y + v.z * a.r2.z * b.z + v.z * a.r2.w * b.w;
    assert v.w * c.w == v.w * a.r3.x * b.x + v.w * a.r3.y * b.y + v.w * a.r3.z * b.z + v.w * a.r3.w * b.w;
  }

  lemma BothBrackets(v: Vec4, a: Matrix, b: Vec4, q: Vec4, c: Vec4)
    requires q == RowMul(v, a) && c == Vec4(Dot(a.r0, b), Dot(a.r1, b), Dot(a.r2, b), Dot(a.r3, b))
    ensures Dot(q, b) == Dot(v, c)
  {
    RowFirst(v, a, b, q);
    ColumnFirst(v, a, b, c);
  }

  lemma RowMulMul(v: Vec4, a: Matrix, b: Matrix)
    ensures RowMul(RowMul(v, a), b) == RowMul(v, Mul(a, b))
  {
    var q, c := RowMul(v, a), Mul(a, b);
    BothBrackets(v, a, b.ColX(), q, c.ColX());
    BothBrackets(v, a, b.ColY(), q, c.ColY());
    BothBrackets(v, a, b.ColZ(), q, c.ColZ());
    BothBrackets(v, a, b.ColW(), q, c.ColW());
  }

  lemma ApplyMul(a: Matrix, b: Matrix, p: Vec3)
    requires a.IsAffine() && b.IsAffine()
    ensures Apply(Mul(a, b), p) == Apply(b, Apply(a, p)) && Mul(a, b).IsAffine()
  {
    RowMulMul(Vec4(p.x, p.y, p.z, 1.0), a, b);
  }

  /** The determinant of the matrix with these columns, by 2x2 minors of the first two and the last two. */
  function Det(x: Vec4, y: Vec4, z: Vec4, w: Vec4): real {
    (x.x * y.y - x.y * y.x) * (z.z * w.w - z.w * w.z) - (x.x * y.z - x.z * y.x) * (z.y * w.w - z.w * w.y)
    + (x.x * y.w - x.w * y.x) * (z.y * w.z - z.z * w.y) + (x.y * y.z - x.z * y.y) * (z.x * w.w - z.w * w.x)
    - (x.y * y.w - x.w * y.y) * (z.x * w.z - z.z * w.x) + (x.z * y.w - x.w * y.z) * (z.x * w.y - z.y * w.x)
  }

  lemma DetVanishes(u: Vec4, p: Vec4, q: Vec4)
    ensures Det(u, u, p, q) == 0.0 && Det(p, u, p, q) == 0.0 && Det(q, u, p, q) == 0.0
  {
  }

  lemma DetSwaps(x: Vec4, y: Vec4, z: Vec4, w: Vec4)
    ensures Det(x, y, z, w) == -Det(y, x, z, w) && Det(x, y, z, w) == Det(z, w, x, y) && Det(x, y, z, w) == -Det(w, z, x, y)
  {
  }

  /** A row of cofactors, from column u and the minors of p and q. */
  ghost predicate IsExpansion(k: Vec4, u: Vec4, p: Vec4, q: Vec4) {
    && k.x == u.y * (p.z * q.w - p.w * q.z) - u.z * (p.y * q.w - p.w * q.y) + u.w * (p.y * q.z - p.z * q.y)
    && k.y == u.z * (p.x * q.w - p.w * q.x) - u.w * (p.x * q.z - p.z * q.x) - u.x * (p.z * q.w - p.w * q.z)
    && k.z == u.x * (p.y * q.w - p.w * q.y) - u.y * (p.x * q.w - p.w * q.x) + u.w * (p.x * q.y - p.y * q.x)
    && k.w == u.y * (p.x * q.z - p.z * q.x) - u.z * (p.x * q.y - p.y * q.x) - u.x * (p.y * q.z - p.z * q.y)
  }

  /** Any column times it is a determinant. */
  lemma Expansion(c: Vec4, u: Vec4, p: Vec4, q: Vec4, k: Vec4)
    requires IsExpansion(k, u, p, q)
    ensures Dot(k, c) == Det(c, u, p, q)
  {
  }

  lemma ExpansionRow(u: Vec4, p: Vec4, q: Vec4, k: Vec4, c: Vec4)
    requires IsExpansion(k, u, p, q)
    ensures Dot(k, u) == 0.0 && Dot(k, p) == 0.0 && Dot(k, q) == 0.0 && Dot(k, c) == Det(c, u, p, q)
  {
    Expansion(u, u, p, q, k);
    Expansion(p, u, p, q, k);
    Expansion(q, u, p, q, k);
    Expansion(c, u, p, q, k);
    DetVanishes(u, p, q);
  }

  function Neg(k: Vec4): Vec4 {
    Vec4(-k.x, -k.y, -k.z, -k.w)
  }

  lemma NegExpansionRow(u: Vec4, p: Vec4, q: Vec4, k: Vec4, c: Vec4)
    requires IsExpansion(Neg(k), u, p, q)
    ensures Dot(k, u) == 0.0 && Dot(k, p) == 0.0 && Dot(k, q) == 0.0 && Dot(k, c) == -Det(c, u, p, q)
  {
    ExpansionRow(u, p, q, Neg(k), c);
    assert forall v :: Dot(Neg(k), v) == -Dot(k, v);
  }

  lemma AdjugateRow0(m: Matrix)
    ensures IsExpansion(Adjugate(m).r0, m.ColY(), m.ColZ(), m.ColW())
  {
  }

  lemma AdjugateRow1(m: Matrix)
    ensures IsExpansion(Neg(Adjugate(m).r1), m.ColX(), m.ColZ(), m.ColW())
  {
  }

  lemma AdjugateRow2(m: Matrix)
    ensures IsExpansion(Adjugate(m).r2, m.ColW(), m.ColX(), m.ColY())
  {
  }

  lemma AdjugateRow3(m: Matrix)
    ensures IsExpansion(Neg(Adjugate(m).r3), m.ColZ(), m.ColX(), m.ColY())
  {
  }

  /** The transposed cofactors times the matrix: the determinant on the diagonal. */
  lemma AdjugateTimes(m: Matrix)
    ensures var a, d := Adjugate(m), Determinant(m);
      && RowMul(a.r0, m) == Vec4(d, 0.0, 0.0, 0.0)
      && RowMul(a.r1, m) == Vec4(0.0, d, 0.0, 0.0)
      && RowMul(a.r2, m) == Vec4(0.0, 0.0, d, 0.0)
      && RowMul(a.r3, m) == Vec4(0.0, 0.0, 0.0, d)
  {
    var a, x, y, z, w := Adjugate(m), m.ColX(), m.ColY(), m.ColZ(), m.ColW();
    AdjugateRow0(m);
    AdjugateRow1(m);
    AdjugateRow2(m);
    AdjugateRow3(m);
    ExpansionRow(y, z, w, a.r0, x);
    NegExpansionRow(x, z, w, a.r1, y);
    ExpansionRow(w, x, y, a.r2, z);
    NegExpansionRow(z, x, y, a.r3, w);
    DetSwaps(x, y, z, w);
  }

  lemma DotScale(v: Vec4, u: Vec4, s: real)
    ensures Dot(Scale(v, s), u) == Dot(v, u) * s
  {
    assert v.x * s * u.x == v.x * u.x * s && v.y * s * u.y == v.y * u.y * s;
    assert v.z * s * u.z == v.z * u.z * s && v.w * s * u.w == v.w * u.w * s;
  }

  lemma RowMulScale(v: Vec4, m: Matrix, s: real)
    ensures RowMul(Scale(v, s), m) == Scale(RowMul(v, m), s)
  {
    DotScale(v, m.ColX(), s);
    DotScale(v, m.ColY(), s);
    DotScale(v, m.ColZ(), s);
    DotScale(v, m.ColW(), s);
  }

  lemma ScaleOf(v: Vec4, x: real, y: real, z: real, w: real, s: real)
    requires v.x == x && v.y == y && v.z == z && v.w == w
    ensures Scale(v, s) == Vec4(x * s, y * s, z * s, w * s)
  {
    assert v == Vec4(x, y, z, w);
  }

  lemma ScaledRowTimes(row: Vec4, m: Matrix, x: real, y: real, z: real, w: real, s: real)
    requires RowMul(row, m) == Vec4(x, y, z, w)
    ensures RowMul(Scale(row, s), m) == Vec4(x * s, y * s, z * s, w * s)
  {
    RowMulScale(row, m, s);
    ScaleOf(RowMul(row, m), x, y, z, w, s);
  }

  lemma ScaledRowsTimes(a: Matrix, m: Matrix, d: real, s: real)
    requires d * s == 1.0
    requires RowMul(a.r0, m) == Vec4(d, 0.0, 0.0, 0.0) && RowMul(a.r1, m) == Vec4(0.0, d, 0.0, 0.0)
    requires RowMul(a.r2, m) == Vec4(0.0, 0.0, d, 0.0) && RowMul(a.r3, m) == Vec4(0.0, 0.0, 0.0, d)
    ensures Mul(ScaleRows(a, s), m) == IDENTITY
  {
    ScaledRowTimes(a.r0, m, d, 0.0, 0.0, 0.0, s);
    ScaledRowTimes(a.r1, m, 0.0, d, 0.0, 0.0, s);
    ScaledRowTimes(a.r2, m, 0.0, 0.0, d, 0.0, s);
    ScaledRowTimes(a.r3, m, 0.0, 0.0, 0.0, d, s);
  }

  /** Unless the matrix is too close to singular, GetInverse is its inverse. */
  lemma InverseTimes(m: Matrix, eps: real)
    requires eps >= 0.0 && Abs(Determinant(m)) > eps
    ensures Mul(Inverse(m, eps), m) == IDENTITY
  {
    var det := Determinant(m);
    AdjugateTimes(m);
    assert det * (1.0 / det) == 1.0;
    ScaledRowsTimes(Adjugate(m), m, det, 1.0 / det);
  }

  lemma AffineAdjugate(m: Matrix)
    requires m.IsAffine()
    ensures Adjugate(m).r0.w == 0.0 && Adjugate(m).r1.w == 0.0 && Adjugate(m).r2.w == 0.0
    ensures Adjugate(m).r3.w == Determinant(m)
  {
  }

  /** The determinant that GetInverse finds is that of the upper left 3x3 matrix. */
  lemma DeterminantOfAffine(m: Matrix)
    requires m.IsAffine()
    ensures m.Determinant3() == Determinant(m)
  {
  }

  /** The determinant of three rows. */
  function Triple(u: Vec4, v: Vec4, w: Vec4): real {
    Matrix(u, v, w, w).Determinant3()
  }

  /** The first three components of a combination of three rows. */
  ghost predicate Combines(v: Vec4, x: real, y: real, z: real, m: Matrix) {
    && v.x == x * m.r0.x + y * m.r1.x + z * m.r2.x
    && v.y == x * m.r0.y + y * m.r1.y + z * m.r2.y
    && v.z == x * m.r0.z + y * m.r1.z + z * m.r2.z
  }

  /** The last row, by its cofactors. */
  function Cofactors(u: Vec4, v: Vec4): Vec3 {
    Vec3(u.y * v.z - u.z * v.y, u.z * v.x - u.x * v.z, u.x * v.y - u.y * v.x)
  }

  lemma TripleIs(u: Vec4, v: Vec4, w: Vec4)
    ensures var c := Cofactors(u, v);
      Triple(u, v, w) == c.x * w.x + c.y * w.y + c.z * w.z && Triple(u, v, w) == Triple(v, w, u)
  {
  }

  lemma Distributes(k: Vec3, x: real, y: real, z: real, m: Matrix, v: Vec4)
    requires Combines(v, x, y, z, m)
    ensures k.x * v.x + k.y * v.y + k.z * v.z
         == x * (k.x * m.r0.x + k.y * m.r0.y + k.z * m.r0.z) + y * (k.x * m.r1.x + k.y * m.r1.y + k.z * m.r1.z)
            + z * (k.x * m.r2.x + k.y * m.r2.y + k.z * m.r2.z)
  {
    assert k.x * v.x == x * (k.x * m.r0.x) + y * (k.x * m.r1.x) + z * (k.x * m.r2.x);
    assert k.y * v.y == x * (k.y * m.r0.y) + y * (k.y * m.r1.y) + z * (k.y * m.r2.y);
    assert k.z * v.z == x * (k.z * m.r0.z) + y * (k.z * m.r1.z) + z * (k.z * m.r2.z);
  }

  lemma TripleCombines(p: Vec4, q: Vec4, x: real, y: real, z: real, m: Matrix, v: Vec4)
    requires Combines(v, x, y, z, m)
    ensures Triple(p, q, v) == x * Triple(p, q, m.r0) + y * Triple(p, q, m.r1) + z * Triple(p, q, m.r2)
  {
    hide Triple, Cofactors, Combines;
    TripleIs(p, q, v);
    TripleIs(p, q, m.r0);
    TripleIs(p, q, m.r1);
    TripleIs(p, q, m.r2);
    Distributes(Cofactors(p, q), x, y, z, m, v);
  }

  lemma TripleVanishes(u: Vec4, v: Vec4)
    ensures Triple(u, u, v) == Triple(u, v, u) == Triple(v, u, u) == 0.0
  {
  }

  lemma TripleSwaps(u: Vec4, v: Vec4, w: Vec4)
    ensures Triple(v, u, w) == -Triple(u, v, w)
  {
  }

  /** Two rows of a matrix and a combination. */
  lemma TripleOfTwo(m: Matrix, x: real, y: real, z: real, v: Vec4, d: real)
    requires Combines(v, x, y, z, m) && d == Triple(m.r0, m.r1, m.r2)
    ensures Triple(m.r0, m.r1, v) == z * d && Triple(m.r1, m.r2, v) == x * d && Triple(m.r2, m.r0, v) == y * d
  {
    hide Triple, Combines;
    TripleCombines(m.r0, m.r1, x, y, z, m, v);
    TripleCombines(m.r1, m.r2, x, y, z, m, v);
    TripleCombines(m.r2, m.r0, x, y, z, m, v);
    TripleVanishes(m.r0, m.r1);
    TripleVanishes(m.r1, m.r2);
    TripleVanishes(m.r2, m.r0);
    TripleVanishes(m.r1, m.r0);
    TripleVanishes(m.r2, m.r1);
    TripleVanishes(m.r0, m.r2);
    TripleIs(m.r0, m.r1, m.r2);
    TripleIs(m.r1, m.r2, m.r0);
  }

  /** One row of a matrix and two combinations. */
  lemma TripleOfOne(m: Matrix, a: Vec3, v: Vec4, b: Vec3, w: Vec4, d: real)
    requires Combines(v, a.x, a.y, a.z, m) && Combines(w, b.x, b.y, b.z, m) && d == Triple(m.r0, m.r1, m.r2)
    ensures Triple(v, w, m.r0) == (a.y * b.z - a.z * b.y) * d
    ensures Triple(v, w, m.r1) == (a.z * b.x - a.x * b.z) * d
    ensures Triple(v, w, m.r2) == (a.x * b.y - a.y * b.x) * d
  {
    hide Triple, Combines;
    TripleOfTwo(m, b.x, b.y, b.z, w, d);
    FirstExpands(m, m.r0, a, v, w);
    FirstExpands(m, m.r1, a, v, w);
    FirstExpands(m, m.r2, a, v, w);
    TripleVanishes(m.r0, w);
    TripleVanishes(m.r1, w);
    TripleVanishes(m.r2, w);
    TripleSwaps(m.r0, m.r1, w);
    TripleSwaps(m.r1, m.r2, w);
    TripleSwaps(m.r2, m.r0, w);
  }

  lemma FirstExpands(m: Matrix, r: Vec4, a: Vec3, v: Vec4, w: Vec4)
    requires Combines(v, a.x, a.y, a.z, m)
    ensures Triple(v, w, r) == a.x * Triple(r, m.r0, w) + a.y * Triple(r, m.r1, w) + a.z * Triple(r, m.r2, w)
  {
    hide Triple, Combines;
    TripleCombines(w, r, a.x, a.y, a.z, m, v);
    TripleIs(v, w, r);
    TripleIs(w, r, m.r0);
    TripleIs(w, r, m.r1);
    TripleIs(w, r, m.r2);
  }

  lemma TripleOfProduct(m: Matrix, a: Vec3, u: Vec4, b: Vec3, v: Vec4, c: Vec3, w: Vec4, d: real)
    requires Combines(u, a.x, a.y, a.z, m) && Combines(v, b.x, b.y, b.z, m) && Combines(w, c.x, c.y, c.z, m)
    requires d == Triple(m.r0, m.r1, m.r2)
    ensures Triple(u, v, w)
         == (a.x * (b.y * c.z - b.z * c.y) + a.y * (b.z * c.x - b.x * c.z) + a.z * (b.x * c.y - b.y * c.x)) * d
  {
    hide Triple, Combines;
    TripleOfOne(m, b, v, c, w, d);
    TripleCombines(v, w, a.x, a.y, a.z, m, u);
    TripleIs(u, v, w);
  }

  lemma RowCombines(v: Vec4, m: Matrix)
    requires v.w == 0.0
    ensures Combines(RowMul(v, m), v.x, v.y, v.z, m)
  {
  }

  lemma TripleOfRows(m: Matrix)
    ensures m.Determinant3() == Triple(m.r0, m.r1, m.r2)
    ensures Triple(m.r0, m.r1, m.r2)
         == m.r0.x * (m.r1.y * m.r2.z - m.r1.z * m.r2.y) + m.r0.y * (m.r1.z * m.r2.x - m.r1.x * m.r2.z)
            + m.r0.z * (m.r1.x * m.r2.y - m.r1.y * m.r2.x)
  {
  }

  function Xyz(v: Vec4): Vec3 {
    Vec3(v.x, v.y, v.z)
  }

  /** The determinant of a product is the product of the determinants. */
  lemma DeterminantTimes(a: Matrix, b: Matrix)
    requires a.IsAffine()
    ensures Mul(a, b).Determinant3() == a.Determinant3() * b.Determinant3()
  {
    hide Triple, Combines, RowMul, Matrix.Determinant3;
    RowCombines(a.r0, b);
    RowCombines(a.r1, b);
    RowCombines(a.r2, b);
    TripleOfRows(a);
    TripleOfRows(b);
    TripleOfRows(Mul(a, b));
    TripleOfProduct(b, Xyz(a.r0), RowMul(a.r0, b), Xyz(a.r1), RowMul(a.r1, b), Xyz(a.r2), RowMul(a.r2, b), b.Determinant3());
  }

  /** The inverse of an affine matrix is affine. */
  lemma InverseOfAffine(m: Matrix, eps: real)
    requires m.IsAffine() && eps >= 0.0 && Abs(Determinant(m)) > eps
    ensures Inverse(m, eps).IsAffine()
  {
    var det := Determinant(m);
    AffineAdjugate(m);
    assert det * (1.0 / det) == 1.0;
  }

  /** It takes every point back. */
  lemma InverseUndoes(inverse: Matrix, m: Matrix, p: Vec3)
    requires m.IsAffine() && inverse.IsAffine() && Mul(inverse, m) == IDENTITY
    ensures Apply(m, Apply(inverse, p)) == p
  {
    ApplyMul(inverse, m, p);
  }
}

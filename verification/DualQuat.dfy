/**
 Dual quaternions (pxr/base/gf/dualQuat.template.cpp) over exact reals: a rotation in the
 real part, and half the translation, times the rotation, in the dual part.
 */
module Quaternions {
  import opened GfLinear

  /** The imaginary part is in x, y and z, and the real part in w. */
  type Quat = Vec4

  const ZERO := Vec4(0.0, 0.0, 0.0, 0.0)
  const ONE := Vec4(0.0, 0.0, 0.0, 1.0)

  function Imaginary(q: Quat): Vec3 {
    Vec3(q.x, q.y, q.z)
  }

  /** One imaginary component of a product, from the components of the factors in cyclic order. */
  function Im(a1: real, a2: real, a3: real, aw: real, b1: real, b2: real, b3: real, bw: real): real {
    aw * b1 + bw * a1 + (a2 * b3 - a3 * b2)
  }

  function Re(a1: real, a2: real, a3: real, aw: real, b1: real, b2: real, b3: real, bw: real): real {
    aw * bw - (a1 * b1 + a2 * b2 + a3 * b3)
  }

  /** GfQuat::operator *=. */
  function Times(a: Quat, b: Quat): Quat {
    Vec4(Im(a.x, a.y, a.z, a.w, b.x, b.y, b.z, b.w),
         Im(a.y, a.z, a.x, a.w, b.y, b.z, b.x, b.w),
         Im(a.z, a.x, a.y, a.w, b.z, b.x, b.y, b.w),
         Re(a.x, a.y, a.z, a.w, b.x, b.y, b.z, b.w))
  }

  function Plus(a: Quat, b: Quat): Quat {
    Vec4(a.x + b.x, a.y + b.y, a.z + b.z, a.w + b.w)
  }

  function Conjugate(a: Quat): Quat {
    Vec4(-a.x, -a.y, -a.z, a.w)
  }

  // --- quaternion laws
  function RightMatrix(b: Quat): Matrix {
    Matrix(Vec4(b.w, -b.z, b.y, -b.x), Vec4(b.z, b.w, -b.x, -b.y), Vec4(-b.y, b.x, b.w, -b.z), b)
  }

  lemma TimesIsRowMul(a: Quat, b: Quat)
    ensures Times(a, b) == RowMul(a, RightMatrix(b))
  {
  }

  lemma RightMatrixTimes(b: Quat, c: Quat)
    ensures Mul(RightMatrix(b), RightMatrix(c)) == RightMatrix(Times(b, c))
  {
    var m := RightMatrix(b);
    TimesIsRowMul(m.r0, c);
    TimesIsRowMul(m.r1, c);
    TimesIsRowMul(m.r2, c);
    TimesIsRowMul(m.r3, c);
  }

  lemma TimesAssociates(a: Quat, b: Quat, c: Quat)
    ensures Times(Times(a, b), c) == Times(a, Times(b, c))
  {
    TimesIsRowMul(a, b);
    TimesIsRowMul(Times(a, b), c);
    TimesIsRowMul(a, Times(b, c));
    RowMulMul(a, RightMatrix(b), RightMatrix(c));
    RightMatrixTimes(b, c);
  }

  lemma DotPlus(a: Vec4, b: Vec4, u: Vec4)
    ensures Dot(Plus(a, b), u) == Dot(a, u) + Dot(b, u)
  {
  }

  lemma RowMulPlus(a: Vec4, b: Vec4, m: Matrix)
    ensures RowMul(Plus(a, b), m) == Plus(RowMul(a, m), RowMul(b, m))
  {
    DotPlus(a, b, m.ColX());
    DotPlus(a, b, m.ColY());
    DotPlus(a, b, m.ColZ());
    DotPlus(a, b, m.ColW());
  }

  lemma PlusTimes(a: Quat, b: Quat, c: Quat)
    ensures Times(Plus(a, b), c) == Plus(Times(a, c), Times(b, c))
  {
    TimesIsRowMul(a, c);
    TimesIsRowMul(b, c);
    TimesIsRowMul(Plus(a, b), c);
    RowMulPlus(a, b, RightMatrix(c));
  }

  function LeftMatrix(a: Quat): Matrix {
    Matrix(Vec4(a.w, a.z, -a.y, -a.x), Vec4(-a.z, a.w, a.x, -a.y), Vec4(a.y, -a.x, a.w, -a.z), a)
  }

  lemma TimesIsLeftRowMul(a: Quat, b: Quat)
    ensures Times(a, b) == RowMul(b, LeftMatrix(a))
  {
  }

  lemma ConjugateTimes(a: Quat, b: Quat)
    ensures Conjugate(Times(a, b)) == Times(Conjugate(b), Conjugate(a))
  {
  }

  lemma TimesConjugate(a: Quat)
    ensures Times(a, Conjugate(a)) == Vec4(0.0, 0.0, 0.0, Dot(a, a))
  {
  }

  /** GfQuat::Transform. */
  function Rotate(q: Quat, p: Vec3): Vec3
    requires Dot(q, q) != 0.0
  {
    var dot := q.x * q.x + q.y * q.y + q.z * q.z;
    var sqr := q.w * q.w;
    var along := 2.0 * (q.x * p.x + q.y * p.y + q.z * p.z);
    Vec3((along * q.x + (sqr - dot) * p.x + 2.0 * q.w * (q.y * p.z - q.z * p.y)) / (sqr + dot),
         (along * q.y + (sqr - dot) * p.y + 2.0 * q.w * (q.z * p.x - q.x * p.z)) / (sqr + dot),
         (along * q.z + (sqr - dot) * p.z + 2.0 * q.w * (q.x * p.y - q.y * p.x)) / (sqr + dot))
  }

  function RotationMatrix(q: Quat): Matrix {
    Matrix(Vec4(q.w * q.w + q.x * q.x - q.y * q.y - q.z * q.z,
                2.0 * (q.x * q.y + q.w * q.z), 2.0 * (q.x * q.z - q.w * q.y), 0.0),
           Vec4(2.0 * (q.x * q.y - q.w * q.z), q.w * q.w - q.x * q.x + q.y * q.y - q.z * q.z,
                2.0 * (q.y * q.z + q.w * q.x), 0.0),
           Vec4(2.0 * (q.x * q.z + q.w * q.y), 2.0 * (q.y * q.z - q.w * q.x),
                q.w * q.w - q.x * q.x - q.y * q.y + q.z * q.z, 0.0),
           Vec4(0.0, 0.0, 0.0, q.w * q.w + q.x * q.x + q.y * q.y + q.z * q.z))
  }

  lemma SandwichRow0(q: Quat)
    ensures Times(LeftMatrix(q).r0, Conjugate(q)) == RotationMatrix(q).r0
  {
    SandwichRow0Front(q);
    SandwichRow0Back(q);
  }

  lemma SandwichRow0Front(q: Quat)
    ensures var (row, m) := (Times(LeftMatrix(q).r0, Conjugate(q)), RotationMatrix(q).r0);
      row.x == m.x && row.y == m.y
  {
  }

  lemma SandwichRow0Back(q: Quat)
    ensures var (row, m) := (Times(LeftMatrix(q).r0, Conjugate(q)), RotationMatrix(q).r0);
      row.z == m.z && row.w == m.w
  {
    SandwichRow0Z(q);
    SandwichRow0W(q);
  }

  lemma SandwichRow0Z(q: Quat)
    ensures var (row, m) := (Times(LeftMatrix(q).r0, Conjugate(q)), RotationMatrix(q).r0);
      row.z == m.z
  {
  }

  lemma SandwichRow0W(q: Quat)
    ensures var (row, m) := (Times(LeftMatrix(q).r0, Conjugate(q)), RotationMatrix(q).r0);
      row.w == m.w
  {
  }

  lemma SandwichRow1(q: Quat)
    ensures Times(LeftMatrix(q).r1, Conjugate(q)) == RotationMatrix(q).r1
  {
    SandwichRow1Front(q);
    SandwichRow1Back(q);
  }

  lemma SandwichRow1Front(q: Quat)
    ensures var (row, m) := (Times(LeftMatrix(q).r1, Conjugate(q)), RotationMatrix(q).r1);
      row.x == m.x && row.y == m.y
  {
  }

  lemma SandwichRow1Back(q: Quat)
    ensures var (row, m) := (Times(LeftMatrix(q).r1, Conjugate(q)), RotationMatrix(q).r1);
      row.z == m.z && row.w == m.w
  {
    SandwichRow1Z(q);
    SandwichRow1W(q);
  }

  lemma SandwichRow1Z(q: Quat)
    ensures var (row, m) := (Times(LeftMatrix(q).r1, Conjugate(q)), RotationMatrix(q).r1);
      row.z == m.z
  {
  }

  lemma SandwichRow1W(q: Quat)
    ensures var (row, m) := (Times(LeftMatrix(q).r1, Conjugate(q)), RotationMatrix(q).r1);
      row.w == m.w
  {
  }

  lemma SandwichRow2(q: Quat)
    ensures Times(LeftMatrix(q).r2, Conjugate(q)) == RotationMatrix(q).r2
  {
    SandwichRow2Front(q);
    SandwichRow2Back(q);
  }

  lemma SandwichRow2Front(q: Quat)
    ensures var (row, m) := (Times(LeftMatrix(q).r2, Conjugate(q)), RotationMatrix(q).r2);
      row.x == m.x && row.y == m.y
  {
  }

  lemma SandwichRow2Back(q: Quat)
    ensures var (row, m) := (Times(LeftMatrix(q).r2, Conjugate(q)), RotationMatrix(q).r2);
      row.z == m.z && row.w == m.w
  {
  }

  lemma SandwichMatrix(q: Quat)
    ensures Mul(LeftMatrix(q), RightMatrix(Conjugate(q))) == RotationMatrix(q)
  {
    var m, c := LeftMatrix(q), Conjugate(q);
    TimesIsRowMul(m.r0, c);
    TimesIsRowMul(m.r1, c);
    TimesIsRowMul(m.r2, c);
    TimesIsRowMul(m.r3, c);
    SandwichRow0(q);
    SandwichRow1(q);
    SandwichRow2(q);
    TimesConjugate(q);
  }

  /** q x q* rotates the imaginary part of x, up to the square of the length of q, and scales its real part. */
  function Sandwich(q: Quat, x: Quat): Quat {
    Times(Times(q, x), Conjugate(q))
  }

  lemma SandwichIsRowMul(q: Quat, x: Quat)
    ensures Sandwich(q, x) == RowMul(x, RotationMatrix(q))
  {
    TimesIsLeftRowMul(q, x);
    TimesIsRowMul(Times(q, x), Conjugate(q));
    RowMulMul(x, LeftMatrix(q), RightMatrix(Conjugate(q)));
    SandwichMatrix(q);
  }

  lemma RotateIsRowMul(q: Quat, x: Quat)
    requires Dot(q, q) == 1.0
    ensures Rotate(q, Imaginary(x)) == Imaginary(RowMul(x, RotationMatrix(q)))
    ensures RowMul(x, RotationMatrix(q)).w == x.w
  {
  }

  lemma TimesPlus(a: Quat, b: Quat, c: Quat)
    ensures Times(a, Plus(b, c)) == Plus(Times(a, b), Times(a, c))
  {
    TimesIsLeftRowMul(a, b);
    TimesIsLeftRowMul(a, c);
    TimesIsLeftRowMul(a, Plus(b, c));
    RowMulPlus(b, c, LeftMatrix(a));
  }

  lemma FourTimes(p: Quat, q: Quat, r: Quat, s: Quat)
    ensures Times(Times(p, q), Times(r, s)) == Times(Times(p, Times(q, r)), s)
  {
    TimesAssociates(Times(p, q), r, s);
    TimesAssociates(p, q, r);
  }

  /** Rotating by a product is rotating twice. */
  lemma SandwichTimes(a: Quat, b: Quat, x: Quat)
    ensures Sandwich(Times(a, b), x) == Sandwich(a, Sandwich(b, x))
  {
    TimesAssociates(a, b, x);
    ConjugateTimes(a, b);
    FourTimes(a, Times(b, x), Conjugate(b), Conjugate(a));
  }

  lemma TimesScale(a: Quat, b: Quat, s: real)
    ensures Times(a, Scale(b, s)) == Scale(Times(a, b), s)
    ensures Times(Scale(a, s), b) == Scale(Times(a, b), s)
  {
    TimesIsLeftRowMul(a, b);
    TimesIsLeftRowMul(a, Scale(b, s));
    RowMulScale(b, LeftMatrix(a), s);
    TimesIsRowMul(a, b);
    TimesIsRowMul(Scale(a, s), b);
    RowMulScale(a, RightMatrix(b), s);
  }

  lemma TimesReal(a: Quat, r: real)
    ensures Times(a, Vec4(0.0, 0.0, 0.0, r)) == Scale(a, r)
  {
  }

  lemma LengthTimes(a: Quat, b: Quat)
    ensures Dot(Times(a, b), Times(a, b)) == Dot(a, a) * Dot(b, b)
  {
    var ab, square := Times(a, b), Vec4(0.0, 0.0, 0.0, Dot(b, b));
    ConjugateTimes(a, b);
    TimesConjugate(ab);
    TimesConjugate(b);
    FourTimes(a, b, Conjugate(b), Conjugate(a));
    TimesReal(a, Dot(b, b));
    TimesScale(a, Conjugate(a), Dot(b, b));
    TimesConjugate(a);
    ScaleOf(Times(a, Conjugate(a)), 0.0, 0.0, 0.0, Dot(a, a), Dot(b, b));
  }

  /** r d* + d r* is twice the dot product. */
  lemma ConjugateSum(r: Quat, d: Quat)
    ensures Plus(Times(r, Conjugate(d)), Times(d, Conjugate(r))) == Vec4(0.0, 0.0, 0.0, 2.0 * Dot(r, d))
  {
  }

  /** The products of the units; with these, the sums and the multiples of the factors, every product is fixed. */
  lemma UnitsTimes(i: Quat, j: Quat, k: Quat, minus: Quat)
    requires i == Vec4(1.0, 0.0, 0.0, 0.0) && j == Vec4(0.0, 1.0, 0.0, 0.0) && k == Vec4(0.0, 0.0, 1.0, 0.0)
    requires minus == Vec4(0.0, 0.0, 0.0, -1.0)
    ensures Times(i, i) == Times(j, j) == Times(k, k) == Times(Times(i, j), k) == minus
    ensures Times(i, j) == k && Times(j, k) == i && Times(k, i) == j
  {
  }

  lemma TimesOne(a: Quat)
    ensures Times(a, ONE) == a && Times(ONE, a) == a
  {
  }
}

module DualQuat {
  import opened GfLinear
  import opened Quaternions

  /** The fields of GfDualQuat, as a value. */
  datatype Dual = Dual(re: Quat, dual: Quat)

  const IDENTITY_DUAL := Dual(ONE, ZERO)

  function DualTimes(a: Dual, b: Dual): Dual {
    Dual(Times(a.re, b.re), Plus(Times(a.re, b.dual), Times(a.dual, b.re)))
  }

  function DualConjugate(a: Dual): Dual {
    Dual(Conjugate(a.re), Conjugate(a.dual))
  }

  function DualScale(a: Dual, s: real): Dual {
    Dual(Scale(a.re, s), Scale(a.dual, s))
  }

  function Minus(a: Quat, b: Quat): Quat {
    Vec4(a.x - b.x, a.y - b.y, a.z - b.z, a.w - b.w)
  }

  /** GetInverse. */
  function Inverse(a: Dual): Dual {
    var lengthSqr := Dot(a.re, a.re);
    if lengthSqr <= 0.0 then IDENTITY_DUAL
    else
      var inv := 1.0 / lengthSqr;
      var conj := DualScale(DualConjugate(a), inv);
      Dual(conj.re, Minus(conj.dual, Scale(conj.re, 2.0 * inv * Dot(a.re, a.dual))))
  }

  /** GetTranslation. */
  function Translation(a: Dual): Vec3 {
    var r1, r2, i1, i2 := a.dual.w, a.re.w, a.dual, a.re;
    Vec3(-2.0 * (r1 * i2.x - r2 * i1.x + (i1.y * i2.z - i1.z * i2.y)),
         -2.0 * (r1 * i2.y - r2 * i1.y + (i1.z * i2.x - i1.x * i2.z)),
         -2.0 * (r1 * i2.z - r2 * i1.z + (i1.x * i2.y - i1.y * i2.x)))
  }

  function Add(a: Vec3, b: Vec3): Vec3 {
    Vec3(a.x + b.x, a.y + b.y, a.z + b.z)
  }

  /** Transform: the rotation, then the translation. */
  function Transform(a: Dual, v: Vec3): Vec3
    requires Dot(a.re, a.re) != 0.0
  {
    Add(Rotate(a.re, v), Translation(a))
  }

  predicate IsUnit(a: Dual) {
    Dot(a.re, a.re) == 1.0
  }

  function Pure(v: Vec3): Quat {
    Vec4(v.x, v.y, v.z, 0.0)
  }

  /** Half of the translation is the imaginary part of d r*. */
  function HalfTranslation(a: Dual): Quat {
    Times(a.dual, Conjugate(a.re))
  }

  lemma TranslationIsTwice(a: Dual)
    ensures Translation(a) == Imaginary(Plus(HalfTranslation(a), HalfTranslation(a)))
  {
  }

  /** The half translation of a product. */
  lemma HalfTranslationTimes(a: Dual, b: Dual)
    requires IsUnit(b)
    ensures HalfTranslation(DualTimes(a, b)) == Plus(Sandwich(a.re, HalfTranslation(b)), HalfTranslation(a))
  {
    var ca, cb := Conjugate(a.re), Conjugate(b.re);
    ConjugateTimes(a.re, b.re);
    PlusTimes(Times(a.re, b.dual), Times(a.dual, b.re), Times(cb, ca));
    FourTimes(a.re, b.dual, cb, ca);
    FourTimes(a.dual, b.re, cb, ca);
    TimesConjugate(b.re);
    TimesOne(a.dual);
  }

  /** Sandwiching by a unit quaternion rotates. */
  lemma SandwichRotates(q: Quat, x: Quat)
    requires Dot(q, q) == 1.0
    ensures Imaginary(Sandwich(q, x)) == Rotate(q, Imaginary(x))
  {
    SandwichIsRowMul(q, x);
    RotateIsRowMul(q, x);
  }

  lemma RotateAdds(q: Quat, x: Quat, y: Quat)
    requires Dot(q, q) == 1.0
    ensures Rotate(q, Imaginary(Plus(x, y))) == Add(Rotate(q, Imaginary(x)), Rotate(q, Imaginary(y)))
  {
    RotateIsRowMul(q, x);
    RotateIsRowMul(q, y);
    RotateIsRowMul(q, Plus(x, y));
    RowMulPlus(x, y, RotationMatrix(q));
  }

  lemma RotateTimes(a: Quat, b: Quat, v: Vec3)
    requires Dot(a, a) == 1.0 && Dot(b, b) == 1.0
    ensures Dot(Times(a, b), Times(a, b)) == 1.0
    ensures Rotate(Times(a, b), v) == Rotate(a, Rotate(b, v))
  {
    LengthTimes(a, b);
    SandwichTimes(a, b, Pure(v));
    SandwichRotates(Times(a, b), Pure(v));
    SandwichRotates(b, Pure(v));
    SandwichRotates(a, Sandwich(b, Pure(v)));
  }

  lemma RotateOrigin(q: Quat, origin: Vec3)
    requires Dot(q, q) != 0.0 && origin == Vec3(0.0, 0.0, 0.0)
    ensures Rotate(q, origin) == origin
  {
  }

  /** The origin goes where the translation says. */
  lemma TransformOrigin(a: Dual)
    requires Dot(a.re, a.re) != 0.0
    ensures Transform(a, Vec3(0.0, 0.0, 0.0)) == Translation(a)
  {
    RotateOrigin(a.re, Vec3(0.0, 0.0, 0.0));
  }

  lemma MinusTimes(r: Quat, d: Quat, x: Quat)
    requires x == Scale(Conjugate(d), -1.0)
    ensures Plus(Times(r, Conjugate(d)), Times(r, x)) == Vec4(0.0, 0.0, 0.0, 0.0)
  {
    TimesScale(r, Conjugate(d), -1.0);
  }

  /** What the two translation terms of the sandwich add up to. */
  lemma TranslationTerms(a: Dual, rest: Quat)
    requires Plus(Times(a.re, Conjugate(a.dual)), rest) == Vec4(0.0, 0.0, 0.0, 0.0)
    ensures Plus(HalfTranslation(a), rest) == Pure(Translation(a))
  {
    ConjugateSum(a.re, a.dual);
    TranslationIsTwice(a);
    HalfIsDot(a);
  }

  lemma HalfIsDot(a: Dual)
    ensures HalfTranslation(a).w == Dot(a.re, a.dual)
  {
  }

  lemma SandwichIsPure(q: Quat, v: Vec3)
    requires Dot(q, q) == 1.0
    ensures Sandwich(q, Pure(v)) == Pure(Rotate(q, v))
  {
    SandwichIsRowMul(q, Pure(v));
    RotateIsRowMul(q, Pure(v));
  }

  /**
   Transform by a unit dual quaternion is its sandwich: of a point, 1 + v e, between it and
   its conjugate, r* - d* e.
   */
  lemma SandwichTransforms(a: Dual, v: Vec3, origin: Quat)
    requires IsUnit(a) && origin == Vec4(0.0, 0.0, 0.0, 1.0)
    ensures DualTimes(DualTimes(a, Dual(origin, Pure(v))), Dual(Conjugate(a.re), Scale(Conjugate(a.dual), -1.0)))
         == Dual(origin, Pure(Transform(a, v)))
  {
    hide Times, Scale, Rotate, Translation;
    var point, conj, rest := Dual(origin, Pure(v)), Conjugate(a.re), Times(a.re, Scale(Conjugate(a.dual), -1.0));
    assert origin == ONE;
    TimesOne(a.re);
    TimesOne(a.dual);
    TimesConjugate(a.re);
    PlusTimes(Times(a.re, Pure(v)), a.dual, conj);
    SandwichIsPure(a.re, v);
    MinusTimes(a.re, a.dual, Scale(Conjugate(a.dual), -1.0));
    TranslationTerms(a, rest);
    assert DualTimes(a, point) == Dual(a.re, Plus(Times(a.re, Pure(v)), a.dual));
    assert Plus(rest, Plus(Pure(Rotate(a.re, v)), HalfTranslation(a))) == Plus(Pure(Rotate(a.re, v)), Plus(HalfTranslation(a), rest));
  }

  lemma Quotient(n: real, m: real, d: real, r: real)
    requires d != 0.0 && n == m && r == n / d
    ensures r * d == m
  {
  }

  /** One component of a rotated point, from components in cyclic order. */
  function Rotated(x: real, y: real, z: real, w: real, a: real, b: real, c: real, dot: real, along: real): real
    requires w * w + dot != 0.0
  {
    (along * x + (w * w - dot) * a + 2.0 * w * (y * c - z * b)) / (w * w + dot)
  }

  /** One component of the sandwich. */
  function Sandwiched(x: real, y: real, z: real, w: real, a: real, b: real, c: real): real {
    a * (w * w + x * x - y * y - z * z) + b * (2.0 * (x * y - w * z)) + c * (2.0 * (x * z + w * y))
  }

  lemma Numerator(x: real, y: real, z: real, w: real, a: real, b: real, c: real, dot: real, along: real)
    requires dot == x * x + y * y + z * z && along == 2.0 * (x * a + y * b + z * c)
    ensures along * x + (w * w - dot) * a + 2.0 * w * (y * c - z * b) == Sandwiched(x, y, z, w, a, b, c)
  {
    assert along * x == 2.0 * (x * x * a + x * y * b + x * z * c);
  }

  lemma Component(x: real, y: real, z: real, w: real, a: real, b: real, c: real, dot: real, along: real, d: real)
    requires dot == x * x + y * y + z * z && along == 2.0 * (x * a + y * b + z * c) && d == w * w + dot != 0.0
    ensures Rotated(x, y, z, w, a, b, c, dot, along) * d == Sandwiched(x, y, z, w, a, b, c)
  {
    Numerator(x, y, z, w, a, b, c, dot, along);
    Quotient(along * x + (w * w - dot) * a + 2.0 * w * (y * c - z * b), Sandwiched(x, y, z, w, a, b, c), d,
             Rotated(x, y, z, w, a, b, c, dot, along));
  }

  lemma RowIs(q: Quat, v: Vec3)
    ensures var s := RowMul(Pure(v), RotationMatrix(q));
      s.x == Sandwiched(q.x, q.y, q.z, q.w, v.x, v.y, v.z) && s.y == Sandwiched(q.y, q.z, q.x, q.w, v.y, v.z, v.x)
  {
  }

  lemma RowIsBack(q: Quat, v: Vec3)
    ensures var s := RowMul(Pure(v), RotationMatrix(q));
      s.z == Sandwiched(q.z, q.x, q.y, q.w, v.z, v.x, v.y) && s.w == 0.0
  {
  }

  /** The terms that Rotate shares between its components. */
  ghost predicate AreShared(q: Quat, v: Vec3, dot: real, along: real) {
    dot == q.x * q.x + q.y * q.y + q.z * q.z && along == 2.0 * (q.x * v.x + q.y * v.y + q.z * v.z)
  }

  lemma SharedDot(q: Quat, v: Vec3, dot: real, along: real)
    requires AreShared(q, v, dot, along)
    ensures Dot(q, q) == q.w * q.w + dot
  {
  }

  lemma RotateIsX(q: Quat, v: Vec3, dot: real, along: real)
    requires AreShared(q, v, dot, along) && Dot(q, q) == q.w * q.w + dot != 0.0
    ensures Rotate(q, v).x == Rotated(q.x, q.y, q.z, q.w, v.x, v.y, v.z, dot, along)
  {
  }

  lemma RotateIsY(q: Quat, v: Vec3, dot: real, along: real)
    requires AreShared(q, v, dot, along) && Dot(q, q) == q.w * q.w + dot != 0.0
    ensures Rotate(q, v).y == Rotated(q.y, q.z, q.x, q.w, v.y, v.z, v.x, dot, along)
  {
  }

  lemma RotateIsZ(q: Quat, v: Vec3, dot: real, along: real)
    requires AreShared(q, v, dot, along) && Dot(q, q) == q.w * q.w + dot != 0.0
    ensures Rotate(q, v).z == Rotated(q.z, q.x, q.y, q.w, v.z, v.x, v.y, dot, along)
  {
  }

  lemma RotateScales(q: Quat, v: Vec3, dot: real, along: real, d: real)
    requires AreShared(q, v, dot, along) && d == Dot(q, q) != 0.0
    ensures var r, s := Rotate(q, v), RowMul(Pure(v), RotationMatrix(q));
      r.x * d == s.x && r.y * d == s.y && r.z * d == s.z && s.w == 0.0
  {
    hide Rotate, RotationMatrix, RowMul, Rotated, Sandwiched, Dot;
    RowIs(q, v);
    RowIsBack(q, v);
    SharedDot(q, v, dot, along);
    RotateIsX(q, v, dot, along);
    RotateIsY(q, v, dot, along);
    RotateIsZ(q, v, dot, along);
    Component(q.x, q.y, q.z, q.w, v.x, v.y, v.z, dot, along, d);
    Component(q.y, q.z, q.x, q.w, v.y, v.z, v.x, dot, along, d);
    Component(q.z, q.x, q.y, q.w, v.z, v.x, v.y, dot, along, d);
  }

  /** Sandwiching by any quaternion but zero rotates, and scales by the square of its length. */
  lemma SandwichScales(q: Quat, v: Vec3)
    requires Dot(q, q) != 0.0
    ensures Sandwich(q, Pure(v)) == Scale(Pure(Rotate(q, v)), Dot(q, q))
  {
    hide Rotate, RotationMatrix, RowMul, Sandwich, Dot;
    SandwichIsRowMul(q, Pure(v));
    RotateScales(q, v, q.x * q.x + q.y * q.y + q.z * q.z, 2.0 * (q.x * v.x + q.y * v.y + q.z * v.z), Dot(q, q));
    ScaleOf(Pure(Rotate(q, v)), Rotate(q, v).x, Rotate(q, v).y, Rotate(q, v).z, 0.0, Dot(q, q));
  }

  /** Transforming by a product of unit dual quaternions is transforming by the second, then by the first. */
  lemma TransformTimes(a: Dual, b: Dual, v: Vec3)
    requires IsUnit(a) && IsUnit(b)
    ensures IsUnit(DualTimes(a, b))
    ensures Transform(DualTimes(a, b), v) == Transform(a, Transform(b, v))
  {
    RotateTimes(a.re, b.re, v);
    var half := HalfTranslation(b);
    var rotated := Pure(Rotate(b.re, v));
    HalfTranslationTimes(a, b);
    TranslationIsTwice(DualTimes(a, b));
    TranslationIsTwice(a);
    TranslationIsTwice(b);
    SandwichRotates(a.re, half);
    RotateAdds(a.re, half, half);
    RotateAdds(a.re, rotated, Plus(half, half));
    assert Imaginary(rotated) == Rotate(b.re, v);
    assert Imaginary(Plus(rotated, Plus(half, half))) == Transform(b, v);
  }

  /** The translation that was stored is found again. */
  lemma TranslationReadsBack(re: Quat, t: Vec3)
    requires Dot(re, re) == 1.0
    ensures Translation(Dual(re, Times(Vec4(0.5 * t.x, 0.5 * t.y, 0.5 * t.z, 0.0), re))) == t
  {
    var half := Vec4(0.5 * t.x, 0.5 * t.y, 0.5 * t.z, 0.0);
    var a := Dual(re, Times(half, re));
    TranslationIsTwice(a);
    TimesAssociates(half, re, Conjugate(re));
    TimesConjugate(re);
    TimesOne(half);
  }

  lemma MinusIsPlus(a: Quat, b: Quat)
    ensures Plus(Minus(a, b), b) == a
  {
  }

  /** A dual quaternion with a real part other than zero, times its inverse, is the identity. */
  lemma TimesInverse(a: Dual)
    requires Dot(a.re, a.re) != 0.0
    ensures DualTimes(a, Inverse(a)) == IDENTITY_DUAL
  {
    DotIsPositive(a.re);
    var inv := 1.0 / Dot(a.re, a.re);
    assert Dot(a.re, a.re) * inv == 1.0;
    InverseReal(a.re, inv);
    InverseDual(a.re, a.dual, inv, Dot(a.re, a.dual), Inverse(a).dual);
  }

  lemma DotIsPositive(q: Quat)
    ensures Dot(q, q) >= 0.0
  {
  }

  lemma InverseReal(q: Quat, inv: real)
    requires Dot(q, q) * inv == 1.0
    ensures Times(q, Scale(Conjugate(q), inv)) == ONE
  {
    TimesScale(q, Conjugate(q), inv);
    TimesConjugate(q);
    ScaleOf(Times(q, Conjugate(q)), 0.0, 0.0, 0.0, Dot(q, q), inv);
  }

  /** The cross terms of the product add up to a real number, which the correction takes away. */
  lemma InverseDual(r: Quat, d: Quat, inv: real, dot: real, corrected: Quat)
    requires Dot(r, r) * inv == 1.0 && dot == Dot(r, d)
    requires corrected == Minus(Scale(Conjugate(d), inv), Scale(Scale(Conjugate(r), inv), 2.0 * inv * dot))
    ensures Plus(Times(r, corrected), Times(d, Scale(Conjugate(r), inv))) == ZERO
  {
    var c, k := Scale(Conjugate(r), inv), 2.0 * inv * dot;
    var u, v, taken := Times(r, corrected), Times(d, c), Vec4(0.0, 0.0, 0.0, k);
    // u + k = r d* inv
    MinusIsPlus(Scale(Conjugate(d), inv), Scale(c, k));
    TimesPlus(r, corrected, Scale(c, k));
    TimesScale(r, c, k);
    InverseReal(r, inv);
    ScaleOf(ONE, 0.0, 0.0, 0.0, 1.0, k);
    TimesScale(r, Conjugate(d), inv);
    // r d* inv + d r* inv = k
    TimesScale(d, Conjugate(r), inv);
    ConjugateSum(r, d);
    CrossTerms(Times(r, Conjugate(d)), Times(d, Conjugate(r)), inv, dot);
    assert Plus(Plus(u, taken), v) == taken;
  }

  lemma CrossTerms(a: Quat, b: Quat, inv: real, dot: real)
    requires Plus(a, b) == Vec4(0.0, 0.0, 0.0, 2.0 * dot)
    ensures Plus(Scale(a, inv), Scale(b, inv)) == Vec4(0.0, 0.0, 0.0, 2.0 * inv * dot)
  {
    PlusScale(a, b, inv);
    ScaleOf(Plus(a, b), 0.0, 0.0, 0.0, 2.0 * dot, inv);
  }

  lemma PlusScale(a: Quat, b: Quat, s: real)
    ensures Scale(Plus(a, b), s) == Plus(Scale(a, s), Scale(b, s))
  {
  }

  // ---------------------------------------------------------------- normalization

  /** The length of the real part, and how much of the dual part lies along it; a square root is given. */
  ghost predicate IsRoot(root: real, square: real) {
    root >= 0.0 && root * root == square
  }

  lemma DotOfScale(a: Quat, b: Quat, s: real)
    ensures Dot(Scale(a, s), b) == Dot(a, b) * s
    ensures Dot(a, Scale(b, s)) == Dot(a, b) * s
  {
    DotScale(a, b, s);
    DotScale(b, a, s);
    DotCommutes(a, b);
    DotCommutes(a, Scale(b, s));
  }

  lemma DotCommutes(a: Quat, b: Quat)
    ensures Dot(a, b) == Dot(b, a)
  {
  }

  lemma DotMinus(a: Quat, b: Quat, c: Quat)
    ensures Dot(a, Minus(b, c)) == Dot(a, b) - Dot(a, c)
  {
  }

  /** The real part is made a unit, and the dual part perpendicular to it. */
  lemma NormalizedIsUnit(re: Quat, root: real, inv: real, t: real, re': Quat, scaled: Quat, dual': Quat)
    requires IsRoot(root, Dot(re, re)) && root * inv == 1.0
    requires re' == Scale(re, inv) && t == Dot(re', scaled) && dual' == Minus(scaled, Scale(re', t))
    ensures Dot(re', re') == 1.0 && Dot(re', dual') == 0.0
  {
    DotOfScale(re, re, inv);
    DotOfScale(re', re, inv);
    UnitSquare(Dot(re, re), root, inv, Dot(re', re), Dot(re', re'));
    DotMinus(re', scaled, Scale(re', t));
    DotOfScale(re', re', t);
    OneTimes(Dot(re', re'), t);
  }

  lemma UnitSquare(square: real, root: real, inv: real, once: real, twice: real)
    requires root * root == square && root * inv == 1.0 && once == square * inv && twice == once * inv
    ensures twice == 1.0
  {
    assert once == root * (root * inv);
  }

  lemma IdentityIsUnit(one: Quat, zero: Quat)
    requires one == ONE && zero == ZERO
    ensures Dot(one, one) == 1.0 && Dot(one, zero) == 0.0
  {
    assert one.x == one.y == one.z == 0.0 && one.w == 1.0;
    assert zero.x == zero.y == zero.z == zero.w == 0.0;
  }

  lemma OneTimes(one: real, t: real)
    requires one == 1.0
    ensures one * t == t
  {
  }

  /** A length: a real number and a dual one. */
  function DualNumber(length: real, along: real): Dual {
    Dual(Vec4(0.0, 0.0, 0.0, length), Vec4(0.0, 0.0, 0.0, along))
  }

  lemma RealTimes(r: real, a: Quat)
    ensures Times(Vec4(0.0, 0.0, 0.0, r), a) == Scale(a, r)
  {
  }

  lemma Reassociate(x: real, s: real, t: real, st: real, y: real)
    requires s * t == st && y == x * s
    ensures y * t == x * st
  {
    assert y * t == x * (s * t);
  }

  lemma ScaleScale(a: Quat, b: Quat, s: real, t: real, st: real)
    requires s * t == st && b == Scale(a, s)
    ensures Scale(b, t) == Scale(a, st)
  {
    Reassociate(a.x, s, t, st, b.x);
    Reassociate(a.y, s, t, st, b.y);
    Reassociate(a.z, s, t, st, b.z);
    Reassociate(a.w, s, t, st, b.w);
  }

  lemma ScaleByOne(a: Quat)
    ensures Scale(a, 1.0) == a
  {
  }

  lemma Difference(a: real, b: real, c: real, s: real)
    requires c == a - b
    ensures c * s == a * s - b * s
  {
  }

  lemma MinusScale(a: Quat, b: Quat, c: Quat, s: real)
    requires c == Minus(a, b)
    ensures Scale(c, s) == Minus(Scale(a, s), Scale(b, s))
  {
    Difference(a.x, b.x, c.x, s);
    Difference(a.y, b.y, c.y, s);
    Difference(a.z, b.z, c.z, s);
    Difference(a.w, b.w, c.w, s);
  }

  /** The part of the dual part along the real part, divided by the length once more than GetLength does. */
  lemma AlongIsDot(re: Quat, dual: Quat, root: real, inv: real, along: real, re': Quat, scaled: Quat)
    requires root * inv == 1.0 && along * root == Dot(re, dual)
    requires re' == Scale(re, inv) && scaled == Scale(dual, inv)
    ensures Dot(re', scaled) * root == along
  {
    DotOfScale(re', dual, inv);
    DotOfScale(re, dual, inv);
    Cancel(Dot(re, dual), Dot(re', dual), Dot(re', scaled), root, inv, along);
  }

  lemma Cancel(whole: real, once: real, twice: real, root: real, inv: real, along: real)
    requires root * inv == 1.0 && along * root == whole && once == whole * inv && twice == once * inv
    ensures twice * root == along
  {
    assert once == along * (root * inv);
    assert twice * root == once * (root * inv);
  }

  /** What normalizing took away is the dual number that it returns. */
  lemma LengthTimesNormalized(
      re: Quat, dual: Quat, root: real, inv: real, t: real, along: real, re': Quat, scaled: Quat, dual': Quat)
    requires root * inv == 1.0 && t * root == along
    requires re' == Scale(re, inv) && scaled == Scale(dual, inv) && dual' == Minus(scaled, Scale(re', t))
    ensures Dual(re, dual) == DualTimes(DualNumber(root, along), Dual(re', dual'))
  {
    RealTimes(root, re');
    RealTimes(root, dual');
    RealTimes(along, re');
    ScaleScale(re, re', inv, root, 1.0);
    ScaleScale(dual, scaled, inv, root, 1.0);
    ScaleScale(re', Scale(re', t), t, root, along);
    ScaleByOne(re);
    ScaleByOne(dual);
    MinusScale(scaled, Scale(re', t), dual', root);
    MinusIsPlus(dual, Scale(re', along));
  }

  lemma Normalized(
      re: Quat, dual: Quat, root: real, inv: real, t: real, along: real, re': Quat, scaled: Quat, dual': Quat)
    requires IsRoot(root, Dot(re, re)) && root * inv == 1.0 && along * root == Dot(re, dual) && t == Dot(re', scaled)
    requires re' == Scale(re, inv) && scaled == Scale(dual, inv) && dual' == Minus(scaled, Scale(re', t))
    ensures Dot(re', re') == 1.0 && Dot(re', dual') == 0.0
    ensures Dual(re, dual) == DualTimes(DualNumber(root, along), Dual(re', dual'))
  {
    NormalizedIsUnit(re, root, inv, t, re', scaled, dual');
    AlongIsDot(re, dual, root, inv, along, re', scaled);
    LengthTimesNormalized(re, dual, root, inv, t, along, re', scaled, dual');
  }

  class GfDualQuat {
    var re: Quat    // _real
    var dual: Quat  // _dual

    ghost function Value(): Dual
      reads this
    {
      Dual(re, dual)
    }

    constructor (re: Quat, dual: Quat)
      ensures Value() == Dual(re, dual)
    {
      this.re, this.dual := re, dual;
    }

    /** operator *=. */
    method Multiply(dq: GfDualQuat)
      modifies this
      ensures Value() == DualTimes(old(Value()), old(dq.Value()))
    {
      var tempReal := Times(re, dq.re);
      var tempDual := Plus(Times(re, dq.dual), Times(dual, dq.re));
      re := tempReal;
      dual := tempDual;
    }

    method SetTranslation(t: Vec3)
      modifies this`dual
      ensures IsUnit(Value()) ==> Translation(Value()) == t
      ensures dual == Times(Vec4(0.5 * t.x, 0.5 * t.y, 0.5 * t.z, 0.0), re)
    {
      dual := Times(Vec4(0.5 * t.x, 0.5 * t.y, 0.5 * t.z, 0.0), re);
      if IsUnit(Value()) {
        TranslationReadsBack(re, t);
      }
    }

    method GetLength(realLength: real) returns (length: real, along: real)
      requires IsRoot(realLength, Dot(re, re))
      ensures length == realLength && along * realLength == if realLength == 0.0 then 0.0 else Dot(re, dual)
    {
      if realLength == 0.0 {
        return 0.0, 0.0;
      }
      return realLength, Dot(re, dual) / realLength;
    }

    /** Normalize; realLength is the square root that GetLength takes. */
    method Normalize(realLength: real, eps: real) returns (length: real, along: real)
      requires IsRoot(realLength, Dot(re, re)) && (realLength < eps || realLength > 0.0)
      modifies this
      ensures length == realLength
      ensures Dot(re, re) == 1.0 && Dot(re, dual) == 0.0
      ensures realLength < eps ==> Value() == IDENTITY_DUAL
      ensures realLength >= eps ==> old(Value()) == DualTimes(DualNumber(length, along), Value())
    {
      length, along := GetLength(realLength);
      if realLength < eps {
        re, dual := ONE, ZERO;
        IdentityIsUnit(re, dual);
      } else {
        ghost var re0, dual0 := re, dual;
        var invRealLength := 1.0 / realLength;
        re := Scale(re, invRealLength);
        dual := Scale(dual, invRealLength);
        ghost var scaled := dual;
        var t := Dot(re, dual);
        dual := Minus(dual, Scale(re, t));
        Normalized(re0, dual0, realLength, invRealLength, t, along, re, scaled, dual);
      }
    }
  }
}

/**
 Oriented bounding boxes (pxr/base/gf/bbox3d.cpp): an axis-aligned range, and an affine
 matrix that takes it to the space it stands for.
 */
module BBox {
  import opened GfLinear

  // ---------------------------------------------------------------- aligned bounds

  /** The end of an interval that k takes lowest, and the one that it takes highest. */
  function LowEnd(lo: real, hi: real, k: real): real {
    if lo * k < hi * k then lo else hi
  }

  function HighEnd(lo: real, hi: real, k: real): real {
    if lo * k < hi * k then hi else lo
  }

  function Product(x: real, k: real): real {
    x * k
  }

  /** Where k takes them. */
  function LowProduct(lo: real, hi: real, k: real): real {
    Min(Product(lo, k), Product(hi, k))
  }

  function HighProduct(lo: real, hi: real, k: real): real {
    Max(Product(lo, k), Product(hi, k))
  }

  /** What coordinate i contributes to the bounds of column j. */
  function Low(m: Matrix, box: Range3, i: nat, j: nat): real
    requires i < 3 && j < 3
  {
    LowProduct(box.min.At(i), box.max.At(i), m.At(i, j))
  }

  function High(m: Matrix, box: Range3, i: nat, j: nat): real
    requires i < 3 && j < 3
  {
    HighProduct(box.min.At(i), box.max.At(i), m.At(i, j))
  }

  /** The translation and what the first n coordinates contribute. */
  function LowSum(m: Matrix, box: Range3, n: nat, j: nat): real
    requires n <= 3 && j < 3
  {
    if n == 0 then m.At(3, j) else LowSum(m, box, n - 1, j) + Low(m, box, n - 1, j)
  }

  function HighSum(m: Matrix, box: Range3, n: nat, j: nat): real
    requires n <= 3 && j < 3
  {
    if n == 0 then m.At(3, j) else HighSum(m, box, n - 1, j) + High(m, box, n - 1, j)
  }

  /** Coordinate i adds the smaller of its two products to one bound, and the larger to the other. */
  lemma SumsGrow(m: Matrix, box: Range3, i: nat, j: nat, a: real, b: real)
    requires i < 3 && j < 3 && a == box.min.At(i) * m.At(i, j) && b == box.max.At(i) * m.At(i, j)
    ensures LowSum(m, box, i + 1, j) == LowSum(m, box, i, j) + if a < b then a else b
    ensures HighSum(m, box, i + 1, j) == HighSum(m, box, i, j) + if a < b then b else a
  {
    assert Low(m, box, i, j) == if a < b then a else b;
    assert High(m, box, i, j) == if a < b then b else a;
  }

  function Aligned(m: Matrix, box: Range3): Range3 {
    if box.IsEmpty() then box
    else Range3(Vec3(LowSum(m, box, 3, 0), LowSum(m, box, 3, 1), LowSum(m, box, 3, 2)),
                Vec3(HighSum(m, box, 3, 0), HighSum(m, box, 3, 1), HighSum(m, box, 3, 2)))
  }

  /** The part of a transformed coordinate that the first n coordinates contribute. */
  function PointSum(m: Matrix, p: Vec3, n: nat, j: nat): real
    requires n <= 3 && j < 3
  {
    if n == 0 then m.At(3, j) else PointSum(m, p, n - 1, j) + Product(p.At(n - 1), m.At(n - 1, j))
  }

  lemma Between(lo: real, hi: real, x: real, k: real)
    requires lo <= x <= hi
    ensures LowProduct(lo, hi, k) <= Product(x, k) <= HighProduct(lo, hi, k)
  {
    if k >= 0.0 {
      ProductGrows(lo, x, k);
      ProductGrows(x, hi, k);
    } else {
      ProductGrows(lo, x, -k);
      ProductGrows(x, hi, -k);
    }
  }

  lemma ProductGrows(x: real, y: real, k: real)
    requires x <= y && k >= 0.0
    ensures Product(x, k) <= Product(y, k) && Product(y, -k) <= Product(x, -k)
  {
    var d := y - x;
    assert y == x + d && d * k >= 0.0;
  }

  lemma {:induction false} SumBetween(m: Matrix, box: Range3, p: Vec3, n: nat, j: nat)
    requires n <= 3 && j < 3 && box.Contains(p)
    ensures LowSum(m, box, n, j) <= PointSum(m, p, n, j) <= HighSum(m, box, n, j)
  {
    if n > 0 {
      SumBetween(m, box, p, n - 1, j);
      Between(box.min.At(n - 1), box.max.At(n - 1), p.At(n - 1), m.At(n - 1, j));
    }
  }

  lemma ApplyIsSum(m: Matrix, p: Vec3, j: nat)
    requires j < 3
    ensures Apply(m, p).At(j) == PointSum(m, p, 3, j)
  {
    assert PointSum(m, p, 3, j) == PointSum(m, p, 2, j) + p.z * m.r2.At(j);
    assert PointSum(m, p, 2, j) == PointSum(m, p, 1, j) + p.y * m.r1.At(j);
    assert PointSum(m, p, 1, j) == m.r3.At(j) + p.x * m.r0.At(j);
  }

  /** The aligned range contains every point of the transformed box. */
  lemma AlignedContains(m: Matrix, box: Range3, p: Vec3)
    requires box.Contains(p)
    ensures Aligned(m, box).Contains(Apply(m, p))
  {
    ApplyIsSum(m, p, 0);
    ApplyIsSum(m, p, 1);
    ApplyIsSum(m, p, 2);
    SumBetween(m, box, p, 3, 0);
    SumBetween(m, box, p, 3, 1);
    SumBetween(m, box, p, 3, 2);
  }

  predicate IsCorner(box: Range3, p: Vec3) {
    && (p.x == box.min.x || p.x == box.max.x)
    && (p.y == box.min.y || p.y == box.max.y)
    && (p.z == box.min.z || p.z == box.max.z)
  }

  /** The corner of the box that goes furthest down in column j, and the one that goes furthest up. */
  function LowCorner(m: Matrix, box: Range3, j: nat): Vec3
    requires j < 3
  {
    Vec3(LowEnd(box.min.x, box.max.x, m.At(0, j)),
         LowEnd(box.min.y, box.max.y, m.At(1, j)),
         LowEnd(box.min.z, box.max.z, m.At(2, j)))
  }

  function HighCorner(m: Matrix, box: Range3, j: nat): Vec3
    requires j < 3
  {
    Vec3(HighEnd(box.min.x, box.max.x, m.At(0, j)),
         HighEnd(box.min.y, box.max.y, m.At(1, j)),
         HighEnd(box.min.z, box.max.z, m.At(2, j)))
  }

  lemma EndProducts(lo: real, hi: real, k: real)
    ensures Product(LowEnd(lo, hi, k), k) == LowProduct(lo, hi, k)
    ensures Product(HighEnd(lo, hi, k), k) == HighProduct(lo, hi, k)
  {
  }

  /** No bound is loose: each of the six is attained at a corner of the box. */
  lemma AlignedIsTight(m: Matrix, box: Range3, j: nat)
    requires j < 3 && !box.IsEmpty()
    ensures exists c :: IsCorner(box, c) && box.Contains(c) && Apply(m, c).At(j) == Aligned(m, box).min.At(j)
    ensures exists c :: IsCorner(box, c) && box.Contains(c) && Apply(m, c).At(j) == Aligned(m, box).max.At(j)
  {
    var lo, hi := LowCorner(m, box, j), HighCorner(m, box, j);
    CornerSum(m, box, j, 3);
    ApplyIsSum(m, lo, j);
    ApplyIsSum(m, hi, j);
    assert IsCorner(box, lo) && IsCorner(box, hi);
  }

  lemma {:induction false} CornerSum(m: Matrix, box: Range3, j: nat, n: nat)
    requires j < 3 && n <= 3
    ensures PointSum(m, LowCorner(m, box, j), n, j) == LowSum(m, box, n, j)
    ensures PointSum(m, HighCorner(m, box, j), n, j) == HighSum(m, box, n, j)
  {
    if n > 0 {
      CornerSum(m, box, j, n - 1);
      EndProducts(box.min.At(n - 1), box.max.At(n - 1), m.At(n - 1, j));
    }
  }

  lemma UnionContains(a: Range3, b: Range3, p: Vec3)
    ensures a.Contains(p) || b.Contains(p) ==> Union(a, b).Contains(p)
  {
  }

  // ---------------------------------------------------------------- boxes

  const PRECISION_LIMIT := 0.0000000000001  // 1e-13

  /** The points of the space that a range and a matrix stand for. */
  ghost predicate Covers(box: Range3, m: Matrix, p: Vec3) {
    exists q :: box.Contains(q) && Apply(m, q) == p
  }

  function Volume(box: Range3, m: Matrix): real {
    if box.IsEmpty() then 0.0
    else Abs(m.Determinant3() * (box.max.x - box.min.x) * (box.max.y - box.min.y) * (box.max.z - box.min.z))
  }

  // --- what the volume is

  lemma AbsTimes(x: real, y: real)
    ensures Abs(x * y) == Abs(x) * Abs(y)
  {
  }

  /** A factor and three sizes. */
  function Bulk(d: real, x: real, y: real, z: real): real {
    d * x * y * z
  }

  lemma VolumeIs(box: Range3, m: Matrix)
    requires box.min.x <= box.max.x && box.min.y <= box.max.y && box.min.z <= box.max.z
    ensures Volume(box, m)
         == Bulk(Abs(m.Determinant3()), box.max.x - box.min.x, box.max.y - box.min.y, box.max.z - box.min.z)
  {
    var d, x, y, z := m.Determinant3(), box.max.x - box.min.x, box.max.y - box.min.y, box.max.z - box.min.z;
    AbsTimes(d * x * y, z);
    AbsTimes(d * x, y);
    AbsTimes(d, x);
  }

  lemma CutAdds(d: real, lo: real, c: real, hi: real, y: real, z: real)
    ensures Bulk(d, hi - lo, y, z) == Bulk(d, c - lo, y, z) + Bulk(d, hi - c, y, z)
    ensures Bulk(d, y, hi - lo, z) == Bulk(d, y, c - lo, z) + Bulk(d, y, hi - c, z)
    ensures Bulk(d, y, z, hi - lo) == Bulk(d, y, z, c - lo) + Bulk(d, y, z, hi - c)
  {
    assert d * (hi - lo) == d * (c - lo) + d * (hi - c);
    assert d * (hi - lo) * y == d * (c - lo) * y + d * (hi - c) * y;
    assert d * y * (hi - lo) == d * y * (c - lo) + d * y * (hi - c);
  }

  /** Cutting a box at a plane adds up the volumes. */
  lemma VolumeCutX(box: Range3, m: Matrix, c: real)
    requires box.min.x <= c <= box.max.x
    ensures Volume(box, m)
         == Volume(Range3(box.min, Vec3(c, box.max.y, box.max.z)), m)
            + Volume(Range3(Vec3(c, box.min.y, box.min.z), box.max), m)
  {
    if box.min.y <= box.max.y && box.min.z <= box.max.z {
      hide Volume, Bulk, Abs, Matrix.Determinant3;
      VolumeIs(box, m);
      VolumeIs(Range3(box.min, Vec3(c, box.max.y, box.max.z)), m);
      VolumeIs(Range3(Vec3(c, box.min.y, box.min.z), box.max), m);
      CutAdds(Abs(m.Determinant3()), box.min.x, c, box.max.x, box.max.y - box.min.y, box.max.z - box.min.z);
    }
  }

  lemma VolumeCutY(box: Range3, m: Matrix, c: real)
    requires box.min.y <= c <= box.max.y
    ensures Volume(box, m)
         == Volume(Range3(box.min, Vec3(box.max.x, c, box.max.z)), m)
            + Volume(Range3(Vec3(box.min.x, c, box.min.z), box.max), m)
  {
    if box.min.x <= box.max.x && box.min.z <= box.max.z {
      hide Volume, Bulk, Abs, Matrix.Determinant3;
      VolumeIs(box, m);
      VolumeIs(Range3(box.min, Vec3(box.max.x, c, box.max.z)), m);
      VolumeIs(Range3(Vec3(box.min.x, c, box.min.z), box.max), m);
      CutAdds(Abs(m.Determinant3()), box.min.y, c, box.max.y, box.max.x - box.min.x, box.max.z - box.min.z);
    }
  }

  lemma VolumeCutZ(box: Range3, m: Matrix, c: real)
    requires box.min.z <= c <= box.max.z
    ensures Volume(box, m)
         == Volume(Range3(box.min, Vec3(box.max.x, box.max.y, c)), m)
            + Volume(Range3(Vec3(box.min.x, box.min.y, c), box.max), m)
  {
    if box.min.x <= box.max.x && box.min.y <= box.max.y {
      hide Volume, Bulk, Abs, Matrix.Determinant3;
      VolumeIs(box, m);
      VolumeIs(Range3(box.min, Vec3(box.max.x, box.max.y, c)), m);
      VolumeIs(Range3(Vec3(box.min.x, box.min.y, c), box.max), m);
      CutAdds(Abs(m.Determinant3()), box.min.z, c, box.max.z, box.max.x - box.min.x, box.max.y - box.min.y);
    }
  }

  /** The unit cube has the volume 1, and a box turned around in any coordinate has none. */
  lemma VolumeOfCube(box: Range3, m: Matrix)
    ensures box == Range3(Vec3(0.0, 0.0, 0.0), Vec3(1.0, 1.0, 1.0)) && m == IDENTITY ==> Volume(box, m) == 1.0
    ensures box.max.x < box.min.x || box.max.y < box.min.y || box.max.z < box.min.z ==> Volume(box, m) == 0.0
  {
  }

  /** A transformation multiplies every volume by its determinant. */
  lemma VolumeTransforms(box: Range3, m: Matrix, n: Matrix)
    requires m.IsAffine() && n.IsAffine()
    ensures Volume(box, Mul(m, n)) == Volume(box, m) * Abs(Determinant(n))
  {
    if !box.IsEmpty() {
      hide Volume, Bulk, Abs, Determinant, Mul, Matrix.Determinant3;
      DeterminantTimes(m, n);
      DeterminantOfAffine(n);
      VolumeIs(box, m);
      VolumeIs(box, Mul(m, n));
      Rescaled(m.Determinant3(), n.Determinant3(), Mul(m, n).Determinant3(),
               box.max.x - box.min.x, box.max.y - box.min.y, box.max.z - box.min.z);
    }
  }

  lemma Rescaled(d: real, n: real, dn: real, x: real, y: real, z: real)
    requires dn == d * n
    ensures Bulk(Abs(dn), x, y, z) == Bulk(Abs(d), x, y, z) * Abs(n)
  {
    AbsTimes(d, n);
    Reordered(Abs(d), Abs(n), x, y, z);
  }

  lemma Reordered(d: real, n: real, x: real, y: real, z: real)
    ensures d * n * x * y * z == d * x * y * z * n
  {
    assert d * n * x == d * x * n;
    assert d * n * x * y == d * x * y * n;
  }

  /** The second matrix takes every point back to where the first one took it from. */
  ghost predicate Undoes(inverse: Matrix, m: Matrix) {
    forall p: Vec3 :: Apply(m, Apply(inverse, p)) == p
  }

  /** Both matrices are affine, and unless the first is degenerate the second undoes it. */
  ghost predicate Matched(m: Matrix, inverse: Matrix, degenerate: bool) {
    m.IsAffine() && inverse.IsAffine() && (!degenerate ==> Undoes(inverse, m))
  }

  lemma IdentityMatched()
    ensures Matched(IDENTITY, IDENTITY, false)
  {
    forall p: Vec3
      ensures Apply(IDENTITY, Apply(IDENTITY, p)) == p
    {
      ApplyIdentity(p);
    }
  }

  /** GetInverse matches an affine matrix that is not too close to singular. */
  lemma InverseMatched(m: Matrix, eps: real)
    requires m.IsAffine() && eps >= 0.0 && Abs(Determinant(m)) > eps
    ensures Matched(m, Inverse(m, eps), false)
  {
    InverseTimes(m, eps);
    InverseOfAffine(m, eps);
    forall p: Vec3
      ensures Apply(m, Apply(Inverse(m, eps), p)) == p
    {
      InverseUndoes(Inverse(m, eps), m, p);
    }
  }

  /** The range of b2, bounded in the space of b1, and united with the range of b1. */
  function Merged(box1: Range3, inverse1: Matrix, box2: Range3, m2: Matrix): Range3 {
    Union(box1, Aligned(Mul(m2, inverse1), box2))
  }

  /** The union in the space of b1 covers both boxes, as long as b1 can be inverted. */
  lemma MergedCovers(box1: Range3, m1: Matrix, inverse1: Matrix, box2: Range3, m2: Matrix, p: Vec3)
    requires Matched(m1, inverse1, false) && m2.IsAffine()
    requires Covers(box1, m1, p) || Covers(box2, m2, p)
    ensures Covers(Merged(box1, inverse1, box2, m2), m1, p)
  {
    var merged := Merged(box1, inverse1, box2, m2);
    if Covers(box1, m1, p) {
      var q :| box1.Contains(q) && Apply(m1, q) == p;
      UnionContains(box1, Aligned(Mul(m2, inverse1), box2), q);
      assert merged.Contains(q);
    } else {
      var q :| box2.Contains(q) && Apply(m2, q) == p;
      var r := Apply(inverse1, p);
      ApplyMul(m2, inverse1, q);
      AlignedContains(Mul(m2, inverse1), box2, q);
      UnionContains(box1, Aligned(Mul(m2, inverse1), box2), r);
      assert Undoes(inverse1, m1);
      assert merged.Contains(r) && Apply(m1, r) == p;
    }
  }

  lemma {:induction false} LowestOf(m: Matrix, box: Range3, j: nat, within: Range3)
    requires j < 3 && !box.IsEmpty() && forall q | box.Contains(q) :: within.Contains(Apply(m, q))
    ensures within.min.At(j) <= Aligned(m, box).min.At(j) && Aligned(m, box).max.At(j) <= within.max.At(j)
  {
    AlignedIsTight(m, box, j);
    var lo :| IsCorner(box, lo) && box.Contains(lo) && Apply(m, lo).At(j) == Aligned(m, box).min.At(j);
    var hi :| IsCorner(box, hi) && box.Contains(hi) && Apply(m, hi).At(j) == Aligned(m, box).max.At(j);
    assert within.Contains(Apply(m, lo)) && within.Contains(Apply(m, hi));
  }

  /** No range in the space of b1 that holds both boxes is smaller than the union. */
  lemma MergedIsLeast(box1: Range3, inverse1: Matrix, box2: Range3, m2: Matrix, within: Range3, p: Vec3)
    requires !box1.IsEmpty() && !box2.IsEmpty() && m2.IsAffine() && inverse1.IsAffine()
    requires forall q | box1.Contains(q) :: within.Contains(q)
    requires forall q | box2.Contains(q) :: within.Contains(Apply(inverse1, Apply(m2, q)))
    ensures Merged(box1, inverse1, box2, m2).Contains(p) ==> within.Contains(p)
  {
    forall q | box2.Contains(q)
      ensures within.Contains(Apply(Mul(m2, inverse1), q))
    {
      ApplyMul(m2, inverse1, q);
    }
    assert box1.Contains(box1.min) && box1.Contains(box1.max);
    LowestOf(Mul(m2, inverse1), box2, 0, within);
    LowestOf(Mul(m2, inverse1), box2, 1, within);
    LowestOf(Mul(m2, inverse1), box2, 2, within);
  }

  /** A range is empty exactly if it contains nothing. */
  lemma EmptyHasNoPoint(box: Range3)
    ensures box.IsEmpty() <==> forall p :: !box.Contains(p)
  {
    assert !box.IsEmpty() ==> box.Contains(box.min);
  }

  /** Where a point goes: the last row is the translation. */
  lemma ApplyIs(m: Matrix, p: Vec3)
    ensures Apply(m, p) == Vec3(p.x * m.r0.x + p.y * m.r1.x + p.z * m.r2.x + m.r3.x,
                                p.x * m.r0.y + p.y * m.r1.y + p.z * m.r2.y + m.r3.y,
                                p.x * m.r0.z + p.y * m.r1.z + p.z * m.r2.z + m.r3.z)
  {
  }

  lemma MergedCoversAll(box1: Range3, m1: Matrix, inverse1: Matrix, box2: Range3, m2: Matrix)
    requires Matched(m1, inverse1, false) && m2.IsAffine()
    ensures forall p | Covers(box1, m1, p) || Covers(box2, m2, p) :: Covers(Merged(box1, inverse1, box2, m2), m1, p)
  {
    forall p | Covers(box1, m1, p) || Covers(box2, m2, p)
      ensures Covers(Merged(box1, inverse1, box2, m2), m1, p)
    {
      MergedCovers(box1, m1, inverse1, box2, m2, p);
    }
  }

  lemma ApplyIdentity(p: Vec3)
    ensures Apply(IDENTITY, p) == p
  {
  }

  lemma AlignedCovers(box1: Range3, m1: Matrix, box2: Range3, m2: Matrix, p: Vec3)
    requires Covers(box1, m1, p) || Covers(box2, m2, p)
    ensures Covers(Union(Aligned(m1, box1), Aligned(m2, box2)), IDENTITY, p)
  {
    if Covers(box1, m1, p) {
      var q :| box1.Contains(q) && Apply(m1, q) == p;
      AlignedContains(m1, box1, q);
    } else {
      var q :| box2.Contains(q) && Apply(m2, q) == p;
      AlignedContains(m2, box2, q);
    }
    UnionContains(Aligned(m1, box1), Aligned(m2, box2), p);
    ApplyIdentity(p);
  }

  lemma AlignedCoversAll(box1: Range3, m1: Matrix, box2: Range3, m2: Matrix)
    ensures forall p | Covers(box1, m1, p) || Covers(box2, m2, p) ::
              Covers(Union(Aligned(m1, box1), Aligned(m2, box2)), IDENTITY, p)
  {
    forall p | Covers(box1, m1, p) || Covers(box2, m2, p)
      ensures Covers(Union(Aligned(m1, box1), Aligned(m2, box2)), IDENTITY, p)
    {
      AlignedCovers(box1, m1, box2, m2, p);
    }
  }

  class GfBBox3d {
    var box: Range3
    var matrix: Matrix
    var inverse: Matrix
    var isDegenerate: bool
    var hasZeroAreaPrimitives: bool

    ghost predicate Valid()
      reads this
    {
      Matched(matrix, inverse, isDegenerate)
    }

    ghost predicate Contains(p: Vec3)
      reads this
    {
      Covers(box, matrix, p)
    }

    /** A range in the space it bounds. */
    constructor (box: Range3)
      ensures Valid() && this.box == box && matrix == IDENTITY && !isDegenerate && !hasZeroAreaPrimitives
    {
      this.box := box;
      matrix, inverse := IDENTITY, IDENTITY;
      isDegenerate, hasZeroAreaPrimitives := false, false;
      IdentityMatched();
    }

    constructor Copy(b: GfBBox3d)
      ensures box == b.box && matrix == b.matrix && inverse == b.inverse
      ensures isDegenerate == b.isDegenerate && hasZeroAreaPrimitives == b.hasZeroAreaPrimitives
    {
      box, matrix, inverse := b.box, b.matrix, b.inverse;
      isDegenerate, hasZeroAreaPrimitives := b.isDegenerate, b.hasZeroAreaPrimitives;
    }

    /** _SetMatrices: a matrix too close to singular makes the box degenerate. */
    method SetMatrices(m: Matrix)
      requires m.IsAffine()
      modifies this`matrix, this`inverse, this`isDegenerate
      ensures Valid() && matrix == m
      ensures isDegenerate <==> Abs(Determinant(m)) <= 0.0000000000001
      ensures inverse == if isDegenerate then IDENTITY else Inverse(m, PRECISION_LIMIT)
    {
      isDegenerate := false;
      matrix := m;
      inverse := Inverse(m, PRECISION_LIMIT);
      var det := Determinant(m);
      if Abs(det) <= PRECISION_LIMIT {
        isDegenerate := true;
        inverse := IDENTITY;
        IdentityMatched();
      } else {
        InverseMatched(m, PRECISION_LIMIT);
      }
    }

    method Set(box: Range3, m: Matrix)
      requires m.IsAffine()
      modifies this`box, this`matrix, this`inverse, this`isDegenerate
      ensures Valid() && this.box == box && matrix == m
    {
      this.box := box;
      SetMatrices(m);
    }

    /** Applies a further transformation to what the box stands for. */
    method Transform(m: Matrix)
      requires Valid() && m.IsAffine()
      modifies this`matrix, this`inverse, this`isDegenerate
      ensures Valid() && matrix == Mul(old(matrix), m)
      ensures forall p :: old(Contains(p)) ==> Contains(Apply(m, p))
    {
      ghost var before := matrix;
      ApplyMul(before, m, Vec3(0.0, 0.0, 0.0));
      SetMatrices(Mul(matrix, m));
      forall p | Covers(box, before, p)
        ensures Covers(box, matrix, Apply(m, p))
      {
        var q :| box.Contains(q) && Apply(before, q) == p;
        ApplyMul(before, m, q);
      }
    }

    /** Sums the smaller and the larger products of each column. */
    method ComputeAlignedRange() returns (range: Range3)
      ensures range == Aligned(matrix, box)
    {
      if box.IsEmpty() {
        return box;
      }
      var trans := Vec3(matrix.At(3, 0), matrix.At(3, 1), matrix.At(3, 2));
      var alignedMin, alignedMax := trans, trans;
      for j := 0 to 3
        invariant alignedMin == Vec3(LowSum(matrix, box, if 0 < j then 3 else 0, 0),
                                     LowSum(matrix, box, if 1 < j then 3 else 0, 1),
                                     LowSum(matrix, box, if 2 < j then 3 else 0, 2))
        invariant alignedMax == Vec3(HighSum(matrix, box, if 0 < j then 3 else 0, 0),
                                     HighSum(matrix, box, if 1 < j then 3 else 0, 1),
                                     HighSum(matrix, box, if 2 < j then 3 else 0, 2))
      {
        var min, max := AlignColumn(j, alignedMin.At(j), alignedMax.At(j));
        alignedMin, alignedMax := alignedMin.With(j, min), alignedMax.With(j, max);
      }
      range := Range3(alignedMin, alignedMax);
    }

    /** The inner loop, over the rows of column j. */
    method AlignColumn(j: nat, min0: real, max0: real) returns (min: real, max: real)
      requires j < 3 && min0 == max0 == matrix.At(3, j)
      ensures min == LowSum(matrix, box, 3, j) && max == HighSum(matrix, box, 3, j)
    {
      min, max := min0, max0;
      assert LowSum(matrix, box, 0, j) == HighSum(matrix, box, 0, j) == min0;
      hide LowSum, HighSum, Range3.IsEmpty;
      for i := 0 to 3
        invariant min == LowSum(matrix, box, i, j) && max == HighSum(matrix, box, i, j)
      {
        var a := box.min.At(i) * matrix.At(i, j);
        var b := box.max.At(i) * matrix.At(i, j);
        SumsGrow(matrix, box, i, j, a, b);
        if a < b {
          min, max := min + a, max + b;
        } else {
          min, max := min + b, max + a;
        }
      }
    }

    /** _CombineInOrder: both boxes in the space of the first. */
    static method CombineInOrder(b1: GfBBox3d, b2: GfBBox3d) returns (result: GfBBox3d)
      requires b1.Valid() && b2.Valid() && !b1.isDegenerate
      ensures fresh(result) && result.Valid()
      ensures result.matrix == b1.matrix && result.box == Merged(b1.box, b1.inverse, b2.box, b2.matrix)
      ensures forall p :: b1.Contains(p) || b2.Contains(p) ==> result.Contains(p)
    {
      var b2t := new GfBBox3d(b2.box);
      b2t.matrix := Mul(b2.matrix, b1.inverse);
      b2t.inverse := Mul(b1.matrix, b2.inverse);
      var proj := b2t.ComputeAlignedRange();
      result := new GfBBox3d.Copy(b1);
      result.box := Union(result.box, proj);
      MergedCoversAll(b1.box, b1.matrix, b1.inverse, b2.box, b2.matrix);
    }

    method GetVolume() returns (volume: real)
      ensures volume == Volume(box, matrix) >= 0.0
    {
      if box.IsEmpty() {
        return 0.0;
      }
      var size := Vec3(box.max.x - box.min.x, box.max.y - box.min.y, box.max.z - box.min.z);
      volume := Abs(matrix.Determinant3() * size.x * size.y * size.z);
    }

    /** The range and the space of a box. */
    ghost predicate Is(box: Range3, m: Matrix)
      reads this
    {
      this.box == box && matrix == m
    }

    /**
     Of the two merges, the one in the space of b1 unless its volume is larger by more than
     1e-10 and by more than a millionth.
     */
    static ghost predicate IsSmaller(b1: GfBBox3d, b2: GfBBox3d, result: GfBBox3d)
      reads b1, b2, result
    {
      var box1, box2 := Merged(b1.box, b1.inverse, b2.box, b2.matrix), Merged(b2.box, b2.inverse, b1.box, b1.matrix);
      var v1, v2 := Volume(box1, b1.matrix), Volume(box2, b2.matrix);
      if v1 - v2 <= 0.0000000001 || v1 - v2 <= v1 * 0.000001
      then result.Is(box1, b1.matrix)
      else result.Is(box2, b2.matrix)
    }

    static lemma FirstIsChosen(v1: real, v2: real)
      requires v1 >= 0.0 && v2 >= 0.0
      ensures Abs(v1 - v2) <= Tolerance(v1, v2) || v1 < v2
         <==> v1 - v2 <= 0.0000000001 || v1 - v2 <= v1 * 0.000001
    {
    }

    /** Both boxes can be inverted: of the two merges, the smaller, or the first if they hardly differ. */
    static method CombineSmaller(b1: GfBBox3d, b2: GfBBox3d) returns (result: GfBBox3d)
      requires b1.Valid() && b2.Valid() && !b1.isDegenerate && !b2.isDegenerate
      ensures fresh(result) && result.Valid()
      ensures forall p :: b1.Contains(p) || b2.Contains(p) ==> result.Contains(p)
      ensures IsSmaller(b1, b2, result)
    {
      var result1 := CombineInOrder(b1, b2);
      var result2 := CombineInOrder(b2, b1);
      var v1 := result1.GetVolume();
      var v2 := result2.GetVolume();
      var tolerance := Tolerance(v1, v2);
      hide Tolerance, Volume, Merged;
      FirstIsChosen(v1, v2);
      result := if Abs(v1 - v2) <= tolerance then result1 else if v1 < v2 then result1 else result2;
    }

    static function Tolerance(v1: real, v2: real): real {
      Max(0.0000000001, 0.000001 * Abs(Max(v1, v2)))  // 1e-10, 1e-6
    }

    /**
     Combine: whichever of the boxes are empty or degenerate, the result contains every point
     that one of them contains, and it has primitives of zero area if one of them has.  An empty
     box adds nothing, and a degenerate one is bounded in the space of the other.
     */
    static method Combine(b1: GfBBox3d, b2: GfBBox3d) returns (result: GfBBox3d)
      requires b1.Valid() && b2.Valid()
      ensures fresh(result) && result.Valid()
      ensures forall p :: b1.Contains(p) || b2.Contains(p) ==> result.Contains(p)
      ensures result.hasZeroAreaPrimitives == (b1.hasZeroAreaPrimitives || b2.hasZeroAreaPrimitives)
      ensures if b1.box.IsEmpty() then result.Is(b2.box, b2.matrix)
              else if b2.box.IsEmpty() then result.Is(b1.box, b1.matrix)
              else if !b1.isDegenerate && !b2.isDegenerate then IsSmaller(b1, b2, result)
              else if !b1.isDegenerate then result.Is(Merged(b1.box, b1.inverse, b2.box, b2.matrix), b1.matrix)
              else if !b2.isDegenerate then result.Is(Merged(b2.box, b2.inverse, b1.box, b1.matrix), b2.matrix)
              else result.Is(Union(Aligned(b1.matrix, b1.box), Aligned(b2.matrix, b2.box)), IDENTITY)
    {
      if b1.box.IsEmpty() {
        result := new GfBBox3d.Copy(b2);
      } else if b2.box.IsEmpty() {
        result := new GfBBox3d.Copy(b1);
      } else if b1.isDegenerate {
        if b2.isDegenerate {
          result := CombineAligned(b1, b2);
        } else {
          result := CombineInOrder(b2, b1);
        }
      } else if b2.isDegenerate {
        result := CombineInOrder(b1, b2);
      } else {
        result := CombineSmaller(b1, b2);
      }
      result.hasZeroAreaPrimitives := b1.hasZeroAreaPrimitives || b2.hasZeroAreaPrimitives;
    }

    /** Neither box can be inverted: their aligned ranges, in the common space. */
    static method CombineAligned(b1: GfBBox3d, b2: GfBBox3d) returns (result: GfBBox3d)
      requires b1.Valid() && b2.Valid()
      ensures fresh(result) && result.Valid()
      ensures forall p :: b1.Contains(p) || b2.Contains(p) ==> result.Contains(p)
      ensures result.Is(Union(Aligned(b1.matrix, b1.box), Aligned(b2.matrix, b2.box)), IDENTITY)
    {
      var r1 := b1.ComputeAlignedRange();
      var r2 := b2.ComputeAlignedRange();
      result := new GfBBox3d(Union(r1, r2));
      AlignedCoversAll(b1.box, b1.matrix, b2.box, b2.matrix);
    }
  }
}

/** The point formulas of ge25519.c on limb vectors, and the group elements they compute. */
module PointSpec {
  import opened Field
  import opened Residues
  import opened Edwards
  import opened MulBound

  // ----- field operations up to congruence

  lemma MulNear(x: Fe, y: Fe, a: int, b: int)
    requires Near(Val(x), a) && Near(Val(y), b)
    ensures Near(Val(FeMul(x, y)), a * b)
  {
    hide Zero, Val, FeMul;
    NearFromMod(Val(FeMul(x, y)), Val(x) * Val(y));
    ProductDifference(Val(x), Val(y), a, b);
    Combine2(Val(x) * Val(y) - a * b, Val(y), Val(x) - a, a, Val(y) - b);
    NearTrans(Val(FeMul(x, y)), Val(x) * Val(y), a * b);
  }

  lemma AddNear(x: Fe, y: Fe, a: int, b: int)
    requires Near(Val(x), a) && Near(Val(y), b)
    ensures Near(Val(FeAdd(x, y)), a + b)
  {
    hide Zero, Val, FeAdd;
    NearFromMod(Val(FeAdd(x, y)), Val(x) + Val(y));
    ZeroAdd(Val(x) - a, Val(y) - b);
    NearTrans(Val(FeAdd(x, y)), Val(x) + Val(y), a + b);
  }

  lemma SubNear(x: Fe, y: Fe, a: int, b: int)
    requires Near(Val(x), a) && Near(Val(y), b)
    ensures Near(Val(FeSub(x, y)), a - b)
  {
    hide Zero, Val, FeSub;
    NearFromMod(Val(FeSub(x, y)), Val(x) - Val(y));
    Combine2(Val(x) - Val(y) - (a - b), 1, Val(x) - a, -1, Val(y) - b);
    NearTrans(Val(FeSub(x, y)), Val(x) - Val(y), a - b);
  }

  lemma NegNear(x: Fe, a: int)
    requires Near(Val(x), a)
    ensures Near(Val(FeNeg(x)), -a)
  {
    hide Zero, Val, FeNeg;
    NearFromMod(Val(FeNeg(x)), -Val(x));
    ZeroMul(-1, Val(x) - a);
    NearTrans(Val(FeNeg(x)), -Val(x), -a);
  }

  lemma NearSelf(x: Fe)
    ensures Near(Val(x), Val(x))
  {
    NearFromMod(Val(x), Val(x));
  }

  // ----- structs

  /** ge25519_p3 by value: extended coordinates as limb vectors. */
  datatype P3 = P3(x: Fe, y: Fe, z: Fe, t: Fe)

  /** ge25519_p1p1 by value. */
  datatype P1P1 = P1P1(x: Fe, z: Fe, y: Fe, t: Fe)

  function ExtOf(p: P3): Ext {
    Ext(Val(p.x), Val(p.y), Val(p.z), Val(p.t))
  }

  /** c holds the completed point e, up to congruence. */
  ghost predicate Completes(c: P1P1, e: Completed) {
    Near(Val(c.x), e.e) && Near(Val(c.y), e.h) && Near(Val(c.z), e.g) && Near(Val(c.t), e.f)
  }

  ghost predicate NearExt(p: Ext, q: Ext) {
    Near(p.x, q.x) && Near(p.y, q.y) && Near(p.z, q.z) && Near(p.t, q.t)
  }

  // ----- the formulas

  const EC2D_VALUE: nat := 0x2406d9dc56dffce7198e80f2eef3d13000e0149a8283b156ebd69b9426b2f159

  /** ge25519_ec2d, the limbs of 2d mod p. */
  function Ec2d(): Fe {
    TopOfEc2d();
    LimbsOf(EC2D_VALUE, 32)
  }

  lemma TopOfEc2d()
    ensures Val(LimbsOf(EC2D_VALUE, 32)) == EC2D_VALUE && LimbsOf(EC2D_VALUE, 32)[31] == 0x24
  {
    hide Val, LimbsOf;
    Pow256At31();
    LimbsOfVal(EC2D_VALUE, 32);
    TopLimbIs(LimbsOf(EC2D_VALUE, 32), 0x24);
  }

  lemma Ec2dIsTwiceD()
    ensures Near(Val(Ec2d()), 2 * D)
  {
    TopOfEc2d();
    hide Val, LimbsOf;
    assert Val(Ec2d()) == EC2D_VALUE;
    assert EC2D_VALUE - 2 * D == -1 * P;
    MultipleIsZero(-1);
  }

  function ToP3(c: P1P1): P3 {
    P3(FeMul(c.x, c.t), FeMul(c.y, c.z), FeMul(c.z, c.t), FeMul(c.x, c.y))
  }

  function AddPoints(p: P3, q: P3): P1P1 {
    var a := FeMul(FeSub(p.y, p.x), FeSub(q.y, q.x));
    var b := FeMul(FeAdd(p.x, p.y), FeAdd(q.x, q.y));
    var c := FeMul(FeMul(p.t, q.t), Ec2d());
    var zz := FeMul(p.z, q.z);
    var d := FeAdd(zz, zz);
    P1P1(FeSub(b, a), FeAdd(d, c), FeAdd(b, a), FeSub(d, c))
  }

  function DoublePoint(x: Fe, y: Fe, z: Fe): P1P1 {
    var a, b := FeMul(x, x), FeMul(y, y);
    var c := FeAdd(FeMul(z, z), FeMul(z, z));
    var d := FeNeg(a);
    var xy := FeAdd(x, y);
    var g := FeAdd(d, b);
    P1P1(FeSub(FeSub(FeMul(xy, xy), a), b), g, FeSub(d, b), FeSub(g, c))
  }

  lemma ToP3Near(c: P1P1, e: Completed)
    requires Completes(c, e)
    ensures NearExt(ExtOf(ToP3(c)), ToExt(e))
  {
    hide Zero, Val, FeMul;
    MulNear(c.x, c.t, e.e, e.f);
    MulNear(c.y, c.z, e.h, e.g);
    MulNear(c.z, c.t, e.g, e.f);
    MulNear(c.x, c.y, e.e, e.h);
  }

  function Minuses(u: Ext, v: Ext): int {
    (u.y - u.x) * (v.y - v.x)
  }

  function Pluses(u: Ext, v: Ext): int {
    (u.x + u.y) * (v.x + v.y)
  }

  function Twist(u: Ext, v: Ext): int {
    (u.t * v.t) * (2 * D)
  }

  function Heights(u: Ext, v: Ext): int {
    u.z * v.z
  }

  /** The four products of the addition, as limbs. */
  lemma MinusesNear(p: P3, q: P3)
    ensures Near(Val(FeMul(FeSub(p.y, p.x), FeSub(q.y, q.x))), Minuses(ExtOf(p), ExtOf(q)))
  {
    hide Val, FeMul, FeSub, Near;
    var u, v := ExtOf(p), ExtOf(q);
    NearSelf(p.x); NearSelf(p.y);
    NearSelf(q.x); NearSelf(q.y);
    SubNear(p.y, p.x, u.y, u.x);
    SubNear(q.y, q.x, v.y, v.x);
    MulNear(FeSub(p.y, p.x), FeSub(q.y, q.x), u.y - u.x, v.y - v.x);
  }

  lemma PlusesNear(p: P3, q: P3)
    ensures Near(Val(FeMul(FeAdd(p.x, p.y), FeAdd(q.x, q.y))), Pluses(ExtOf(p), ExtOf(q)))
  {
    hide Val, FeMul, FeAdd, Near;
    var u, v := ExtOf(p), ExtOf(q);
    NearSelf(p.x); NearSelf(p.y);
    NearSelf(q.x); NearSelf(q.y);
    AddNear(p.x, p.y, u.x, u.y);
    AddNear(q.x, q.y, v.x, v.y);
    MulNear(FeAdd(p.x, p.y), FeAdd(q.x, q.y), u.x + u.y, v.x + v.y);
  }

  lemma TwistNear(t: Fe, t': Fe, u: Ext, v: Ext)
    requires Near(Val(t), u.t) && Near(Val(t'), v.t)
    ensures Near(Val(FeMul(FeMul(t, t'), Ec2d())), Twist(u, v))
  {
    hide Val, FeMul, Ec2d, Near;
    MulNear(t, t', u.t, v.t);
    Ec2dIsTwiceD();
    MulNear(FeMul(t, t'), Ec2d(), u.t * v.t, 2 * D);
  }

  /** From the four products to the completed point. */
  lemma CompletedFrom(a: Fe, b: Fe, c: Fe, d: Fe, u: Ext, v: Ext)
    requires Near(Val(a), Minuses(u, v)) && Near(Val(b), Pluses(u, v)) && Near(Val(c), Twist(u, v))
    requires Near(Val(d), Heights(u, v) + Heights(u, v))
    ensures Near(Val(FeSub(b, a)), Sum(u, v).e) && Near(Val(FeAdd(b, a)), Sum(u, v).h)
    ensures Near(Val(FeAdd(d, c)), Sum(u, v).g) && Near(Val(FeSub(d, c)), Sum(u, v).f)
  {
    hide *;
    CompletedNear(a, b, c, d, Minuses(u, v), Pluses(u, v), Twist(u, v), Heights(u, v) + Heights(u, v));
    SumEntries(u, v);
  }

  lemma CompletedNear(a: Fe, b: Fe, c: Fe, d: Fe, an: int, bn: int, cn: int, dn: int)
    requires Near(Val(a), an) && Near(Val(b), bn) && Near(Val(c), cn) && Near(Val(d), dn)
    ensures Near(Val(FeSub(b, a)), bn - an) && Near(Val(FeAdd(b, a)), bn + an)
    ensures Near(Val(FeAdd(d, c)), dn + cn) && Near(Val(FeSub(d, c)), dn - cn)
  {
    hide Val, FeAdd, FeSub, Near;
    SubNear(b, a, bn, an);
    AddNear(b, a, bn, an);
    AddNear(d, c, dn, cn);
    SubNear(d, c, dn, cn);
  }

  lemma SumEntries(u: Ext, v: Ext)
    ensures Sum(u, v) == Completed(Pluses(u, v) - Minuses(u, v), Pluses(u, v) + Minuses(u, v),
                                   Heights(u, v) + Heights(u, v) + Twist(u, v), Heights(u, v) + Heights(u, v) - Twist(u, v))
  {
    HalfSumIs(u, v);
    SumFromProducts(u.x, u.y, v.x, v.y);
    TwistIs(u.t * v.t, D);
  }

  lemma TwistIs(tt: int, d: int)
    ensures tt * (2 * d) == 2 * (d * tt)
  {
  }

  lemma AddPointsNear(p: P3, q: P3)
    ensures Completes(AddPoints(p, q), Sum(ExtOf(p), ExtOf(q)))
  {
    hide Val, FeMul, FeAdd, FeSub, Ec2d, Near, Minuses, Pluses, Twist, Sum;
    var u, v := ExtOf(p), ExtOf(q);
    MinusesNear(p, q);
    PlusesNear(p, q);
    NearSelf(p.t);
    NearSelf(q.t);
    TwistNear(p.t, q.t, u, v);
    NearSelf(p.z);
    NearSelf(q.z);
    var zz := FeMul(p.z, q.z);
    MulNear(p.z, q.z, u.z, v.z);
    AddNear(zz, zz, Heights(u, v), Heights(u, v));
    CompletedFrom(FeMul(FeSub(p.y, p.x), FeSub(q.y, q.x)), FeMul(FeAdd(p.x, p.y), FeAdd(q.x, q.y)),
                  FeMul(FeMul(p.t, q.t), Ec2d()), FeAdd(zz, zz), u, v);
  }

  lemma SumFromProducts(x1: int, y1: int, x2: int, y2: int)
    ensures var a, b := (y1 - x1) * (y2 - x2), (x1 + y1) * (x2 + y2);
            b - a == 2 * (x1 * y2 + y1 * x2) && b + a == 2 * (y1 * y2 + x1 * x2)
  {
  }

  lemma DoublePointNear(x: Fe, y: Fe, z: Fe)
    ensures Completes(DoublePoint(x, y, z), Double(Val(x), Val(y), Val(z)))
  {
    hide Val, FeMul, FeAdd, FeSub, FeNeg, Near, DoubleOf, Double;
    var u, v, w := Val(x), Val(y), Val(z);
    SquareNear(x);
    SquareNear(y);
    SquareNear(z);
    SumSquareNear(x, y);
    DoubleFromSquares(FeMul(x, x), FeMul(y, y), FeMul(z, z), FeMul(FeAdd(x, y), FeAdd(x, y)),
                      u * u, v * v, w * w, (u + v) * (u + v));
    DoubleIs(u, v, w);
  }

  lemma SquareNear(x: Fe)
    ensures Near(Val(FeMul(x, x)), Val(x) * Val(x))
  {
    hide Val, FeMul, Near;
    NearSelf(x);
    MulNear(x, x, Val(x), Val(x));
  }

  lemma SumSquareNear(x: Fe, y: Fe)
    ensures Near(Val(FeMul(FeAdd(x, y), FeAdd(x, y))), (Val(x) + Val(y)) * (Val(x) + Val(y)))
  {
    hide Val, FeMul, FeAdd, Near;
    NearSelf(x);
    NearSelf(y);
    AddNear(x, y, Val(x), Val(y));
    MulNear(FeAdd(x, y), FeAdd(x, y), Val(x) + Val(y), Val(x) + Val(y));
  }

  lemma DoubleFromSquares(a: Fe, b: Fe, zz: Fe, s: Fe, an: int, bn: int, cn: int, sn: int)
    requires Near(Val(a), an) && Near(Val(b), bn) && Near(Val(zz), cn) && Near(Val(s), sn)
    ensures var c := DoubleOf(an, bn, cn, sn);
            && Near(Val(FeSub(FeSub(s, a), b)), c.e)
            && Near(Val(FeSub(FeNeg(a), b)), c.h)
            && Near(Val(FeAdd(FeNeg(a), b)), c.g)
            && Near(Val(FeSub(FeAdd(FeNeg(a), b), FeAdd(zz, zz))), c.f)
  {
    hide Zero, Val, FeMul, FeAdd, FeSub, FeNeg, Near;
    NegNear(a, an);
    AddNear(zz, zz, cn, cn);
    SubNear(s, a, sn, an);
    SubNear(FeSub(s, a), b, sn - an, bn);
    AddNear(FeNeg(a), b, -an, bn);
    SubNear(FeNeg(a), b, -an, bn);
    SubNear(FeAdd(FeNeg(a), b), FeAdd(zz, zz), -an + bn, cn + cn);
  }

  // ----- congruent coordinates name the same point

  lemma NearSquare(a: int, b: int)
    requires Near(a, b)
    ensures Zero(a * a - b * b)
  {
    hide Zero;
    ProductDifference(a, a, b, b);
    Combine2(a * a - b * b, a, a - b, b, a - b);
  }

  lemma OnCurveNear(p: Ext, q: Ext)
    requires NearExt(p, q) && OnCurve(q)
    ensures OnCurve(p)
  {
    hide Zero;
    SegreIs(p);
    SegreIs(q);
    CurveIs(p, D);
    CurveIs(q, D);
    NearSquare(p.x, q.x);
    NearSquare(p.y, q.y);
    NearSquare(p.z, q.z);
    NearSquare(p.t, q.t);
    ProductDifference(p.x, p.y, q.x, q.y);
    ProductDifference(p.z, p.t, q.z, q.t);
    Combine2(p.x * p.y - q.x * q.y, p.y, p.x - q.x, q.x, p.y - q.y);
    Combine2(p.z * p.t - q.z * q.t, p.t, p.z - q.z, q.z, p.t - q.t);
    Combine3(Segre(p), 1, Segre(q), 1, p.x * p.y - q.x * q.y, -1, p.z * p.t - q.z * q.t);
    Combine3(p.y * p.y - q.y * q.y - (p.x * p.x - q.x * q.x) - (p.z * p.z - q.z * q.z),
             1, p.y * p.y - q.y * q.y, -1, p.x * p.x - q.x * q.x, -1, p.z * p.z - q.z * q.z);
    Combine3(Curve(p, D), 1, Curve(q, D),
             1, p.y * p.y - q.y * q.y - (p.x * p.x - q.x * q.x) - (p.z * p.z - q.z * q.z),
             -D, p.t * p.t - q.t * q.t);
  }

  lemma IsSumNear(p: Ext, q: Ext, r: Ext, r': Ext)
    requires IsSum(p, q, r) && NearExt(r', r)
    ensures IsSum(p, q, r')
  {
    hide Zero;
    SumXIs(p, q, r, D);
    SumXIs(p, q, r', D);
    SumYIs(p, q, r, D);
    SumYIs(p, q, r', D);
    var n, k := (p.z * q.z) * (p.z * q.z), D * ((p.x * p.y) * (q.x * q.y));
    var m1, m2 := (p.z * q.z) * (p.x * q.y + p.y * q.x), (p.z * q.z) * (p.y * q.y + p.x * q.x);
    IsSumNearAlgebra(r.x, r'.x, r.z, r'.z, n + k, m1);
    IsSumNearAlgebra(r.y, r'.y, r.z, r'.z, n - k, m2);
    Combine3(r'.x * (n + k) - r'.z * m1, 1, r.x * (n + k) - r.z * m1, n + k, r'.x - r.x, -m1, r'.z - r.z);
    Combine3(r'.y * (n - k) - r'.z * m2, 1, r.y * (n - k) - r.z * m2, n - k, r'.y - r.y, -m2, r'.z - r.z);
  }

  lemma IsSumNearAlgebra(x: int, x': int, z: int, z': int, n: int, m: int)
    ensures x' * n - z' * m == x * n - z * m + n * (x' - x) - m * (z' - z)
  {
  }

  lemma NonZeroNear(a: int, b: int)
    requires Near(a, b) && !Zero(b)
    ensures !Zero(a)
  {
    hide Zero;
    if Zero(a) {
      Combine2(b, 1, a, -1, a - b);
    }
  }
}

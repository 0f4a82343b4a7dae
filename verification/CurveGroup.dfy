/**
 The points of the curve modulo p, with the affine addition law.  Given that p is prime, Fermat's
 theorem, that d is not a square and that the law associates, they are a group, and projective
 coordinates name its elements.
 */
module CurveGroup {
  import opened Field
  import opened Residues
  import opened Edwards
  import opened AffineCurve
  import opened PointGroup

  datatype Pt = Pt(x: int, y: int)

  ghost predicate OnCurvePt(p: Pt) {
    0 <= p.x < P && 0 <= p.y < P && Solves(p.x, p.y)
  }

  ghost function NeutralPt(): (p: Pt)
    ensures OnCurvePt(p) && p.x == 0 && p.y == 1
  {
    NeutralSolves();
    Pt(0, 1)
  }

  lemma NeutralSolves()
    ensures Solves(0, 1)
  {
    hide Zero;
    ZeroIff(0);
    assert Den(1) == 1 + D && Num(1) == 0;
    assert Prod(Square(0), Den(1)) == 0;
  }

  /** The points of the curve by their affine residues. */
  type CurvePoint = p: Pt | OnCurvePt(p) ghost witness NeutralPt()

  function K(a: Pt, b: Pt): int {
    D * ((a.x * a.y) * (b.x * b.y))
  }

  function CrossX(a: Pt, b: Pt): int {
    a.x * b.y + a.y * b.x
  }

  function CrossY(a: Pt, b: Pt): int {
    a.y * b.y + a.x * b.x
  }

  /** The affine addition law. */
  function Law(a: Pt, b: Pt): Pt {
    Pt(Frac(CrossX(a, b), 1 + K(a, b)), Frac(CrossY(a, b), 1 - K(a, b)))
  }

  ghost function Plus(a: CurvePoint, b: CurvePoint): CurvePoint {
    if OnCurvePt(Law(a, b)) then Law(a, b) else NeutralPt()
  }

  ghost function Minus(a: CurvePoint): CurvePoint {
    MinusOnCurve(a);
    Pt(Mod(-a.x), a.y)
  }

  lemma MinusOnCurve(a: CurvePoint)
    ensures OnCurvePt(Pt(Mod(-a.x), a.y))
  {
    hide Zero, Affine;
    ModIs(-a.x);
    NearMod(Mod(-a.x), -a.x);
    SameX(a.x, -a.x, a.y);
    AffineNear(Mod(-a.x), -a.x, a.y);
    NearZero(Affine(Mod(-a.x), a.y), Affine(-a.x, a.y));
  }

  lemma SameX(x: int, x': int, y: int)
    requires x' == -x
    ensures Affine(x', y) == Affine(x, y)
  {
    AffineIs(x, y);
    AffineIs(x', y);
    assert x' * x' == x * x;
  }

  lemma AffineNear(x: int, x': int, y: int)
    requires Near(x, x')
    ensures Near(Affine(x, y), Affine(x', y))
  {
    hide Zero, Near;
    AffineIs(x, y);
    AffineIs(x', y);
    NearMul(x, x, x', x');
    NearMod(Den(y), Den(y));
    NearMod(Num(y), Num(y));
    NearMul(Square(x), Den(y), Square(x'), Den(y));
    NearAdd(Prod(Square(x), Den(y)), Num(y), Prod(Square(x'), Den(y)), Num(y));
  }

  /** The point that projective coordinates name. */
  function Quotient(x: int, y: int, z: int): Pt {
    Pt(Mod(x * Inv(z)), Mod(y * Inv(z)))
  }

  ghost function Rep(x: int, y: int, z: int): CurvePoint {
    if OnCurvePt(Quotient(x, y, z)) then Quotient(x, y, z) else NeutralPt()
  }

  /** Number-theoretic facts about p and d. */
  ghost predicate Arithmetic() {
    NoZeroDivisors() && DIsNonSquare() && Fermat()
  }

  // ----- projective coordinates

  lemma QuotientTimes(x: int, z: int)
    requires Fermat() && !Zero(z)
    ensures Near(x, z * Mod(x * Inv(z)))
  {
    hide Zero, Near, Fermat, Inv;
    InverseOf(z);
    var i := Inv(z);
    ModIs(x * i);
    NearMod(Mod(x * i), x * i);
    NearMod(z, z);
    NearMod(x, x);
    NearMul(z, Mod(x * i), z, x * i);
    NearMul(x, z * i, x, 1);
    assert z * (x * i) == x * (z * i);
    NearTrans(z * Mod(x * i), z * (x * i), x * 1);
    NearBack(x, z * Mod(x * i));
  }

  lemma ProjNear(x: int, y: int, z: int, x': int, y': int)
    requires Near(x, x') && Near(y, y')
    ensures Near(ProjCurve(x, y, z, D), ProjCurve(x', y', z, D))
  {
    hide Zero, Near;
    ProjIs(x, y, z, D);
    ProjIs(x', y', z, D);
    NearMul(x, x, x', x');
    NearMul(y, y, y', y');
    NearMod(z * z, z * z);
    NearMod((z * z) * (z * z), (z * z) * (z * z));
    NearMod(D, D);
    var xx, yy, xx', yy', zz := x * x, y * y, x' * x', y' * y', z * z;
    NearAdd(yy, xx, yy', xx');
    NearMul(yy - xx, zz, yy' - xx', zz);
    NearMul(xx, yy, xx', yy');
    NearMul(D, xx * yy, D, xx' * yy');
    NearAdd(zz * zz, D * (xx * yy), zz * zz, D * (xx' * yy'));
    NearAdd((yy - xx) * zz, zz * zz + D * (xx * yy), (yy' - xx') * zz, zz * zz + D * (xx' * yy'));
  }

  /** Pulling z^4 out of the projective equation. */
  lemma ProjScaled(x: int, y: int, z: int, d: int)
    ensures ProjCurve(z * x, z * y, z, d) == ((z * z) * (z * z)) * (-((x * x) * (1 + (y * y) * d) - (y * y - 1)))
  {
    ProjIs(z * x, z * y, z, d);
    SquareOfProduct(z, x);
    SquareOfProduct(z, y);
    var zz, xx, yy := z * z, x * x, y * y;
    Regroup(zz, xx, zz, yy);
    ProjScaledSquares(zz, xx, yy, d);
  }

  lemma ProjScaledSquares(zz: int, xx: int, yy: int, d: int)
    ensures (zz * yy - zz * xx) * zz - (zz * zz + d * ((zz * zz) * (xx * yy)))
         == (zz * zz) * (-(xx * (1 + yy * d) - (yy - 1)))
  {
    var w := zz * zz;
    assert (zz * yy - zz * xx) * zz == w * (yy - xx);
    assert d * (w * (xx * yy)) == w * (d * (xx * yy));
    assert xx * (1 + yy * d) == xx + d * (xx * yy);
    assert w * (yy - xx) - (w + w * (d * (xx * yy))) == w * (yy - xx - 1 - d * (xx * yy));
  }

  /** Proper coordinates name a curve point, and are that point scaled by Z. */
  lemma QuotientOnCurve(x: int, y: int, z: int)
    requires Arithmetic() && Zero(ProjCurve(x, y, z, D)) && !Zero(z)
    ensures OnCurvePt(Quotient(x, y, z)) && Rep(x, y, z) == Quotient(x, y, z)
    ensures Near(x, z * Rep(x, y, z).x) && Near(y, z * Rep(x, y, z).y)
  {
    hide Zero, Near, Fermat, NoZeroDivisors, DIsNonSquare, ProjCurve, Affine, Inv;
    var q := Quotient(x, y, z);
    QuotientTimes(x, z);
    QuotientTimes(y, z);
    ProjNear(x, y, z, z * q.x, z * q.y);
    NearZero(ProjCurve(x, y, z, D), ProjCurve(z * q.x, z * q.y, z, D));
    ProjFactor(q.x, q.y, z);
    NonZeroProduct(z, z);
    NonZeroProduct(z * z, z * z);
    ProductZero((z * z) * (z * z), -Affine(q.x, q.y));
    ZeroMul(-1, -Affine(q.x, q.y));
  }

  lemma ProjFactor(x: int, y: int, z: int)
    ensures ProjCurve(z * x, z * y, z, D) == ((z * z) * (z * z)) * (-Affine(x, y))
  {
    AffineIs(x, y);
    ProjScaled(x, y, z, D);
  }

  // ----- the law on projective coordinates

  /** p and q agree in Z and, modulo p, in X and Y. */
  ghost predicate NearPoints(p: Ext, q: Ext) {
    p.z == q.z && Near(p.x, q.x) && Near(p.y, q.y)
  }

  lemma CrossNear(p: Ext, q: Ext, p': Ext, q': Ext)
    requires NearPoints(p, p') && NearPoints(q, q')
    ensures Near(D * ((p.x * p.y) * (q.x * q.y)), D * ((p'.x * p'.y) * (q'.x * q'.y)))
    ensures Near(p.x * q.y + p.y * q.x, p'.x * q'.y + p'.y * q'.x)
    ensures Near(p.y * q.y + p.x * q.x, p'.y * q'.y + p'.x * q'.x)
  {
    hide Zero, Near;
    NearMul(p.x, p.y, p'.x, p'.y);
    NearMul(q.x, q.y, q'.x, q'.y);
    NearMul(p.x * p.y, q.x * q.y, p'.x * p'.y, q'.x * q'.y);
    NearMod(D, D);
    NearMul(D, (p.x * p.y) * (q.x * q.y), D, (p'.x * p'.y) * (q'.x * q'.y));
    NearMul(p.x, q.y, p'.x, q'.y);
    NearMul(p.y, q.x, p'.y, q'.x);
    NearAdd(p.x * q.y, p.y * q.x, p'.x * q'.y, p'.y * q'.x);
    NearMul(p.y, q.y, p'.y, q'.y);
    NearMul(p.x, q.x, p'.x, q'.x);
    NearAdd(p.y * q.y, p.x * q.x, p'.y * q'.y, p'.x * q'.x);
  }

  /** One equation of the law with congruent operands. */
  lemma EquationNear(rx: int, rx': int, rz: int, n: int, k: int, k': int, w: int, c: int, c': int)
    requires Near(rx, rx') && Near(k, k') && Near(c, c')
    ensures Near(rx * (n + k) - rz * (w * c), rx' * (n + k') - rz * (w * c'))
    ensures Near(rx * (n - k) - rz * (w * c), rx' * (n - k') - rz * (w * c'))
  {
    hide Zero, Near;
    NearMod(n, n);
    NearMod(w, w);
    NearMod(rz, rz);
    NearAdd(n, k, n, k');
    NearMul(rx, n + k, rx', n + k');
    NearMul(rx, n - k, rx', n - k');
    NearMul(w, c, w, c');
    NearMul(rz, w * c, rz, w * c');
    NearAdd(rx * (n + k), rz * (w * c), rx' * (n + k'), rz * (w * c'));
    NearAdd(rx * (n - k), rz * (w * c), rx' * (n - k'), rz * (w * c'));
  }

  lemma SumNear(p: Ext, q: Ext, r: Ext, p': Ext, q': Ext, r': Ext)
    requires NearPoints(p, p') && NearPoints(q, q') && NearPoints(r, r')
    ensures Near(SumX(p, q, r, D), SumX(p', q', r', D)) && Near(SumY(p, q, r, D), SumY(p', q', r', D))
  {
    hide Zero, Near;
    SumXIs(p, q, r, D);
    SumXIs(p', q', r', D);
    SumYIs(p, q, r, D);
    SumYIs(p', q', r', D);
    CrossNear(p, q, p', q');
    var w := p.z * q.z;
    var k, k' := D * ((p.x * p.y) * (q.x * q.y)), D * ((p'.x * p'.y) * (q'.x * q'.y));
    EquationNear(r.x, r'.x, r.z, w * w, k, k', w, p.x * q.y + p.y * q.x, p'.x * q'.y + p'.y * q'.x);
    EquationNear(r.y, r'.y, r.z, w * w, k, k', w, p.y * q.y + p.x * q.x, p'.y * q'.y + p'.x * q'.x);
  }

  function Scaled(a: Pt, z: int): Ext {
    Ext(z * a.x, z * a.y, z, 0)
  }

  lemma Pairs(a: int, b: int, c: int, e: int)
    ensures (a * b) * (c * e) == (a * c) * (b * e)
  {
  }

  lemma FourScaled(z: int, v: int, a: int, b: int, c: int, e: int)
    ensures ((z * a) * (z * b)) * ((v * c) * (v * e)) == ((z * v) * (z * v)) * ((a * b) * (c * e))
  {
    Pairs(z, a, z, b);
    Pairs(v, c, v, e);
    Pairs(z * z, a * b, v * v, c * e);
    Pairs(z, z, v, v);
  }

  lemma CrossScaled(z: int, v: int, a: int, b: int, c: int, e: int)
    ensures (z * a) * (v * e) + (z * b) * (v * c) == (z * v) * (a * e + b * c)
  {
    Pairs(z, a, v, e);
    Pairs(z, b, v, c);
    var w := z * v;
    assert w * (a * e) + w * (b * c) == w * (a * e + b * c);
  }

  /** The products of scaled coordinates. */
  lemma ScaledProducts(a: Pt, b: Pt, z: int, v: int)
    ensures ((z * a.x) * (z * a.y)) * ((v * b.x) * (v * b.y)) == ((z * v) * (z * v)) * ((a.x * a.y) * (b.x * b.y))
    ensures (z * a.x) * (v * b.y) + (z * a.y) * (v * b.x) == (z * v) * CrossX(a, b)
    ensures (z * a.y) * (v * b.y) + (z * a.x) * (v * b.x) == (z * v) * CrossY(a, b)
  {
    FourScaled(z, v, a.x, a.y, b.x, b.y);
    CrossScaled(z, v, a.x, a.y, b.x, b.y);
    CrossScaled(z, v, a.y, a.x, b.x, b.y);
  }

  lemma PullOut(cx: int, rz: int, n: int, w: int, k: int, cross: int)
    requires n == w * w
    ensures (rz * cx) * (n + n * k) - rz * (w * (w * cross)) == (rz * n) * ((1 + k) * cx - cross)
    ensures (rz * cx) * (n - n * k) - rz * (w * (w * cross)) == (rz * n) * ((1 - k) * cx - cross)
  {
    assert w * (w * cross) == n * cross;
    assert n + n * k == n * (1 + k) && n - n * k == n * (1 - k);
    assert (rz * cx) * (n * (1 + k)) == (rz * n) * ((1 + k) * cx);
    assert (rz * cx) * (n * (1 - k)) == (rz * n) * ((1 - k) * cx);
    assert rz * (n * cross) == (rz * n) * cross;
    assert (rz * n) * ((1 + k) * cx - cross) == (rz * n) * ((1 + k) * cx) - (rz * n) * cross;
    assert (rz * n) * ((1 - k) * cx - cross) == (rz * n) * ((1 - k) * cx) - (rz * n) * cross;
  }

  lemma SumScaled(a: Pt, b: Pt, c: Pt, z: int, v: int, u: int)
    ensures SumX(Scaled(a, z), Scaled(b, v), Scaled(c, u), D)
         == (u * ((z * v) * (z * v))) * ((1 + K(a, b)) * c.x - CrossX(a, b))
    ensures SumY(Scaled(a, z), Scaled(b, v), Scaled(c, u), D)
         == (u * ((z * v) * (z * v))) * ((1 - K(a, b)) * c.y - CrossY(a, b))
  {
    hide D, K, CrossX, CrossY;
    SumXIs(Scaled(a, z), Scaled(b, v), Scaled(c, u), D);
    SumYIs(Scaled(a, z), Scaled(b, v), Scaled(c, u), D);
    ScaledProducts(a, b, z, v);
    var w := z * v;
    KScaled(a, b, w * w);
    PullOut(c.x, u, w * w, w, K(a, b), CrossX(a, b));
    PullOut(c.y, u, w * w, w, K(a, b), CrossY(a, b));
  }

  lemma KScaled(a: Pt, b: Pt, n: int)
    ensures D * (n * ((a.x * a.y) * (b.x * b.y))) == n * K(a, b)
  {
    var m := (a.x * a.y) * (b.x * b.y);
    assert D * (n * m) == n * (D * m);
  }

  /** The law's equations, with denominators multiplied out. */
  ghost predicate Obeys(a: Pt, b: Pt, c: Pt) {
    Near((1 + K(a, b)) * c.x, CrossX(a, b)) && Near((1 - K(a, b)) * c.y, CrossY(a, b))
  }

  lemma SumObeys(p: Ext, q: Ext, r: Ext)
    requires Arithmetic() && IsSum(p, q, r) && Proper(p) && Proper(q) && Proper(r)
    ensures Obeys(Rep(p.x, p.y, p.z), Rep(q.x, q.y, q.z), Rep(r.x, r.y, r.z))
  {
    hide Zero, Fermat, NoZeroDivisors, DIsNonSquare, ProjCurve, Rep, SumX, SumY, K, CrossX, CrossY;
    QuotientOnCurve(p.x, p.y, p.z);
    QuotientOnCurve(q.x, q.y, q.z);
    QuotientOnCurve(r.x, r.y, r.z);
    var a: Pt, b: Pt, c: Pt := Rep(p.x, p.y, p.z), Rep(q.x, q.y, q.z), Rep(r.x, r.y, r.z);
    var p', q', r' := Scaled(a, p.z), Scaled(b, q.z), Scaled(c, r.z);
    SumNear(p, q, r, p', q', r');
    NearZero(SumX(p, q, r, D), SumX(p', q', r', D));
    NearZero(SumY(p, q, r, D), SumY(p', q', r', D));
    SumScaled(a, b, c, p.z, q.z, r.z);
    var w := p.z * q.z;
    NonZeroProduct(p.z, q.z);
    NonZeroProduct(w, w);
    NonZeroProduct(r.z, w * w);
    ProductZero(r.z * (w * w), (1 + K(a, b)) * c.x - CrossX(a, b));
    ProductZero(r.z * (w * w), (1 - K(a, b)) * c.y - CrossY(a, b));
  }

  /** The extended point with Z = 1. */
  function Extended(a: Pt): Ext {
    Ext(a.x, a.y, 1, a.x * a.y)
  }

  lemma ExtendedOnCurve(a: CurvePoint)
    ensures OnCurve(Extended(a))
  {
    hide Zero, Affine;
    NearMod(a.x, a.x);
    NearMod(a.x * a.y, a.x * a.y);
    RootOnCurve(a.x, a.y, a.x * a.y, a.x);
  }

  lemma DenominatorsAreUnits(a: CurvePoint, b: CurvePoint)
    requires Arithmetic()
    ensures !Zero(1 + K(a, b)) && !Zero(1 - K(a, b))
  {
    ConstantsOfTheCurve();
    hide Zero, OnCurve, NoZeroDivisors, DIsNonSquare, Fermat;
    ExtendedOnCurve(a);
    ExtendedOnCurve(b);
    Complete(Extended(a), Extended(b), -1);
    Complete(Extended(a), Extended(b), 1);
    assert D * (Extended(a).t * Extended(b).t) == K(a, b);
    if Zero(1 - K(a, b)) {
      ZeroMul(-1, 1 - K(a, b));
    }
  }

  /** The law's equations determine the sum. */
  lemma ObeysIsLaw(a: CurvePoint, b: CurvePoint, c: CurvePoint)
    requires Arithmetic() && Obeys(a, b, c)
    ensures c == Law(a, b) == Plus(a, b)
  {
    hide Zero, Near, NoZeroDivisors, DIsNonSquare, Fermat, Frac, K, CrossX, CrossY;
    DenominatorsAreUnits(a, b);
    FracUnique(CrossX(a, b), 1 + K(a, b), c.x);
    FracUnique(CrossY(a, b), 1 - K(a, b), c.y);
  }

  lemma RepExtended(a: CurvePoint)
    requires Fermat()
    ensures Rep(a.x, a.y, 1) == a
  {
    hide Zero, Near, Fermat, Inv, Solves, Quotient, Mod;
    RepOne(a.x, a.y);
  }

  lemma RepOne(x: int, y: int)
    requires Fermat()
    ensures Quotient(x, y, 1) == Pt(x % P, y % P)
  {
    hide Zero, Near, Fermat, Inv, Mod;
    ZeroIff(1);
    InverseOf(1);
    NearMod(1 * Inv(1), 1);
    assert Inv(1) == 1;
    ModIs(x);
    ModIs(y);
  }

  /** The sum of two curve points is on the curve and follows the law. */
  lemma PlusIsLaw(a: CurvePoint, b: CurvePoint)
    requires Arithmetic()
    ensures Plus(a, b) == Law(a, b) && Obeys(a, b, Plus(a, b))
  {
    hide Zero, OnCurve, NoZeroDivisors, DIsNonSquare, Fermat, Rep, Law, Plus, Obeys;
    ConstantsOfTheCurve();
    var p, q := Extended(a), Extended(b);
    var r := ToExt(Sum(p, q));
    ExtendedOnCurve(a);
    ExtendedOnCurve(b);
    SumOnCurve(p, q);
    SumIsSum(p, q);
    SumProper(p, q);
    ProperOnCurve(p);
    ProperOnCurve(q);
    ProperOnCurve(r);
    SumObeys(p, q, r);
    RepExtended(a);
    RepExtended(b);
    ObeysIsLaw(a, b, Rep(r.x, r.y, r.z));
  }

  // ----- the group

  /** The one group axiom that is not derived here. */
  ghost predicate Associative() {
    forall a: CurvePoint, b: CurvePoint, c: CurvePoint :: Plus(Plus(a, b), c) == Plus(a, Plus(b, c))
  }

  /** What the signature results assume about p, d and the addition law. */
  ghost predicate CurveFacts() {
    Arithmetic() && Associative()
  }

  ghost function CurveModel(): Model<CurvePoint> {
    Model<CurvePoint>.Model(NeutralPt(), Plus, Minus, Rep)
  }

  lemma PlusCommutes(a: CurvePoint, b: CurvePoint)
    ensures Plus(a, b) == Plus(b, a)
  {
    hide Frac;
    SwapProducts(a.x, a.y, b.x, b.y);
    assert Law(a, b) == Law(b, a);
  }

  lemma SwapProducts(a: int, b: int, c: int, e: int)
    ensures (a * b) * (c * e) == (c * e) * (a * b) && a * e + b * c == c * b + e * a && b * e + a * c == e * b + c * a
  {
  }

  lemma NeutralIsUnit(a: CurvePoint)
    requires Arithmetic()
    ensures Plus(NeutralPt(), a) == a
  {
    hide Zero, Near, NoZeroDivisors, DIsNonSquare, Fermat, Law, Plus;
    var n := NeutralPt();
    NeutralProducts(n, a);
    NearMod(a.x, a.x);
    NearMod(a.y, a.y);
    ObeysIsLaw(n, a, a);
  }

  lemma NeutralProducts(n: Pt, a: Pt)
    requires n == Pt(0, 1)
    ensures K(n, a) == 0 && CrossX(n, a) == a.x && CrossY(n, a) == a.y
    ensures (1 + K(n, a)) * a.x == a.x && (1 - K(n, a)) * a.y == a.y
  {
    assert (n.x * n.y) * (a.x * a.y) == 0;
  }

  lemma MinusIsInverse(a: CurvePoint)
    requires Arithmetic()
    ensures Plus(a, Minus(a)) == NeutralPt()
  {
    hide Zero, Near, NoZeroDivisors, DIsNonSquare, Fermat, Law, Plus, Affine;
    var b, n := Minus(a), NeutralPt();
    var m := Pt(-a.x, a.y);
    ModIs(-a.x);
    NearMod(b.x, -a.x);
    NearMod(a.y, a.y);
    NearMod(a.x, a.x);
    NearMod(0, 0);
    LawNear(a, b, m);
    OppositeProducts(a, m);
    NearZeroEquation(a, b, m);
    ObeysIsLaw(a, b, n);
  }

  /** The law's ingredients depend on residues only. */
  lemma LawNear(a: Pt, b: Pt, m: Pt)
    requires Near(b.x, m.x) && b.y == m.y
    ensures Near(K(a, b), K(a, m)) && Near(CrossX(a, b), CrossX(a, m)) && Near(CrossY(a, b), CrossY(a, m))
  {
    hide Zero, Near;
    NearMod(a.x, a.x);
    NearMod(a.y, a.y);
    NearMod(b.y, b.y);
    CrossNear(Ext(a.x, a.y, 1, 0), Ext(b.x, b.y, 1, 0), Ext(a.x, a.y, 1, 0), Ext(m.x, m.y, 1, 0));
  }

  lemma OppositeProducts(a: CurvePoint, m: Pt)
    requires m == Pt(-a.x, a.y)
    ensures CrossX(a, m) == 0 && 1 - K(a, m) - CrossY(a, m) == Affine(a.x, a.y)
  {
    AffineIs(a.x, a.y);
    var xx, yy := a.x * a.x, a.y * a.y;
    assert a.y * -a.x == -(a.x * a.y) && a.x * -a.x == -xx;
    OppositeK(a.x, a.y, D);
    assert xx * (1 + yy * D) == xx + D * (xx * yy);
  }

  lemma OppositeK(x: int, y: int, d: int)
    ensures d * ((x * y) * (-x * y)) == -(d * ((x * x) * (y * y)))
  {
    SquareOfProduct(x, y);
    assert (x * y) * (-x * y) == -((x * y) * (x * y));
  }

  lemma NearZeroEquation(a: CurvePoint, b: Pt, m: Pt)
    requires Near(K(a, b), K(a, m)) && Near(CrossX(a, b), CrossX(a, m)) && Near(CrossY(a, b), CrossY(a, m))
    requires CrossX(a, m) == 0 && 1 - K(a, m) - CrossY(a, m) == Affine(a.x, a.y)
    ensures Obeys(a, b, NeutralPt())
  {
    hide Zero, K, CrossX, CrossY, Affine;
    ZeroMul(-1, CrossX(a, b) - CrossX(a, m));
    assert (1 + K(a, b)) * 0 - CrossX(a, b) == -1 * (CrossX(a, b) - CrossX(a, m));
    var e := (1 - K(a, b)) * 1 - CrossY(a, b);
    assert e == 1 * Affine(a.x, a.y) + -1 * (K(a, b) - K(a, m)) + -1 * (CrossY(a, b) - CrossY(a, m));
    Combine3(e, 1, Affine(a.x, a.y), -1, K(a, b) - K(a, m), -1, CrossY(a, b) - CrossY(a, m));
  }

  /** The curve points are a model of the group that the point code computes in. */
  lemma CurveIsModel()
    requires CurveFacts()
    ensures IsModel(CurveModel())
  {
    hide Zero, NoZeroDivisors, DIsNonSquare, Fermat, Plus, Minus, Rep, IsSum, Proper;
    var m := CurveModel();
    forall a: CurvePoint, b: CurvePoint
      ensures m.plus(a, b) == m.plus(b, a)
    {
      PlusCommutes(a, b);
    }
    forall a: CurvePoint
      ensures m.plus(m.zero, a) == a && m.plus(a, m.minus(a)) == m.zero
    {
      NeutralIsUnit(a);
      MinusIsInverse(a);
    }
    forall p: Ext, q: Ext, r: Ext | IsSum(p, q, r) && Proper(p) && Proper(q) && Proper(r)
      ensures m.rep(r.x, r.y, r.z) == m.plus(m.rep(p.x, p.y, p.z), m.rep(q.x, q.y, q.z))
    {
      SumObeys(p, q, r);
      ObeysIsLaw(Rep(p.x, p.y, p.z), Rep(q.x, q.y, q.z), Rep(r.x, r.y, r.z));
    }
  }
}

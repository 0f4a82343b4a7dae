/**
 What it means for coordinates to name a group element.  The group itself is a parameter: an
 abelian group with a map from projective coordinates that turns the affine addition law into
 the group operation.  That p is prime and d is not a square are hypotheses too.
 */
module PointGroup {
  import opened Field
  import opened Residues
  import opened Edwards
  import opened PointSpec
  import opened MulBound

  datatype Model<!G> = Model(zero: G, plus: (G, G) -> G, minus: G -> G, rep: (int, int, int) -> G)

  ghost predicate AbelianGroup<G(!new)>(m: Model<G>) {
    && (forall a, b :: m.plus(a, b) == m.plus(b, a))
    && (forall a, b, c :: m.plus(m.plus(a, b), c) == m.plus(a, m.plus(b, c)))
    && (forall a :: m.plus(m.zero, a) == a)
    && (forall a :: m.plus(a, m.minus(a)) == m.zero)
  }

  lemma Commutes<G(!new)>(m: Model<G>, a: G, b: G)
    requires AbelianGroup(m)
    ensures m.plus(a, b) == m.plus(b, a)
  {
  }

  lemma Associates<G(!new)>(m: Model<G>, a: G, b: G, c: G)
    requires AbelianGroup(m)
    ensures m.plus(m.plus(a, b), c) == m.plus(a, m.plus(b, c))
  {
  }

  lemma Units<G(!new)>(m: Model<G>, a: G)
    requires AbelianGroup(m)
    ensures m.plus(m.zero, a) == a == m.plus(a, m.zero) && m.plus(a, m.minus(a)) == m.zero
  {
    Commutes(m, a, m.zero);
  }

  ghost predicate Homomorphic<G(!new)>(m: Model<G>) {
    forall p: Ext, q: Ext, r: Ext :: IsSum(p, q, r) && Proper(p) && Proper(q) && Proper(r) ==>
      m.rep(r.x, r.y, r.z) == m.plus(m.rep(p.x, p.y, p.z), m.rep(q.x, q.y, q.z))
  }

  /** The hypotheses under which the point code is shown to compute in the group. */
  ghost predicate IsModel<G(!new)>(m: Model<G>) {
    AbelianGroup(m) && Homomorphic(m) && NoZeroDivisors() && DIsNonSquare()
  }

  lemma SumInModel<G(!new)>(m: Model<G>, p: Ext, q: Ext, r: Ext)
    requires IsModel(m) && IsSum(p, q, r) && Proper(p) && Proper(q) && Proper(r)
    ensures m.rep(r.x, r.y, r.z) == m.plus(m.rep(p.x, p.y, p.z), m.rep(q.x, q.y, q.z))
  {
    hide IsSum, Proper, AbelianGroup;
  }

  // ----- sums and doubles of proper points are proper

  lemma ProperOnCurve(p: Ext)
    requires OnCurve(p) && !Zero(p.z)
    ensures Proper(p)
  {
    hide Zero;
    OnCurveProjects(p);
  }

  lemma SumProper(p: Ext, q: Ext)
    requires NoZeroDivisors() && DIsNonSquare() && OnCurve(p) && OnCurve(q) && !Zero(p.z) && !Zero(q.z)
    ensures !Zero(ToExt(Sum(p, q)).z)
  {
    HalfSumIs(p, q);
    ConstantsOfTheCurve();
    hide Zero, OnCurve, DIsNonSquare;
    Complete(p, q, 1);
    Complete(p, q, -1);
    var zz, dt := p.z * q.z, D * (p.t * q.t);
    NonZeroProduct(2, dt + zz);
    NonZeroProduct(-2, dt - zz);
    NonZeroProduct(2 * (dt + zz), -2 * (dt - zz));
  }

  /** The extended point (XZ : YZ : Z^2 : XY), a rescaling that has a consistent T. */
  function Rescaled(x: int, y: int, z: int): Ext {
    Ext(x * z, y * z, z * z, x * y)
  }

  lemma RescaledOnCurve(x: int, y: int, z: int)
    requires Zero(ProjCurve(x, y, z, D))
    ensures OnCurve(Rescaled(x, y, z))
  {
    hide Zero;
    ZeroIff(0);
    RescaledIdentities(x, y, z, D);
  }

  lemma RescaledIdentities(x: int, y: int, z: int, d: int)
    ensures Segre(Rescaled(x, y, z)) == 0 && Curve(Rescaled(x, y, z), d) == ProjCurve(x, y, z, d)
  {
    SegreIs(Rescaled(x, y, z));
    CurveIs(Rescaled(x, y, z), d);
    ProjIs(x, y, z, d);
    Regroup(x, z, y, z);
    SquareOfProduct(x, z);
    SquareOfProduct(y, z);
    SquareOfProduct(x, y);
  }

  lemma DoubleProper(x: int, y: int, z: int)
    requires NoZeroDivisors() && DIsNonSquare() && Zero(ProjCurve(x, y, z, D)) && !Zero(z)
    ensures !Zero(ToExt(Double(x, y, z)).z)
  {
    hide Zero, OnCurve, DIsNonSquare;
    DoubleIs(x, y, z);
    ProjIs(x, y, z, D);
    var p, c := Rescaled(x, y, z), Double(x, y, z);
    RescaledOnCurve(x, y, z);
    NonZeroProduct(z, z);
    Complete(p, p, 1);
    Complete(p, p, -1);
    var zz, k := z * z, ProjCurve(x, y, z, D);
    SquareOfProduct(x, y);
    var n := D * (p.t * p.t);
    assert n - -1 * (p.z * p.z) == zz * c.g - k;
    assert n - 1 * (p.z * p.z) == zz * c.f - k;
    UnitFactor(zz, c.g, k);
    UnitFactor(zz, c.f, k);
    NonZeroProduct(c.g, c.f);
  }

  lemma UnitFactor(a: int, b: int, k: int)
    requires Zero(k) && !Zero(a * b - k)
    ensures !Zero(b)
  {
    hide Zero;
    if Zero(b) {
      Combine2(a * b - k, a, b, -1, k);
    }
  }

  // ----- limb vectors naming group elements

  ghost predicate Represents<G>(m: Model<G>, p: P3, g: G) {
    OnCurve(ExtOf(p)) && !Zero(Val(p.z)) && m.rep(Val(p.x), Val(p.y), Val(p.z)) == g
  }

  /** The same for the first three coordinates alone. */
  ghost predicate RepresentsProj<G>(m: Model<G>, x: Fe, y: Fe, z: Fe, g: G) {
    Proper(Ext(Val(x), Val(y), Val(z), 0)) && m.rep(Val(x), Val(y), Val(z)) == g
  }

  lemma RepresentsForgetsT<G(!new)>(m: Model<G>, p: P3, g: G)
    requires Represents(m, p, g)
    ensures RepresentsProj(m, p.x, p.y, p.z, g)
  {
    hide Zero, Val;
    ProperOnCurve(ExtOf(p));
  }

  lemma AddRepresents<G(!new)>(m: Model<G>, p: P3, q: P3, g: G, h: G)
    requires IsModel(m) && Represents(m, p, g) && Represents(m, q, h)
    ensures Represents(m, ToP3(AddPoints(p, q)), m.plus(g, h))
  {
    hide Zero, Val, OnCurve, IsSum, AddPoints, ToP3, Sum;
    var u, v := ExtOf(p), ExtOf(q);
    var e := Sum(u, v);
    AddPointsNear(p, q);
    SumRepresents(m, AddPoints(p, q), u, v, g, h);
  }

  /** Any completed point congruent to the sum formula names the sum. */
  lemma SumRepresents<G(!new)>(m: Model<G>, c: P1P1, u: Ext, v: Ext, g: G, h: G)
    requires IsModel(m) && OnCurve(u) && OnCurve(v) && !Zero(u.z) && !Zero(v.z)
    requires m.rep(u.x, u.y, u.z) == g && m.rep(v.x, v.y, v.z) == h && Completes(c, Sum(u, v))
    ensures Represents(m, ToP3(c), m.plus(g, h))
  {
    hide Zero, Val, OnCurve, IsSum, ToP3, Sum, AbelianGroup, Homomorphic;
    var r, e := ExtOf(ToP3(c)), ToExt(Sum(u, v));
    ToP3Near(c, Sum(u, v));
    SumOnCurve(u, v);
    OnCurveNear(r, e);
    SumIsSum(u, v);
    IsSumNear(u, v, e, r);
    SumProper(u, v);
    NonZeroNear(r.z, e.z);
    ProperOnCurve(u);
    ProperOnCurve(v);
    ProperOnCurve(r);
    SumInModel(m, u, v, r);
  }

  lemma DoubleRepresents<G(!new)>(m: Model<G>, x: Fe, y: Fe, z: Fe, g: G)
    requires IsModel(m) && RepresentsProj(m, x, y, z, g)
    ensures Represents(m, ToP3(DoublePoint(x, y, z)), m.plus(g, g))
  {
    hide Zero, Val, OnCurve, IsSum, ToP3, DoublePoint, Double, AbelianGroup, Homomorphic;
    var u := Ext(Val(x), Val(y), Val(z), 0);
    var c := DoublePoint(x, y, z);
    var r, e := ExtOf(ToP3(c)), ToExt(Double(u.x, u.y, u.z));
    DoublePointNear(x, y, z);
    ToP3Near(c, Double(u.x, u.y, u.z));
    DoubleOnCurve(u.x, u.y, u.z);
    OnCurveNear(r, e);
    DoubleIsSum(u);
    IsSumNear(u, u, e, r);
    DoubleProper(u.x, u.y, u.z);
    NonZeroNear(r.z, e.z);
    ProperOnCurve(r);
    SumInModel(m, u, u, r);
  }

  function Neutral(): P3 {
    P3(ZeroLimbs(), OneLimb(1), OneLimb(1), ZeroLimbs())
  }

  lemma NeutralCoordinates()
    ensures ExtOf(Neutral()) == Ext(0, 1, 1, 0)
  {
    hide Val;
    OneLimbVal(1);
    ZeroLimbsVal();
  }

  lemma NeutralRepresents<G(!new)>(m: Model<G>)
    requires IsModel(m)
    ensures Represents(m, Neutral(), m.zero)
  {
    hide Val, Neutral, OnCurve, IsSum, AbelianGroup, Homomorphic;
    NeutralCoordinates();
    NeutralIsIdempotent();
    var n := Ext(0, 1, 1, 0);
    SumInModel(m, n, n, n);
    Idempotent(m, m.rep(0, 1, 1));
  }

  lemma ZeroLimbsVal()
    ensures Val(ZeroLimbs()) == 0
  {
    ValLinear(ZeroLimbs(), ZeroLimbs(), ZeroLimbs(), 1);
  }

  lemma Idempotent<G(!new)>(m: Model<G>, a: G)
    requires AbelianGroup(m) && a == m.plus(a, a)
    ensures a == m.zero
  {
    hide AbelianGroup;
    Associates(m, a, a, m.minus(a));
    Units(m, a);
  }

  // ----- multiples

  function Times<G>(m: Model<G>, n: nat, a: G): G {
    if n == 0 then m.zero else m.plus(a, Times(m, n - 1, a))
  }

  lemma {:induction false} TimesAdd<G(!new)>(m: Model<G>, i: nat, j: nat, a: G)
    requires AbelianGroup(m)
    ensures Times(m, i + j, a) == m.plus(Times(m, i, a), Times(m, j, a))
  {
    hide AbelianGroup;
    if i == 0 {
      Units(m, Times(m, j, a));
    } else {
      TimesAdd(m, i - 1, j, a);
      Associates(m, a, Times(m, i - 1, a), Times(m, j, a));
    }
  }

  /** i times a plus j times b. */
  function Combo<G>(m: Model<G>, i: nat, a: G, j: nat, b: G): G {
    m.plus(Times(m, i, a), Times(m, j, b))
  }

  lemma ComboAdd<G(!new)>(m: Model<G>, i: nat, j: nat, i': nat, j': nat, a: G, b: G)
    requires AbelianGroup(m)
    ensures m.plus(Combo(m, i, a, j, b), Combo(m, i', a, j', b)) == Combo(m, i + i', a, j + j', b)
  {
    hide Times, AbelianGroup;
    TimesAdd(m, i, i', a);
    TimesAdd(m, j, j', b);
    Interchange(m, Times(m, i, a), Times(m, j, b), Times(m, i', a), Times(m, j', b));
  }

  lemma Interchange<G(!new)>(m: Model<G>, a: G, b: G, c: G, d: G)
    requires AbelianGroup(m)
    ensures m.plus(m.plus(a, b), m.plus(c, d)) == m.plus(m.plus(a, c), m.plus(b, d))
  {
    hide AbelianGroup;
    Associates(m, a, b, m.plus(c, d));
    Associates(m, b, c, d);
    Commutes(m, b, c);
    Associates(m, c, b, d);
    Associates(m, a, c, m.plus(b, d));
  }

  lemma ComboUnits<G(!new)>(m: Model<G>, a: G, b: G)
    requires AbelianGroup(m)
    ensures Combo(m, 0, a, 0, b) == m.zero && Combo(m, 1, a, 0, b) == a && Combo(m, 0, a, 1, b) == b
  {
    hide AbelianGroup;
    Units(m, m.zero);
    Units(m, a);
    Units(m, b);
    assert Times(m, 1, a) == m.plus(a, Times(m, 0, a)) && Times(m, 1, b) == m.plus(b, Times(m, 0, b));
  }
}

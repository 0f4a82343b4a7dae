/**
 The twisted Edwards curve -x^2 + y^2 = 1 + d x^2 y^2 modulo p in extended coordinates
 (section 5.1.4 of RFC 8032), with integers standing for residues.
 */
module Edwards {
  import opened Field
  import opened Residues

  const D: int := 0x52036cee2b6ffe738cc740797779e89800700a4d4141d8ab75eb4dca135978a3

  const SQRT_M1: int := 0x2b8324804fc1df0b2b4d00993dfbd7a72f431806ad2fe478c4ee1b274a0ea0b0

  // ----- points

  /** Extended coordinates: x = X/Z, y = Y/Z, x y = T/Z. */
  datatype Ext = Ext(x: int, y: int, z: int, t: int)

  /**
   The polynomials whose zeros modulo p the results are about.  Each is reached by stepping down
   from DEPTH, which keeps the solver from expanding it wherever it is only passed on; SegreIs,
   CurveIs and the others expand where that is meant.
   */
  datatype Polynomial =
    | SegreOf(p: Ext)
    | CurveOf(p: Ext, d: int)
    | ProjOf(x: int, y: int, z: int, d: int)
    | SumXOf(p: Ext, q: Ext, r: Ext, d: int)
    | SumYOf(p: Ext, q: Ext, r: Ext, d: int)
  {
    function Value(n: nat): int {
      if n > 0 then Value(n - 1)
      else
        match this
        case SegreOf(p) => p.x * p.y - p.z * p.t
        case CurveOf(p, d) => p.y * p.y - p.x * p.x - (p.z * p.z + d * (p.t * p.t))
        case ProjOf(x, y, z, d) => (y * y - x * x) * (z * z) - ((z * z) * (z * z) + d * ((x * x) * (y * y)))
        case SumXOf(p, q, r, d) =>
          r.x * ((p.z * q.z) * (p.z * q.z) + d * ((p.x * p.y) * (q.x * q.y))) - r.z * ((p.z * q.z) * (p.x * q.y + p.y * q.x))
        case SumYOf(p, q, r, d) =>
          r.y * ((p.z * q.z) * (p.z * q.z) - d * ((p.x * p.y) * (q.x * q.y))) - r.z * ((p.z * q.z) * (p.y * q.y + p.x * q.x))
    }
  }

  lemma {:induction false} ValueIs(e: Polynomial, n: nat)
    ensures e.Value(n) == e.Value(0)
  {
    if n > 0 {
      ValueIs(e, n - 1);
    }
  }

  /** The residue of X Y - Z T. */
  function Segre(p: Ext): int {
    SegreOf(p).Value(DEPTH)
  }

  lemma SegreIs(p: Ext)
    ensures Segre(p) == p.x * p.y - p.z * p.t
  {
    ValueIs(SegreOf(p), DEPTH);
  }

  /** The curve equation, multiplied by Z^2 and with x y replaced by T/Z. */
  function Curve(p: Ext, d: int): int {
    CurveOf(p, d).Value(DEPTH)
  }

  lemma CurveIs(p: Ext, d: int)
    ensures Curve(p, d) == p.y * p.y - p.x * p.x - (p.z * p.z + d * (p.t * p.t))
  {
    ValueIs(CurveOf(p, d), DEPTH);
  }

  /** The curve equation on X, Y, Z alone, multiplied by Z^4. */
  function ProjCurve(x: int, y: int, z: int, d: int): int {
    ProjOf(x, y, z, d).Value(DEPTH)
  }

  lemma ProjIs(x: int, y: int, z: int, d: int)
    ensures ProjCurve(x, y, z, d) == (y * y - x * x) * (z * z) - ((z * z) * (z * z) + d * ((x * x) * (y * y)))
  {
    ValueIs(ProjOf(x, y, z, d), DEPTH);
  }

  ghost predicate OnCurve(p: Ext) {
    Zero(Segre(p)) && Zero(Curve(p, D))
  }

  /** The completed point (E:G), (H:F) as add_p1p1 and dbl_p1p1 produce it: x = E/G, y = H/F. */
  datatype Completed = Completed(e: int, h: int, g: int, f: int)

  function ToExt(c: Completed): Ext {
    Ext(c.e * c.f, c.h * c.g, c.g * c.f, c.e * c.h)
  }

  function HalfSum(p: Ext, q: Ext): Completed {
    HalfSumFrom(p, q, DEPTH)
  }

  function HalfSumFrom(p: Ext, q: Ext, n: nat): Completed {
    if n > 0 then HalfSumFrom(p, q, n - 1)
    else
      Completed(p.x * q.y + p.y * q.x, p.y * q.y + p.x * q.x, p.z * q.z + D * (p.t * q.t), p.z * q.z - D * (p.t * q.t))
  }

  lemma {:induction false} HalfSumFromIs(p: Ext, q: Ext, n: nat)
    ensures HalfSumFrom(p, q, n) == HalfSumFrom(p, q, 0)
  {
    if n > 0 {
      HalfSumFromIs(p, q, n - 1);
    }
  }

  lemma HalfSumIs(p: Ext, q: Ext)
    ensures HalfSum(p, q) == Completed(p.x * q.y + p.y * q.x, p.y * q.y + p.x * q.x,
                                       p.z * q.z + D * (p.t * q.t), p.z * q.z - D * (p.t * q.t))
  {
    HalfSumFromIs(p, q, DEPTH);
  }

  function Twice(c: Completed): Completed {
    Completed(2 * c.e, 2 * c.h, 2 * c.g, 2 * c.f)
  }

  /** Unified addition: E = B - A, H = B + A, G = D + C, F = D - C, each twice the HalfSum entry. */
  function Sum(p: Ext, q: Ext): Completed {
    Twice(HalfSum(p, q))
  }

  /** Dedicated doubling, which never looks at T. */
  function Double(x: int, y: int, z: int): Completed {
    DoubleFrom(x, y, z, DEPTH)
  }

  function DoubleFrom(x: int, y: int, z: int, n: nat): Completed {
    if n > 0 then DoubleFrom(x, y, z, n - 1) else DoubleOf(x * x, y * y, z * z, (x + y) * (x + y))
  }

  lemma {:induction false} DoubleFromIs(x: int, y: int, z: int, n: nat)
    ensures DoubleFrom(x, y, z, n) == DoubleFrom(x, y, z, 0)
  {
    if n > 0 {
      DoubleFromIs(x, y, z, n - 1);
    }
  }

  lemma DoubleIs(x: int, y: int, z: int)
    ensures Double(x, y, z) == DoubleOf(x * x, y * y, z * z, (x + y) * (x + y))
  {
    DoubleFromIs(x, y, z, DEPTH);
  }

  function DoubleOf(a: int, b: int, c: int, s: int): Completed {
    Completed(s - a - b, -a - b, b - a, b - a - 2 * c)
  }

  /** r = p + q by the affine addition law, with all denominators multiplied out. */
  ghost predicate IsSum(p: Ext, q: Ext, r: Ext) {
    Zero(SumX(p, q, r, D)) && Zero(SumY(p, q, r, D))
  }

  function SumX(p: Ext, q: Ext, r: Ext, d: int): int {
    SumXOf(p, q, r, d).Value(DEPTH)
  }

  lemma SumXIs(p: Ext, q: Ext, r: Ext, d: int)
    ensures var n, k := (p.z * q.z) * (p.z * q.z), d * ((p.x * p.y) * (q.x * q.y));
            SumX(p, q, r, d) == r.x * (n + k) - r.z * ((p.z * q.z) * (p.x * q.y + p.y * q.x))
  {
    ValueIs(SumXOf(p, q, r, d), DEPTH);
  }

  function SumY(p: Ext, q: Ext, r: Ext, d: int): int {
    SumYOf(p, q, r, d).Value(DEPTH)
  }

  lemma SumYIs(p: Ext, q: Ext, r: Ext, d: int)
    ensures var n, k := (p.z * q.z) * (p.z * q.z), d * ((p.x * p.y) * (q.x * q.y));
            SumY(p, q, r, d) == r.y * (n - k) - r.z * ((p.z * q.z) * (p.y * q.y + p.x * q.x))
  {
    ValueIs(SumYOf(p, q, r, d), DEPTH);
  }

  // ----- the sum of two points stays on the curve

  lemma SumNorm(p: Ext, q: Ext, d: int)
    requires Zero(Curve(p, d)) && Zero(Curve(q, d))
    ensures var e, h, f, w := p.x * q.y + p.y * q.x, p.y * q.y + p.x * q.x,
                              p.z * q.z - d * (p.t * q.t), p.z * q.t + p.t * q.z;
            Zero(h * h - e * e - f * f - d * (w * w))
  {
    hide Zero;
    CurveIs(p, d);
    CurveIs(q, d);
    var a, b := p.y * p.y - p.x * p.x, q.y * q.y - q.x * q.x;
    var u, v := p.z * p.z + d * (p.t * p.t), q.z * q.z + d * (q.t * q.t);
    NormProduct(p.z, p.t, q.z, q.t, d);
    NormProduct(p.y, p.x, q.y, q.x, -1);
    ProductDifference(a, b, u, v);
    Combine2(a * b - u * v, b, Curve(p, d), u, Curve(q, d));
  }

  lemma SquareOfProduct(a: int, b: int)
    ensures (a * b) * (a * b) == (a * a) * (b * b)
  {
  }

  lemma SquareOfSum(a: int, b: int)
    ensures (a + b) * (a + b) == a * a + 2 * (a * b) + b * b
    ensures (a - b) * (a - b) == a * a - 2 * (a * b) + b * b
  {
  }

  lemma Regroup(a: int, b: int, c: int, e: int)
    ensures (a * b) * (c * e) == (a * e) * (c * b)
  {
  }

  lemma NormExpand(z1: int, t1: int, z2: int, t2: int, d: int)
    ensures (z1 + d * t1) * (z2 + d * t2) == z1 * z2 + d * (z1 * t2) + d * (t1 * z2) + d * d * (t1 * t2)
  {
    assert (d * t1) * (d * t2) == d * d * (t1 * t2);
  }

  /** The norm form z^2 + d t^2 is multiplicative. */
  lemma NormProduct(z1: int, t1: int, z2: int, t2: int, d: int)
    ensures var f, w := z1 * z2 - d * (t1 * t2), z1 * t2 + t1 * z2;
            f * f + d * (w * w) == (z1 * z1 + d * (t1 * t1)) * (z2 * z2 + d * (t2 * t2))
  {
    var a, b, c, e := z1 * z2, t1 * t2, z1 * t2, t1 * z2;
    NormExpand(z1 * z1, t1 * t1, z2 * z2, t2 * t2, d);
    SquareOfProduct(z1, z2);
    SquareOfProduct(z1, t2);
    SquareOfProduct(t1, z2);
    SquareOfProduct(t1, t2);
    Regroup(z1, z2, t1, t2);
    NormSquares(a, b, c, e, d);
  }

  lemma NormSquares(a: int, b: int, c: int, e: int, d: int)
    requires a * b == c * e
    ensures (a - d * b) * (a - d * b) + d * ((c + e) * (c + e)) == a * a + d * (c * c) + d * (e * e) + d * d * (b * b)
  {
    SquareOfSum(a, d * b);
    SquareOfSum(c, e);
    SquareOfProduct(d, b);
    assert a * (d * b) == d * (c * e);
    assert d * (c * c + 2 * (c * e) + e * e) == d * (c * c) + 2 * (d * (c * e)) + d * (e * e);
  }

  lemma ProductDifference(a: int, b: int, u: int, v: int)
    ensures a * b - u * v == b * (a - u) + u * (b - v)
  {
  }

  lemma SumCross(p: Ext, q: Ext, d: int)
    requires Zero(Curve(p, d)) && Zero(Curve(q, d)) && Zero(Segre(p)) && Zero(Segre(q))
    ensures var e, m, g, w := p.x * q.y + p.y * q.x, p.y * q.y - p.x * q.x,
                              p.z * q.z + d * (p.t * q.t), p.z * q.t + p.t * q.z;
            Zero(e * m - g * w)
  {
    hide Zero;
    SegreIs(p);
    SegreIs(q);
    CurveIs(p, d);
    CurveIs(q, d);
    var e, m := p.x * q.y + p.y * q.x, p.y * q.y - p.x * q.x;
    var g, w := p.z * q.z + d * (p.t * q.t), p.z * q.t + p.t * q.z;
    var a, b := p.y * p.y - p.x * p.x, q.y * q.y - q.x * q.x;
    var u, v := p.z * p.z + d * (p.t * p.t), q.z * q.z + d * (q.t * q.t);
    var r, s := p.x * p.y, q.x * q.y;
    var r', s' := p.z * p.t, q.z * q.t;
    CrossLeft(p.x, p.y, q.x, q.y);
    CrossRight(p.z, p.t, q.z, q.t, d);
    ProductDifference(r, b, r', v);
    ProductDifference(s, a, s', u);
    Combine4(e * m - g * w, b, Segre(p), r', Curve(q, d), a, Segre(q), s', Curve(p, d));
  }

  lemma CrossLeft(x1: int, y1: int, x2: int, y2: int)
    ensures (x1 * y2 + y1 * x2) * (y1 * y2 - x1 * x2) == (x1 * y1) * (y2 * y2 - x2 * x2) + (x2 * y2) * (y1 * y1 - x1 * x1)
  {
    var a, b, c, e := x1 * y2, y1 * x2, y1 * y2, x1 * x2;
    assert (a + b) * (c - e) == a * c - a * e + b * c - b * e;
    Regroup(x1, y2, y1, y2);
    Regroup(x1, y2, x1, x2);
    Regroup(y1, x2, y1, y2);
    Regroup(y1, x2, x1, x2);
  }

  lemma CrossRight(z1: int, t1: int, z2: int, t2: int, d: int)
    ensures (z1 * z2 + d * (t1 * t2)) * (z1 * t2 + t1 * z2)
         == (z1 * t1) * (z2 * z2 + d * (t2 * t2)) + (z2 * t2) * (z1 * z1 + d * (t1 * t1))
  {
    PairUp(z1, z2, t2);
    PairUp(z2, z1, t1);
    PairUp(t2, t1, z1);
    PairUp(t1, t2, z2);
    CrossExpand(z1 * z2, t1 * t2, z1 * t2, t1 * z2, d);
    CrossCollect(z1 * t1, z2 * t2, z1 * z1, z2 * z2, t1 * t1, t2 * t2, d);
  }

  lemma PairUp(a: int, b: int, c: int)
    ensures (a * b) * (a * c) == (b * c) * (a * a)
  {
  }

  lemma CrossExpand(a: int, b: int, c: int, e: int, d: int)
    ensures (a + d * b) * (c + e) == a * c + a * e + d * (b * c) + d * (b * e)
  {
    assert (d * b) * c == d * (b * c) && (d * b) * e == d * (b * e);
  }

  lemma CrossCollect(r: int, s: int, zz1: int, zz2: int, tt1: int, tt2: int, d: int)
    ensures r * (zz2 + d * tt2) + s * (zz1 + d * tt1) == r * zz2 + s * zz1 + d * (r * tt2) + d * (s * tt1)
  {
    assert r * (d * tt2) == d * (r * tt2) && s * (d * tt1) == d * (s * tt1);
  }

  lemma SumMixed(p: Ext, q: Ext)
    requires Zero(Segre(p)) && Zero(Segre(q))
    ensures var h, m := p.y * q.y + p.x * q.x, p.y * q.y - p.x * q.x;
            Zero(h * h - m * m - 4 * ((p.z * p.t) * (q.z * q.t)))
  {
    hide Zero;
    SegreIs(p);
    SegreIs(q);
    var h, m := p.y * q.y + p.x * q.x, p.y * q.y - p.x * q.x;
    var r, s := p.x * p.y, q.x * q.y;
    var r', s' := p.z * p.t, q.z * q.t;
    assert h * h - m * m == 4 * (r * s);
    ProductDifference(r, s, r', s');
    Combine2(h * h - m * m - 4 * (r' * s'), 4 * s, Segre(p), 4 * r', Segre(q));
  }

  /** The final elimination, on the abbreviations of the previous lemmas. */
  lemma SumEliminate(e: int, h: int, f: int, g: int, m: int, w: int, k: int, d: int)
    requires g * g - f * f == 4 * d * k
    requires Zero(h * h - e * e - f * f - d * (w * w)) && Zero(e * m - g * w) && Zero(h * h - m * m - 4 * k)
    ensures Zero((h * g) * (h * g) - (e * f) * (e * f) - ((g * f) * (g * f) + d * ((e * h) * (e * h))))
  {
    hide Zero;
    var n1, n3, n4 := h * h - e * e - f * f - d * (w * w), e * m - g * w, h * h - m * m - 4 * k;
    var goal := (h * g) * (h * g) - (e * f) * (e * f) - ((g * f) * (g * f) + d * ((e * h) * (e * h)));
    var k1, k3, k4 := g * g, -d * (e * m + g * w), -d * (e * e);
    SumIdentity(e, h, f, g, m, w, k, d);
    Combine3(goal, k1, n1, k3, n3, k4, n4);
  }

  lemma SumIdentity(e: int, h: int, f: int, g: int, m: int, w: int, k: int, d: int)
    requires g * g - f * f == 4 * d * k
    ensures (h * g) * (h * g) - (e * f) * (e * f) - ((g * f) * (g * f) + d * ((e * h) * (e * h)))
         == (g * g) * (h * h - e * e - f * f - d * (w * w)) + (-d * (e * m + g * w)) * (e * m - g * w) + (-d * (e * e)) * (h * h - m * m - 4 * k)
  {
    SquareOfProduct(h, g);
    SquareOfProduct(e, f);
    SquareOfProduct(g, f);
    SquareOfProduct(e, h);
    CrossDifference(e, m, g, w, d);
    IdentityParts((h * g) * (h * g), (e * f) * (e * f), (g * f) * (g * f), (e * h) * (e * h), e * e, h * h, f * f, g * g, m * m, w * w,
                  (-d * (e * m + g * w)) * (e * m - g * w), k, d);
  }

  /** Putting the squares together, with each product a number of its own. */
  lemma IdentityParts(hg: int, ef: int, gf: int, eh: int, ee: int, hh: int, ff: int, gg: int, mm: int, ww: int, cross: int, k: int, d: int)
    requires hg == hh * gg && ef == ee * ff && gf == gg * ff && eh == ee * hh
    requires cross == -d * (ee * mm - gg * ww) && gg - ff == 4 * d * k
    ensures hg - ef - (gf + d * eh) == gg * (hh - ee - ff - d * ww) + cross + (-d * ee) * (hh - mm - 4 * k)
  {
    EliminateAlgebra(ee, hh, ff, gg, mm, ww, k, d);
  }

  lemma CrossDifference(e: int, m: int, g: int, w: int, d: int)
    ensures -d * (e * m + g * w) * (e * m - g * w) == -d * ((e * e) * (m * m) - (g * g) * (w * w))
  {
    var a, b := e * m, g * w;
    DifferenceOfSquares(a, b);
    SquareOfProduct(e, m);
    SquareOfProduct(g, w);
    ScaledProduct(-d, a + b, a - b);
  }

  lemma ScaledProduct(d: int, a: int, b: int)
    ensures d * a * b == d * (b * a)
  {
  }

  lemma EliminateAlgebra(ee: int, hh: int, ff: int, gg: int, mm: int, ww: int, k: int, d: int)
    requires gg - ff == 4 * d * k
    ensures hh * gg - ee * ff - (gg * ff + d * (ee * hh))
         == gg * (hh - ee - ff - d * ww) - d * (ee * mm - gg * ww) - d * ee * (hh - mm - 4 * k)
  {
    assert ee * (gg - ff) == ee * (4 * d * k);
  }

  lemma HalfSumOnCurve(p: Ext, q: Ext)
    requires OnCurve(p) && OnCurve(q)
    ensures Zero(Curve(ToExt(HalfSum(p, q)), D))
  {
    hide Zero;
    HalfSumIs(p, q);
    CurveIs(ToExt(HalfSum(p, q)), D);
    var c := HalfSum(p, q);
    var m, w, k := p.y * q.y - p.x * q.x, p.z * q.t + p.t * q.z, (p.z * p.t) * (q.z * q.t);
    SumNorm(p, q, D);
    SumCross(p, q, D);
    SumMixed(p, q);
    DifferenceOfSquares(p.z * q.z, D * (p.t * q.t));
    assert (p.z * q.z) * (D * (p.t * q.t)) == D * k;
    SumEliminate(c.e, c.h, c.f, c.g, m, w, k, D);
  }

  lemma DifferenceOfSquares(a: int, b: int)
    ensures (a + b) * (a + b) - (a - b) * (a - b) == 4 * (a * b)
    ensures a * a - b * b == (a - b) * (a + b)
  {
  }

  lemma SegreOfCompleted(c: Completed)
    ensures Zero(Segre(ToExt(c)))
  {
    SegreIs(ToExt(c));
    assert (c.e * c.f) * (c.h * c.g) == (c.g * c.f) * (c.e * c.h);
    ZeroIff(0);
  }

  lemma CurveOfTwice(c: Completed, d: int)
    ensures Curve(ToExt(Twice(c)), d) == 16 * Curve(ToExt(c), d)
  {
    CurveIs(ToExt(Twice(c)), d);
    CurveIs(ToExt(c), d);
    var x, y, z, t := c.e * c.f, c.h * c.g, c.g * c.f, c.e * c.h;
    assert ToExt(Twice(c)) == Ext(4 * x, 4 * y, 4 * z, 4 * t);
    assert d * ((4 * t) * (4 * t)) == 16 * (d * (t * t));
  }

  /** The unified addition formulas keep the point on the curve and T consistent. */
  lemma SumOnCurve(p: Ext, q: Ext)
    requires OnCurve(p) && OnCurve(q)
    ensures OnCurve(ToExt(Sum(p, q)))
  {
    hide Zero;
    HalfSumOnCurve(p, q);
    CurveOfTwice(HalfSum(p, q), D);
    ZeroMul(16, Curve(ToExt(HalfSum(p, q)), D));
    SegreOfCompleted(Sum(p, q));
  }

  /** They compute the affine sum. */
  lemma SumIsSum(p: Ext, q: Ext)
    requires OnCurve(p) && OnCurve(q)
    ensures IsSum(p, q, ToExt(Sum(p, q)))
  {
    hide Zero;
    HalfSumIs(p, q);
    SegreIs(p);
    SegreIs(q);
    SumXIs(p, q, ToExt(Sum(p, q)), D);
    SumYIs(p, q, ToExt(Sum(p, q)), D);
    var c := HalfSum(p, q);
    var r, s, r', s' := p.x * p.y, q.x * q.y, p.z * p.t, q.z * q.t;
    var zz := p.z * q.z;
    ProductDifference(r, s, r', s');
    Combine2(r * s - r' * s', s, Segre(p), r', Segre(q));
    assert zz * (D * (p.t * q.t)) == D * (r' * s') by {
      Regroup(p.z, q.z, p.t, q.t);
      Regroup(p.z, p.t, q.z, q.t);
    }
    var delta := D * (r * s - r' * s');
    SumXAlgebra(c.e, c.f, c.g, zz, zz * zz + D * (r * s), delta);
    SumYAlgebra(c.h, c.g, c.f, zz, zz * zz - D * (r * s), delta);
    ZeroMul(D, r * s - r' * s');
    ZeroMul(4 * (c.e * c.f), delta);
    ZeroMul(-4 * (c.h * c.g), delta);
  }

  lemma SumXAlgebra(e: int, f: int, g: int, zz: int, n: int, delta: int)
    requires n - g * zz == delta
    ensures (2 * e) * (2 * f) * n - (2 * g) * (2 * f) * (zz * e) == 4 * (e * f) * delta
  {
  }

  lemma SumYAlgebra(h: int, g: int, f: int, zz: int, n: int, delta: int)
    requires n - f * zz == -delta
    ensures (2 * h) * (2 * g) * n - (2 * g) * (2 * f) * (zz * h) == -4 * (h * g) * delta
  {
  }

  // ----- doubling

  lemma OnCurveProjects(p: Ext)
    requires OnCurve(p)
    ensures Zero(ProjCurve(p.x, p.y, p.z, D))
  {
    hide Zero;
    SegreIs(p);
    CurveIs(p, D);
    ProjIs(p.x, p.y, p.z, D);
    var a, s, t, z := p.y * p.y - p.x * p.x, p.x * p.y, p.z * p.t, p.z * p.z;
    SquareOfProduct(p.x, p.y);
    SquareOfProduct(p.z, p.t);
    DifferenceOfSquares(s, t);
    assert D * (t * t) == z * (D * (p.t * p.t));
    assert D * (s * s - t * t) == D * (s + t) * (s - t);
    assert a * z - (z * z + D * (t * t)) == z * Curve(p, D);
    Combine2(ProjCurve(p.x, p.y, p.z, D), z, Curve(p, D), -D * (s + t), Segre(p));
  }

  /** Doubling lands on the curve with a consistent T, whatever T the operand carried. */
  lemma DoubleOnCurve(x: int, y: int, z: int)
    requires Zero(ProjCurve(x, y, z, D))
    ensures OnCurve(ToExt(Double(x, y, z)))
  {
    hide Zero;
    var c := Double(x, y, z);
    DoubleCurve(x, y, z, D);
    ZeroMul(4 * (c.h * c.h), ProjCurve(x, y, z, D));
    SegreOfCompleted(c);
  }

  lemma DoubleCurve(x: int, y: int, z: int, d: int)
    ensures var c := Double(x, y, z); Curve(ToExt(c), d) == 4 * (c.h * c.h) * ProjCurve(x, y, z, d)
  {
    DoubleIs(x, y, z);
    CurveIs(ToExt(Double(x, y, z)), d);
    ProjIs(x, y, z, d);
    var c := Double(x, y, z);
    var a, b, cc := x * x, y * y, z * z;
    DoubleEntries(x, y, z);
    SquareOfProduct(c.h, c.g);
    SquareOfProduct(c.e, c.f);
    SquareOfProduct(c.g, c.f);
    SquareOfProduct(c.e, c.h);
    DoubleFactor(c.e * c.e, c.h * c.h, c.g * c.g, c.f * c.f, d);
    SquareOfSum(c.g, 2 * cc);
    assert c.g * c.g - c.f * c.f - d * (c.e * c.e) == 4 * (cc * c.g - cc * cc - d * (a * b));
  }

  lemma DoubleFactor(ee: int, hh: int, gg: int, ff: int, d: int)
    requires hh == gg + ee
    ensures hh * gg - ee * ff - (gg * ff + d * (ee * hh)) == hh * (gg - ff - d * ee)
  {
  }

  lemma DoubleEntries(x: int, y: int, z: int)
    ensures var c := Double(x, y, z);
            c.e == 2 * (x * y) && c.e * c.e == 4 * ((x * x) * (y * y)) && c.h * c.h == c.g * c.g + c.e * c.e
  {
    DoubleIs(x, y, z);
    SquareOfSum(x, y);
    SquareOfProduct(x, y);
    SquareOfSum(y * y, x * x);
    SquareOfSum(-(x * x), y * y);
  }

  lemma DoubleIsSum(p: Ext)
    requires Zero(ProjCurve(p.x, p.y, p.z, D))
    ensures IsSum(p, p, ToExt(Double(p.x, p.y, p.z)))
  {
    hide Zero;
    var c, k := Double(p.x, p.y, p.z), ProjCurve(p.x, p.y, p.z, D);
    DoubleSums(p, D);
    ZeroMul(-(c.e * c.f), k);
    ZeroMul(c.h * c.g, k);
  }

  lemma DoubleSums(p: Ext, d: int)
    ensures var c, k := Double(p.x, p.y, p.z), ProjCurve(p.x, p.y, p.z, d);
            SumX(p, p, ToExt(c), d) == -(c.e * c.f) * k && SumY(p, p, ToExt(c), d) == (c.h * c.g) * k
  {
    var c, zz, n := Double(p.x, p.y, p.z), p.z * p.z, d * ((p.x * p.y) * (p.x * p.y));
    DoubleEntries(p.x, p.y, p.z);
    DoubleIs(p.x, p.y, p.z);
    assert c.f == c.g - 2 * zz && c.g == p.y * p.y - p.x * p.x && c.h == -(p.x * p.x) - p.y * p.y;
    hide *;
    DoubleFormX(p, c, zz, n, d);
    DoubleFormY(p, c, zz, n, d);
    DoubleFormZ(p, c, zz, n, d);
    DoubleXAlgebra(c.e, c.f, c.g, zz, n);
    DoubleYAlgebra(c.h, c.g, zz, n);
  }

  /** SumX and SumY over the entries of the completed point. */
  lemma DoubleFormX(p: Ext, c: Completed, zz: int, n: int, d: int)
    requires c.e == 2 * (p.x * p.y) && zz == p.z * p.z && n == d * ((p.x * p.y) * (p.x * p.y))
    ensures SumX(p, p, ToExt(c), d) == (c.e * c.f) * (zz * zz + n) - (c.g * c.f) * (zz * c.e)
  {
    SumXIs(p, p, ToExt(c), d);
  }

  lemma DoubleFormY(p: Ext, c: Completed, zz: int, n: int, d: int)
    requires c.h == -(p.x * p.x) - p.y * p.y && zz == p.z * p.z && n == d * ((p.x * p.y) * (p.x * p.y))
    ensures SumY(p, p, ToExt(c), d) == (c.h * c.g) * (zz * zz - n) - (c.g * c.f) * (zz * -c.h)
  {
    SumYIs(p, p, ToExt(c), d);
  }

  lemma DoubleFormZ(p: Ext, c: Completed, zz: int, n: int, d: int)
    requires c.g == p.y * p.y - p.x * p.x && zz == p.z * p.z && n == d * ((p.x * p.y) * (p.x * p.y))
    ensures ProjCurve(p.x, p.y, p.z, d) == c.g * zz - (zz * zz + n)
  {
    ProjIs(p.x, p.y, p.z, d);
    SquareOfProduct(p.x, p.y);
  }

  lemma DoubleXAlgebra(e: int, f: int, g: int, zz: int, n: int)
    ensures (e * f) * (zz * zz + n) - (g * f) * (zz * e) == -(e * f) * (g * zz - (zz * zz + n))
  {
    assert (g * f) * (zz * e) == (e * f) * (g * zz);
  }

  lemma DoubleYAlgebra(h: int, g: int, zz: int, n: int)
    ensures (h * g) * (zz * zz - n) - (g * (g - 2 * zz)) * (zz * -h) == (h * g) * (g * zz - (zz * zz + n))
  {
    var u := h * g;
    assert (g * (g - 2 * zz)) * (zz * -h) == -(u * ((g - 2 * zz) * zz));
    assert (g - 2 * zz) * zz == g * zz - 2 * (zz * zz);
    DoubleYCollect(u, zz * zz, n, g * zz);
  }

  lemma DoubleYCollect(u: int, w: int, n: int, v: int)
    ensures u * (w - n) + u * (v - 2 * w) == u * (v - (w + n))
  {
  }

  // ----- completeness: the denominators never vanish

  /** d is not a square modulo p. */
  ghost predicate DIsNonSquare() {
    forall a: int, b: int :: EqualsDTimesSquare(a, b) ==> Zero(b)
  }

  ghost predicate EqualsDTimesSquare(a: int, b: int) {
    Zero(a * a - D * (b * b))
  }

  lemma ConstantsOfTheCurve()
    ensures Zero(SQRT_M1 * SQRT_M1 + 1) && Zero(121666 * D + 121665)
    ensures !Zero(2) && !Zero(-2) && !Zero(1) && !Zero(-1)
  {
    hide Zero;
    ZeroIff(SQRT_M1 * SQRT_M1 + 1);
    ZeroIff(121666 * D + 121665);
    ZeroIff(2);
    ZeroIff(-2);
    ZeroIff(1);
    ZeroIff(-1);
  }

  /**
   A square root of -1 turns the curve equation into a perfect square: if d t1 t2 = s z1 z2 with
   s = 1 or -1, then (z2 (i x1 + s y1))^2 = d (t1 (i x2 + y2))^2.
   */
  lemma SquareRelation(p: Ext, q: Ext, i: int, s: int)
    requires OnCurve(p) && OnCurve(q) && s * s == 1 && Zero(i * i + 1)
    requires Zero(D * (p.t * q.t) - s * (p.z * q.z))
    ensures EqualsDTimesSquare(q.z * (i * p.x + s * p.y), p.t * (i * q.x + q.y))
  {
    hide Zero;
    var a, b := q.z * (i * p.x + s * p.y), p.t * (i * q.x + q.y);
    var ap, bq := p.z * p.z + D * (p.t * p.t) + 2 * s * i * (p.z * p.t), q.z * q.z + D * (q.t * q.t) + 2 * i * (q.z * q.t);
    SplitSquare(p, i, s);
    SplitSquare(q, i, 1);
    var l, r := i * p.x + s * p.y, i * q.x + q.y;
    SquareOfProduct(q.z, l);
    SquareOfProduct(p.t, r);
    var n := D * (p.t * q.t) - s * (p.z * q.z);
    RelationAlgebra(p.z, p.t, q.z, q.t, i, s, D);
    ZeroMul(-(D * (p.t * q.t) + s * (p.z * q.z)) - 2 * i * (p.t * q.z), n);
    var e := (q.z * q.z) * ap - D * ((p.t * p.t) * bq);
    assert a * a - D * (b * b) == (q.z * q.z) * (l * l - ap) - (D * (p.t * p.t)) * (r * r - bq) + e;
    Combine3(a * a - D * (b * b), q.z * q.z, l * l - ap, -(D * (p.t * p.t)), r * r - bq, 1, e);
  }

  lemma SplitSquare(p: Ext, i: int, s: int)
    requires OnCurve(p) && s * s == 1 && Zero(i * i + 1)
    ensures var l := i * p.x + s * p.y;
            Zero(l * l - (p.z * p.z + D * (p.t * p.t) + 2 * s * i * (p.z * p.t)))
  {
    hide Zero;
    SegreIs(p);
    CurveIs(p, D);
    var l, v := i * p.x + s * p.y, p.z * p.t;
    SquareOfSum(i * p.x, s * p.y);
    SquareOfProduct(i, p.x);
    SquareOfProduct(s, p.y);
    assert (i * p.x) * (s * p.y) == s * i * (p.x * p.y);
    SplitTerms(i * i, p.x * p.x, p.y * p.y, p.z * p.z + D * (p.t * p.t), s * i, p.x * p.y, v);
    assert 2 * (s * i) * v == 2 * s * i * v;
    Combine3(l * l - (p.z * p.z + D * (p.t * p.t) + 2 * s * i * v), p.x * p.x, i * i + 1, 1, Curve(p, D), 2 * (s * i), Segre(p));
  }

  lemma SplitTerms(ii: int, xx: int, yy: int, w: int, si: int, xy: int, zt: int)
    ensures ii * xx + 2 * (si * xy) + yy - (w + 2 * si * zt) == xx * (ii + 1) + (yy - xx - w) + 2 * si * (xy - zt)
  {
  }

  lemma RelationAlgebra(z1: int, t1: int, z2: int, t2: int, i: int, s: int, d: int)
    requires s * s == 1
    ensures (z2 * z2) * (z1 * z1 + d * (t1 * t1) + 2 * s * i * (z1 * t1))
            - d * ((t1 * t1) * (z2 * z2 + d * (t2 * t2) + 2 * i * (z2 * t2)))
         == (-(d * (t1 * t2) + s * (z1 * z2)) - 2 * i * (t1 * z2)) * (d * (t1 * t2) - s * (z1 * z2))
  {
    var u, v, w := z1 * z2, t1 * t2, t1 * z2;
    SquareOfProduct(z1, z2);
    SquareOfProduct(t1, t2);
    Regroup(z2, z2, z1, t1);
    Regroup(t1, t1, z2, t2);
    RelationLeft(z1 * z1, z2 * z2, t1 * t1, t2 * t2, z1 * t1, z2 * t2, i, s, d);
    RelationRight(u, v, w, i, s, d);
    RelationTerms((z2 * z2) * (z1 * z1), u * u, (z2 * z2) * (z1 * t1), w * u, (t1 * t1) * (t2 * t2), v * v,
                  (t1 * t1) * (z2 * t2), w * v, s * i, d * d, d * i);
  }

  lemma RelationTerms(a: int, a': int, b: int, b': int, c: int, c': int, e: int, e': int, si: int, dd: int, di: int)
    requires a == a' && b == b' && c == c' && e == e'
    ensures a + 2 * si * b - dd * c - 2 * di * e == a' + 2 * si * b' - dd * c' - 2 * di * e'
  {
  }

  lemma RelationLeft(z1: int, z2: int, t1: int, t2: int, m1: int, m2: int, i: int, s: int, d: int)
    ensures z2 * (z1 + d * t1 + 2 * s * i * m1) - d * (t1 * (z2 + d * t2 + 2 * i * m2))
         == z2 * z1 + 2 * (s * i) * (z2 * m1) - d * d * (t1 * t2) - 2 * (d * i) * (t1 * m2)
  {
    Distribute(z2, z1, d * t1, 2 * s * i * m1);
    Distribute(t1, z2, d * t2, 2 * i * m2);
    Distribute(d, t1 * z2, t1 * (d * t2), t1 * (2 * i * m2));
    assert z2 * (2 * s * i * m1) == 2 * (s * i) * (z2 * m1);
    assert d * (t1 * (2 * i * m2)) == 2 * (d * i) * (t1 * m2);
    assert d * (t1 * (d * t2)) == d * d * (t1 * t2);
    assert z2 * (d * t1) == d * (t1 * z2);
  }

  lemma Distribute(a: int, b: int, c: int, e: int)
    ensures a * (b + c + e) == a * b + a * c + a * e
  {
  }

  lemma RelationRight(u: int, v: int, w: int, i: int, s: int, d: int)
    requires s * s == 1
    ensures (-(d * v + s * u) - 2 * i * w) * (d * v - s * u)
         == u * u + 2 * s * i * (w * u) - d * d * (v * v) - 2 * d * i * (w * v)
  {
    var a, b := d * v, s * u;
    SquareOfProduct(d, v);
    SquareOfProduct(s, u);
    DifferenceOfSquares(b, a);
    assert (i * w) * a == d * i * (w * v);
    assert (i * w) * b == s * i * (w * u);
    ThreeTerms(a, b, i * w);
  }

  lemma ThreeTerms(a: int, b: int, q: int)
    ensures (-(a + b) - 2 * q) * (a - b) == b * b - a * a - 2 * (q * a) + 2 * (q * b)
  {
    assert (a + b) * (a - b) == a * a - b * b;
    assert (2 * q) * (a - b) == 2 * (q * a) - 2 * (q * b);
  }

  /** Both z1 z2 + d t1 t2 and z1 z2 - d t1 t2 are units. */
  lemma Complete(p: Ext, q: Ext, s: int)
    requires NoZeroDivisors() && DIsNonSquare()
    requires OnCurve(p) && OnCurve(q) && !Zero(p.z) && !Zero(q.z) && (s == 1 || s == -1)
    ensures !Zero(D * (p.t * q.t) - s * (p.z * q.z))
  {
    ConstantsOfTheCurve();
    hide Zero, OnCurve;
    if Zero(D * (p.t * q.t) - s * (p.z * q.z)) {
      TIsUnit(p, q, s);
      assert (-SQRT_M1) * (-SQRT_M1) == SQRT_M1 * SQRT_M1;
      Vanishes(p, q, SQRT_M1, s);
      Vanishes(p, q, -SQRT_M1, s);
      BothVanish(q, SQRT_M1);
      NonZeroProduct(q.z, q.t);
      assert false;
    }
  }

  lemma TIsUnit(p: Ext, q: Ext, s: int)
    requires NoZeroDivisors() && !Zero(p.z) && !Zero(q.z) && (s == 1 || s == -1)
    requires Zero(D * (p.t * q.t) - s * (p.z * q.z))
    ensures !Zero(p.t) && !Zero(q.t)
  {
    hide Zero;
    NonZeroProduct(p.z, q.z);
    var n := D * (p.t * q.t) - s * (p.z * q.z);
    var zz := p.z * q.z;
    assert s * (s * zz) == zz;
    if Zero(p.t) {
      Combine2(zz, s * (D * q.t), p.t, -s, n);
    }
    if Zero(q.t) {
      Combine2(zz, s * (D * p.t), q.t, -s, n);
    }
  }

  lemma Vanishes(p: Ext, q: Ext, i: int, s: int)
    requires NoZeroDivisors() && DIsNonSquare()
    requires OnCurve(p) && OnCurve(q) && s * s == 1 && Zero(i * i + 1) && !Zero(p.t)
    requires Zero(D * (p.t * q.t) - s * (p.z * q.z))
    ensures Zero(i * q.x + q.y)
  {
    hide Zero, OnCurve, EqualsDTimesSquare;
    SquareRelation(p, q, i, s);
    assert Zero(p.t * (i * q.x + q.y));
    ProductZero(p.t, i * q.x + q.y);
  }

  lemma NonSquareAt(a: int, b: int)
    requires DIsNonSquare() && Zero(a * a - D * (b * b))
    ensures Zero(b)
  {
    hide Zero;
    assert EqualsDTimesSquare(a, b);
  }

  lemma BothVanish(q: Ext, i: int)
    requires NoZeroDivisors() && OnCurve(q)
    requires Zero(i * q.x + q.y) && Zero(-i * q.x + q.y)
    ensures Zero(q.z * q.t)
  {
    SegreIs(q);
    ConstantsOfTheCurve();
    hide Zero;
    Combine2(2 * q.y, 1, i * q.x + q.y, 1, -i * q.x + q.y);
    ProductZero(2, q.y);
    Combine2(q.z * q.t, q.x, q.y, -1, Segre(q));
  }

  // ----- the neutral point

  /** A projective point of the curve with a usable denominator; T is not looked at. */
  ghost predicate Proper(p: Ext) {
    Zero(ProjCurve(p.x, p.y, p.z, D)) && !Zero(p.z)
  }

  function NeutralExt(): Ext {
    Ext(0, 1, 1, 0)
  }

  lemma NeutralSegre()
    ensures Segre(NeutralExt()) == 0
  {
    SegreIs(NeutralExt());
  }

  lemma NeutralCurve(d: int)
    ensures Curve(NeutralExt(), d) == 0
  {
    CurveIs(NeutralExt(), d);
  }

  lemma NeutralProjCurve(d: int)
    ensures ProjCurve(0, 1, 1, d) == 0
  {
    ProjIs(0, 1, 1, d);
  }

  lemma NeutralSumX(d: int)
    ensures SumX(NeutralExt(), NeutralExt(), NeutralExt(), d) == 0
  {
    SumXIs(NeutralExt(), NeutralExt(), NeutralExt(), d);
  }

  lemma NeutralSumY(d: int)
    ensures SumY(NeutralExt(), NeutralExt(), NeutralExt(), d) == 0
  {
    SumYIs(NeutralExt(), NeutralExt(), NeutralExt(), d);
  }

  lemma NeutralIsIdempotent()
    ensures var n := NeutralExt(); OnCurve(n) && Proper(n) && IsSum(n, n, n)
  {
    hide Zero, Segre, Curve, ProjCurve, SumX, SumY;
    ZeroIff(0);
    ZeroIff(1);
    NeutralSegre();
    NeutralCurve(D);
    NeutralProjCurve(D);
    NeutralSumX(D);
    NeutralSumY(D);
  }
}

/**
 The curve equation in affine coordinates modulo p, and its two solutions for a given y.
 */
module AffineCurve {
  import opened Field
  import opened Residues
  import opened Edwards

  // ----- the curve equation in affine form

  /** x^2 (1 + d y^2) - (y^2 - 1), zero exactly on the curve; expanded only by AffineIs. */
  function Affine(x: int, y: int): int {
    AffineFrom(x, y, DEPTH)
  }

  function AffineFrom(x: int, y: int, n: nat): int {
    if n > 0 then AffineFrom(x, y, n - 1) else Prod(Square(x), Den(y)) - Num(y)
  }

  lemma {:induction false} AffineFromIs(x: int, y: int, n: nat)
    ensures AffineFrom(x, y, n) == Prod(Square(x), Den(y)) - Num(y)
  {
    hide Prod, Square, Den, Num;
    if n > 0 {
      AffineFromIs(x, y, n - 1);
    }
  }

  lemma AffineIs(x: int, y: int)
    ensures Affine(x, y) == Prod(Square(x), Den(y)) - Num(y)
  {
    hide Prod, Square, Den, Num;
    AffineFromIs(x, y, DEPTH);
  }

  function Square(x: int): int {
    x * x
  }

  function Den(y: int): int {
    1 + (y * y) * D
  }

  function Num(y: int): int {
    y * y - 1
  }

  /** On the curve with y fixed there are two x, each the other's negative. */
  lemma TwoRoots(a: int, b: int, y: int)
    requires NoZeroDivisors() && DIsNonSquare() && Zero(Affine(a, y)) && Zero(Affine(b, y))
    ensures Zero(b - a) || Zero(b + a)
  {
    hide Zero;
    AffineIs(a, y);
    AffineIs(b, y);
    var den := 1 + (y * y) * D;
    DenominatorIsUnit(y);
    DifferenceOfSquares(b, a);
    assert Affine(b, y) - Affine(a, y) == (b * b - a * a) * den;
    Combine2((b * b - a * a) * den, 1, Affine(b, y), -1, Affine(a, y));
    ProductZero(b * b - a * a, den);
    assert (b - a) * (b + a) == b * b - a * a;
    ProductZero(b - a, b + a);
  }

  lemma DenominatorIsUnit(y: int)
    requires DIsNonSquare()
    ensures !Zero(1 + (y * y) * D)
  {
    ConstantsOfTheCurve();
    hide Zero;
    if Zero(1 + (y * y) * D) {
      var e := SQRT_M1 * SQRT_M1 - D * (y * y);
      Combine2(e, 1, SQRT_M1 * SQRT_M1 + 1, -1, 1 + (y * y) * D);
      NonSquareAt(SQRT_M1, y);
      ZeroMul(y * D, y);
      Combine2(1, 1, 1 + (y * y) * D, -1, y * D * y);
      assert false;
    }
  }

  /** Either root, with Z = 1 and T = XY, is an extended point. */
  lemma RootOnCurve(x: int, y: int, t: int, r: int)
    requires Zero(Affine(r, y)) && (Near(x, r) || Near(x, -r)) && Near(t, x * y)
    ensures OnCurve(Ext(x, y, 1, t))
  {
    hide Zero;
    SegreIs(Ext(x, y, 1, t));
    CurveIs(Ext(x, y, 1, t), D);
    AffineIs(r, y);
    ZeroMul(-1, t - x * y);
    assert Segre(Ext(x, y, 1, t)) == -1 * (t - x * y);
    SameSquare(x, r);
    SquareOfProduct(x, y);
    DifferenceOfSquares(t, x * y);
    CurveExpansion(x * x, y * y, r * r, t * t, D);
    CurveCombined(x * x, y * y, r * r, t, x * y);
    var c := Curve(Ext(x, y, 1, t), D);
    Combine3(c, -1, Affine(r, y), 1 + (y * y) * D, r * r - x * x, -D * (t + x * y), t - x * y);
  }

  lemma CurveCombined(xx: int, yy: int, rr: int, t: int, w: int)
    requires w * w == xx * yy
    ensures D * (t * t - xx * yy) == D * (t + w) * (t - w)
  {
    assert (t + w) * (t - w) == t * t - w * w;
  }

  lemma SameSquare(x: int, r: int)
    requires Near(x, r) || Near(x, -r)
    ensures Zero(r * r - x * x)
  {
    hide Zero;
    if Near(x, r) {
      assert r * r - x * x == (-(r + x)) * (x - r);
      ZeroMul(-(r + x), x - r);
    } else {
      assert r * r - x * x == (r - x) * (x + r);
      ZeroMul(r - x, x + r);
    }
  }

  lemma CurveExpansion(xx: int, yy: int, rr: int, tt: int, d: int)
    ensures yy - xx - (1 * 1 + d * tt) == -1 * (rr * (1 + yy * d) - (yy - 1)) + (1 + yy * d) * (rr - xx) - d * (tt - xx * yy)
  {
    assert rr * (1 + yy * d) == rr + rr * yy * d;
    assert (1 + yy * d) * (rr - xx) == rr - xx + rr * yy * d - xx * yy * d;
  }

  /** The residue of v is odd. */
  predicate OddResidue(v: int) {
    v % P % 2 == 1
  }

  lemma NegativeResidue(v: int)
    requires v % P != 0
    ensures -v % P == P - v % P
  {
    DivModUnique(-v, -(v / P) - 1, P - v % P);
  }

  lemma SameAffine(x: int, v: int, y: int)
    requires Near(v, y) && Zero(Affine(x, y))
    ensures Zero(Affine(x, v))
  {
    hide Zero;
    AffineIs(x, v);
    AffineIs(x, y);
    AffineDifference(x * x, v, y, D);
    Combine2(Affine(x, v), 1, Affine(x, y), ((x * x) * D - 1) * (v + y), v - y);
  }

  lemma AffineDifference(xx: int, v: int, y: int, d: int)
    ensures xx * (1 + (v * v) * d) - (v * v - 1)
         == 1 * (xx * (1 + (y * y) * d) - (y * y - 1)) + ((xx * d - 1) * (v + y)) * (v - y)
  {
    var k := xx * d - 1;
    assert (v + y) * (v - y) == v * v - y * y;
    assert (k * (v + y)) * (v - y) == k * (v * v - y * y);
    DistributeAffine(xx, v * v, d);
    DistributeAffine(xx, y * y, d);
    assert k * (v * v - y * y) == k * (v * v) - k * (y * y);
  }

  lemma DistributeAffine(xx: int, w: int, d: int)
    ensures xx * (1 + w * d) - (w - 1) == (xx * d - 1) * w + xx + 1
  {
  }

  lemma OpposeParity(x: int, rx: int)
    requires Zero(rx - x) || Zero(rx + x)
    requires Zero(rx) || (OddResidue(rx) <==> !OddResidue(x))
    ensures Zero(rx + x)
  {
    hide Zero;
    if Zero(rx - x) {
      SameResidue(rx, x);
      ZeroByResidue(rx, x);
      if Zero(rx) {
        Combine2(rx + x, 1, rx, 1, x);
      }
    }
  }

  /** Whether (x, y) solves the curve equation. */
  ghost predicate Solves(x: int, y: int) {
    Zero(Affine(x, y))
  }

  /** With y fixed modulo p, a solution of the other parity is the negative one. */
  lemma OtherRootIsNegative(x: int, y: int, rx: int, v: int)
    requires NoZeroDivisors() && DIsNonSquare() && Solves(x, y) && Solves(rx, v) && Near(v, y)
    requires Zero(rx) || (OddResidue(rx) <==> !OddResidue(x))
    ensures Near(rx, -x)
  {
    hide Zero, Affine, NoZeroDivisors, DIsNonSquare, OddResidue;
    SameAffine(x, v, y);
    TwoRoots(x, rx, v);
    OpposeParity(x, rx);
  }
}

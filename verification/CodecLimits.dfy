/**
 Points on which ge25519_pack and ge25519_unpackneg_vartime go wrong, because a product that is
 stored comes out as 2^255 or a little more.
 */
module CodecLimits {
  import opened Words
  import opened Optional
  import opened Field
  import opened Residues
  import opened Edwards
  import opened AffineCurve
  import opened MulBound
  import opened PointSpec
  import opened PointGroup
  import opened CurveGroup
  import opened SquareRoot
  import opened PointCodec

  /** A product whose residue is outside the window has the limbs of that residue. */
  lemma TopOfValue(x: Fe, n: nat, top: nat)
    requires 0 <= Val(x) < TWO_255 + SLACK && Val(x) % P == n && 19 + SLACK <= n < P && top <= 127
    requires Pow256(31) * top <= n < Pow256(31) * top + Pow256(31)
    ensures Val(x) == n && x[31] == top
  {
    hide Val;
    ResidueOrMore(Val(x));
    TopLimb(x);
    TopBetween(x[31], top, Pow256(31), Val(x[..31]));
  }

  lemma TopBetween(a: int, b: int, p: nat, low: int)
    requires p > 0 && 0 <= low < p && p * b <= low + p * a < p * b + p
    ensures a == b
  {
    MultiplesApart(p, a, b);
    MultiplesApart(p, b, a);
  }

  // ----- packing

  const PACK_X: nat := 0x11eac0fcbe54e7e50f7ff098c2d66df4ceaee6138491838850718a61bcc34ee1
  const PACK_Z: nat := 0x2365ad760ce5c2e406b65a64bbb003df97b8687d0b567d9c09a96f75dc94b8ed
  const PACK_T: nat := 0x546c52c2204d3600267edb5675ea292b56fb1372d6ccc31df86d4541027edad9
  const NINETEEN_X: nat := 0x5a0ae42dc53b7340ae6b57e93a12261a80a8c5a9e9fcc5235233d09e6a9952e8

  /** Coordinates of the curve point with y = 19. */
  function PackWitness(): (p: P3)
    ensures Val(p.x) == PACK_X && Val(p.y) == LEFT && p.y[31] == 0x20 && Val(p.z) == PACK_Z && Val(p.t) == PACK_T
  {
    P3(Limbs(PACK_X, 0x11), Limbs(LEFT, 0x20), Limbs(PACK_Z, 0x23), Limbs(PACK_T, 0x54))
  }

  ghost function NineteenPoint(): (a: CurvePoint)
    ensures a == Pt(NINETEEN_X, 19)
  {
    NineteenSolves();
    Pt(NINETEEN_X, 19)
  }

  lemma NineteenSolves()
    ensures Solves(NINETEEN_X, 19)
  {
    hide Zero;
    ZeroIff(Affine(NINETEEN_X, 19));
  }

  lemma WitnessOnCurve()
    ensures OnCurve(ExtOf(PackWitness())) && !Zero(PACK_Z)
  {
    hide Zero, Val, PackWitness;
    var p := Ext(PACK_X, LEFT, PACK_Z, PACK_T);
    assert ExtOf(PackWitness()) == p;
    ZeroIff(Segre(p));
    ZeroIff(Curve(p, D));
    ZeroIff(PACK_Z);
  }

  /** The inverse of the witness's Z. */
  lemma WitnessInverse()
    requires Fermat() && NoZeroDivisors()
    ensures Inv(PACK_Z) == RIGHT
  {
    hide Zero, Near, Fermat, NoZeroDivisors, Inv;
    ZeroIff(PACK_Z);
    InverseOf(PACK_Z);
    NearMod(PACK_Z * RIGHT, 1);
    NearBack(1, PACK_Z * RIGHT);
    NearTrans(PACK_Z * Inv(PACK_Z), 1, PACK_Z * RIGHT);
    EqualQuotients(PACK_Z, Inv(PACK_Z), RIGHT);
  }

  lemma EqualQuotients(d: int, r: int, s: int)
    requires NoZeroDivisors() && !Zero(d) && 0 <= r < P && 0 <= s < P && Near(d * r, d * s)
    ensures r == s
  {
    hide Zero, NoZeroDivisors;
    assert d * (r - s) == d * r - d * s;
    ProductZero(d, r - s);
    SameResidue(r, s);
  }

  lemma WitnessNames()
    requires CurveFacts()
    ensures Represents(CurveModel(), PackWitness(), NineteenPoint())
  {
    hide Zero, Val, PackWitness, OnCurve, Fermat, NoZeroDivisors, DIsNonSquare, Associative, Inv, Solves;
    WitnessOnCurve();
    WitnessInverse();
    assert Quotient(PACK_X, LEFT, PACK_Z) == Pt(NINETEEN_X, 19);
    assert OnCurvePt(NineteenPoint());
  }

  /** Whatever limbs the inversion leaves, these coordinates of the point with y = 19 do not pack to its encoding. */
  lemma PackingCanFail(zi: Fe)
    requires CurveFacts() && IsInverse(zi, PackWitness().z)
    ensures Represents(CurveModel(), PackWitness(), NineteenPoint()) && Packed(PackWitness(), zi) != Enc(NineteenPoint())
  {
    hide Zero, Val, PackWitness, Fermat, NoZeroDivisors, DIsNonSquare, Associative, Inv, FeMul, Represents, Packed, Enc, OddResidue;
    WitnessNames();
    WitnessInverse();
    var p, a := PackWitness(), NineteenPoint();
    Pow256At31();
    TopOfValue(zi, RIGHT, 0x6b);
    assert (LEFT * RIGHT) % P == 19;
    assert Tops(p.y, zi) == 0x20 * 0x6b;
    MulLandsHigh(p.y, zi);
    NamedQuotient(p, a);
    AffineCoordinate(p.x, zi, p.z);
    AffineCoordinate(p.y, zi, p.z);
    SameEncoding(Val(FeMul(p.x, zi)), Val(FeMul(p.y, zi)), a.x, a.y);
    PackedIff(p, zi);
  }

  // ----- unpacking

  const KEY_Y: nat := 0x61da6d47d7bacbb924251e498e8834e588097c238f99f7d99ae84caee6f876d4
  const KEY_V: nat := 0x2787fb663240a85d38d0f89cb728cf2afa0ded80edc7eba9ec9d8a0933d9f637
  const KEY_C: nat := 0x6bb493f885d316f3f0c7f1a23063c85391b5bf5fc38294ad89ad74510ea0eed5

  /** The curve point with x = 24. */
  ghost function KeyPoint(): (a: CurvePoint)
    ensures a == Pt(24, KEY_Y)
  {
    KeySolves();
    Pt(24, KEY_Y)
  }

  lemma KeySolves()
    ensures Solves(24, KEY_Y)
  {
    hide Zero;
    ZeroIff(Affine(24, KEY_Y));
  }

  /** 24 is a square root of -1 times a fourth power. */
  lemma TwentyFour()
    ensures Near(24, SQRT_M1 * ((KEY_V * KEY_V) * (KEY_V * KEY_V))) && !Zero(KEY_V)
  {
    hide Near, Zero;
    ZeroIff(KEY_V);
    NearMod(24, SQRT_M1 * ((KEY_V * KEY_V) * (KEY_V * KEY_V)));
  }

  /** The power Q of a square root of -1 is its negative, as Q is 3 modulo 4. */
  lemma PowerOfI(i: int)
    requires Near(i * i, -1)
    ensures Near(Exp(i, Q), -i)
  {
    hide Near, Exp;
    var k: nat := (Q - 3) / 4;
    assert Q == 2 * (2 * k) + 3;
    ExpAdd(i, 2 * (2 * k), 3);
    ExpOfSquare(i, 2 * k);
    ExpOfSquare(i * i, k);
    NearMul(i * i, i * i, -1, -1);
    NearExp((i * i) * (i * i), 1, k);
    ExpOfOne(k);
    ExpThree(i);
    NearMod(i, i);
    NearMul(i * i, i, -1, i);
    NearMul(Exp(i, 2 * (2 * k)), Exp(i, 3), 1, -i);
  }

  lemma {:induction false} ExpOfOne(k: nat)
    ensures Exp(1, k) == 1
  {
    if k > 0 {
      ExpOfOne(k - 1);
    }
  }

  lemma ExpThree(i: int)
    ensures Exp(i, 3) == (i * i) * i
  {
    assert Exp(i, 0) == 1 && Exp(i, 1) == i && Exp(i, 2) == i * i;
    assert Exp(i, 3) == i * (i * i);
  }

  /** A fourth power of a unit to the Q is 1. */
  lemma PowerOfFourth(u: int)
    requires Fermat() && !Zero(u)
    ensures Near(Exp((u * u) * (u * u), Q), 1)
  {
    hide Near, Zero, Exp, Fermat;
    ExpOfSquare(u * u, Q);
    ExpOfSquare(u, 2 * Q);
    Exponents();
    UnitPowerNear(u);
  }

  lemma FourthPower(i: int, v: int, den: int)
    ensures (i * ((v * v) * (v * v))) * ((den * den) * (den * den))
         == i * (((v * den) * (v * den)) * ((v * den) * (v * den)))
  {
    Rearrange(v, den, v, den);
    Rearrange(v * v, den * den, v * v, den * den);
    var a, b := (v * v) * (v * v), (den * den) * (den * den);
    assert (i * a) * b == i * (a * b);
  }

  /** For this point the candidate's root of unity is -i. */
  lemma EtaOfKey(den: int)
    requires Fermat() && NoZeroDivisors() && !Zero(den)
    ensures Near(Eta(24, den), -SQRT_M1)
  {
    hide Near, Zero, Exp, Fermat, NoZeroDivisors;
    var i, u, d4 := SQRT_M1, KEY_V * den, (den * den) * (den * den);
    var u4 := (u * u) * (u * u);
    TwentyFour();
    NearMod(d4, d4);
    NearMul(24, d4, i * ((KEY_V * KEY_V) * (KEY_V * KEY_V)), d4);
    FourthPower(i, KEY_V, den);
    NearExp(Side(24, den), i * u4, Q);
    ExpOfProduct(i, u4, Q);
    NonZeroProduct(KEY_V, den);
    PowerOfFourth(u);
    NearSqrtM1();
    PowerOfI(i);
    NearMul(Exp(i, Q), Exp(u4, Q), -i, 1);
    NearTrans(Eta(24, den), Exp(i * u4, Q), -i * 1);
  }

  /** The candidate has the limbs of -24 i, and does not fit. */
  lemma KeyCandidate(y: Fe, power: Fe)
    requires CurveFacts() && Val(y) == KEY_Y && IsRootPower(power, y)
    ensures var c := CandidateOf(power, NumOf(y), DenOf(y)); Val(c) == KEY_C && c[31] == 0x6b && !Fits(c, y)
  {
    hide Val, Near, Zero, NumOf, DenOf, FeMul, Eta, Solves, Fits, NoZeroDivisors, DIsNonSquare, Fermat, Associative, IsRootPower;
    var num, den := NumOf(y), DenOf(y);
    var c := CandidateOf(power, num, den);
    KeySolves();
    CandidateForPoint(24, y, power);
    DenIsUnit(y);
    EtaOfKey(Val(den));
    NearMod(24, 24);
    NearMul(Eta(24, Val(den)), 24, -SQRT_M1, 24);
    NearTrans(Val(c), Eta(24, Val(den)) * 24, -SQRT_M1 * 24);
    NearMod(Val(c), -SQRT_M1 * 24);
    Pow256At31();
    CandidateBelow(power, num, den);
    TopOfValue(c, KEY_C, 0x6b);
    KeyDoesNotFit(c, y);
  }

  lemma CandidateBelow(power: Fe, num: Fe, den: Fe)
    ensures 0 <= Val(CandidateOf(power, num, den)) < TWO_255 + SLACK
  {
    hide Val, FeMul;
  }

  lemma KeyDoesNotFit(c: Fe, y: Fe)
    requires NoZeroDivisors() && Val(y) == KEY_Y && Val(c) == KEY_C
    ensures !Fits(c, y)
  {
    hide Val, Near, Zero, NoZeroDivisors, Fits;
    if Fits(c, y) {
      FittingSolves(c, y);
      NotASolution();
      assert false;
    }
  }

  lemma NotASolution()
    ensures !Solves(KEY_C, KEY_Y)
  {
    hide Zero;
    ZeroIff(Affine(KEY_C, KEY_Y));
  }

  /** So the root is turned by i to 24, whose limbs come out as 24 + p. */
  lemma KeyRoot(y: Fe, power: Fe)
    requires CurveFacts() && Val(y) == KEY_Y && IsRootPower(power, y)
    ensures Val(RootOf(y, power)) == 24 + P
  {
    hide Val, FeMul, SqrtM1, Fits, CurveFacts, CandidateOf, NumOf, DenOf, RootOf, IsRootPower;
    KeyCandidate(y, power);
    RootCases(y, power);
    KeyTurned(CandidateOf(power, NumOf(y), DenOf(y)));
  }

  lemma KeyTurned(c: Fe)
    requires Val(c) == KEY_C && c[31] == 0x6b
    ensures Val(FeMul(c, SqrtM1())) == 24 + P
  {
    hide Val, FeMul, SqrtM1;
    SqrtLimbs();
    assert (KEY_C * SQRT_M1) % P == 24;
    assert Tops(c, SqrtM1()) == 0x6b * 0x2b;
    MulLandsHigh(c, SqrtM1());
  }

  lemma SqrtLimbs()
    ensures Val(SqrtM1()) == SQRT_M1 && SqrtM1()[31] == 0x2b
  {
    hide Val;
    SqrtTop();
  }

  /** The key bytes of the point with x = 24 are accepted, but give the point itself instead of its negative. */
  lemma UnpackingCanFail(power: Fe)
    requires CurveFacts() && IsRootPower(power, Unpack(Enc(KeyPoint())))
    ensures var q := UnpackedNeg(Enc(KeyPoint()), power);
            q.Some? && Represents(CurveModel(), q.value, KeyPoint()) && KeyPoint() != Minus(KeyPoint())
  {
    hide Val, Near, Zero, Enc, Unpack, IsRootPower, Solves, Fits, RootOf, SignedRoot, NoZeroDivisors, DIsNonSquare, Fermat,
         Associative, OnCurve, PointOf, Represents;
    var a := KeyPoint();
    var b := Enc(a);
    DecodedParts(b, a.x, a.y);
    var y := Unpack(b);
    KeyRoot(y, power);
    var root := RootOf(y, power);
    KeyFits(y, power);
    KeySign(root);
    UnpackedOnCurve(b, power);
    NamesItself(a, SignedRoot(root, 0), y);
  }

  lemma KeyFits(y: Fe, power: Fe)
    requires CurveFacts() && Val(y) == KEY_Y && IsRootPower(power, y)
    ensures Fits(RootOf(y, power), y)
  {
    hide Val, Near, Zero, IsRootPower, Solves, Fits, RootOf, NoZeroDivisors, DIsNonSquare, Fermat, Associative, InWindow, NumOf;
    KeySolves();
    NumWindow(y, KEY_Y);
    KeyNum();
    RootFits(24, y, power);
  }

  lemma KeyNum()
    ensures !InWindow(Num(KEY_Y))
  {
  }

  lemma KeySign(root: Fe)
    requires Val(root) == 24 + P
    ensures Near(Val(SignedRoot(root, 0)), 24)
  {
    hide Val, Near, Zero, FeNeg, Parity;
    ZeroIff(24 + P);
    SignIff(root, 0);
    NearMod(24 + P, 24);
    NegNear(root, 24);
    NearMod(Val(FeNeg(root)), -24);
    assert -24 % P == P - 24;
  }
}

/**
 Points to and from 32 bytes (ge25519_pack and ge25519_unpackneg_vartime; sections 5.1.2 and 5.1.3
 of RFC 8032).  The code stores products that may be 2^255 or more, so both directions are exact
 only under a condition; each is stated exactly, with a sufficient condition on the point alone and
 a point on which it fails.
 */
module PointCodec {
  import opened Words
  import opened Optional
  import opened Field
  import opened Residues
  import opened Edwards
  import opened AffineCurve
  import opened MulBound
  import opened PointSpec
  import opened PointGroup
  import opened CurveGroup
  import opened SquareRoot
  import opened Ge25519
  import FeChains

  // ----- constants

  /** The weight of the top limb. */
  const WEIGHT: int := 0x100_0000_0000_0000_0000_0000_0000_0000_0000_0000_0000_0000_0000_0000_0000_0000

  function Limbs(n: nat, top: nat): (x: Fe)
    requires top <= 127 && n / WEIGHT == top
    ensures Val(x) == n && x[31] == top
  {
    LimbsFit(n, top);
    LimbsOf(n, 32)
  }

  lemma LimbsFit(n: nat, top: nat)
    requires top <= 127 && n / WEIGHT == top
    ensures Val(LimbsOf(n, 32)) == n && LimbsOf(n, 32)[31] == top && Bounded(LimbsOf(n, 32))
  {
    hide Val, LimbsOf;
    Pow256At31();
    assert Pow256(31) == WEIGHT;
    LimbsOfVal(n, 32);
    TopLimbIs(LimbsOf(n, 32), top);
  }

  function Ecd(): Fe {
    EcdTop();
    LimbsOf(D, 32)
  }

  lemma EcdTop()
    ensures Val(LimbsOf(D, 32)) == D && LimbsOf(D, 32)[31] == 0x52
  {
    hide Val, LimbsOf;
    Pow256At31();
    LimbsOfVal(D, 32);
    TopLimbIs(LimbsOf(D, 32), 0x52);
  }

  function SqrtM1(): Fe {
    SqrtTop();
    LimbsOf(SQRT_M1, 32)
  }

  lemma SqrtTop()
    ensures Val(LimbsOf(SQRT_M1, 32)) == SQRT_M1 && LimbsOf(SQRT_M1, 32)[31] == 0x2b
  {
    hide Val, LimbsOf;
    Pow256At31();
    LimbsOfVal(SQRT_M1, 32);
    TopLimbIs(LimbsOf(SQRT_M1, 32), 0x2b);
  }

  lemma NearEcd()
    ensures Near(Val(Ecd()), D)
  {
    EcdTop();
    hide Val, LimbsOf;
    NearMod(D, D);
  }

  lemma NearSqrtM1()
    ensures Near(Val(SqrtM1()), SQRT_M1) && Near(SQRT_M1 * SQRT_M1, -1)
  {
    SqrtTop();
    ConstantsOfTheCurve();
    hide Val, LimbsOf, Zero;
    NearMod(SQRT_M1, SQRT_M1);
    assert SQRT_M1 * SQRT_M1 - -1 == SQRT_M1 * SQRT_M1 + 1;
  }

  // ----- the encoding

  /** The number 32 bytes of an encoded point hold: y, and the low bit of x at position 255. */
  function Encoding(x: int, y: int): int {
    y % P + (if OddResidue(x) then TWO_255 else 0)
  }

  /** The 32 little-endian bytes of a number below 256^32. */
  function LittleEndian(n: nat, k: nat): (r: seq<byte>)
    ensures |r| == k
    ensures n < Pow256(k) ==> Val(r) == n
    decreases k
  {
    if k == 0 then [] else
      var r := [n % 256] + LittleEndian(n / 256, k - 1);
      assert r[1..] == LittleEndian(n / 256, k - 1);
      r
  }

  lemma DigitsAre(v: seq<byte>)
    requires |v| == 32
    ensures Val(v) >= 0 && v == LittleEndian(Val(v), 32)
  {
    hide LittleEndian, Val;
    ValOfBytes(v);
    ValInjective(v, LittleEndian(Val(v), 32));
  }

  /** Section 5.1.2 of RFC 8032. */
  function Enc(a: Pt): (b: seq<byte>)
    ensures |b| == 32 && Val(b) == Encoding(a.x, a.y)
  {
    Pow256At31();
    EncodingRange(a.x, a.y);
    LittleEndian(Encoding(a.x, a.y), 32)
  }

  lemma EncodingRange(x: int, y: int)
    ensures 0 <= Encoding(x, y) < 2 * TWO_255
  {
  }

  lemma EncIs(a: Pt, b: seq<byte>)
    requires |b| == 32 && Val(b) == Encoding(a.x, a.y)
    ensures b == Enc(a)
  {
    hide LittleEndian, Val, Encoding;
    DigitsAre(b);
  }

  // ----- packing

  /** The bytes ge25519_pack writes, given the limbs of the inverse of Z. */
  function Packed(p: P3, zi: Fe): (r: seq<byte>)
    ensures |r| == 32
  {
    var b := Pack(FeMul(p.y, zi));
    b[31 := XorByte(b[31], SignByte(FeMul(p.x, zi)))]
  }

  function SignByte(x: Fe): (b: byte)
    ensures b == 128 * Parity(x)
  {
    ParityRange(x);
    128 * Parity(x)
  }

  lemma ParityRange(x: Fe)
    ensures Parity(x) == 0 || Parity(x) == 1
  {
    hide Freeze;
  }

  /** What fe25519_invert returns for Z. */
  ghost predicate IsInverse(zi: Fe, z: Fe) {
    Val(zi) % P == Inv(Val(z)) && 0 <= Val(zi) < TWO_255 + SLACK
  }

  /** ge25519_pack */
  method PackPoint(p: P3) returns (r: seq<byte>, ghost zi: Fe)
    ensures IsInverse(zi, p.z) && r == Packed(p, zi)
  {
    hide Val, FeMul, Exp, Parity, Xor, Pack, Mod;
    var a := new u32[32](k requires 0 <= k < 32 => p.z[k]);
    assert a[..] == p.z;
    ModIs(Exp(Val(p.z), P - 2));
    FeChains.Invert(a, a);
    var inverse: Fe := a[..];
    zi := inverse;
    var tx, ty := FeMul(p.x, inverse), FeMul(p.y, inverse);
    var b := Pack(ty);
    r := b[31 := XorByte(b[31], SignByte(tx))];
  }

  /** The bytes encode the affine point exactly when both its coordinates came out below 2^255. */
  lemma PackedIff(p: P3, zi: Fe)
    ensures var tx, ty := FeMul(p.x, zi), FeMul(p.y, zi);
            Val(Packed(p, zi)) == Encoding(Val(tx), Val(ty)) <==> Val(tx) < TWO_255 && Val(ty) < TWO_255
  {
    hide Val, FeMul, Parity, Pack, XorByte, OddResidue;
    var tx, ty := FeMul(p.x, zi), FeMul(p.y, zi);
    var b := Pack(ty);
    PackTop(ty);
    ParityIff(tx);
    ParityRange(tx);
    PackedValue(b, Parity(tx));
    FreezeOf(ty);
    OddIs(Val(tx));
    assert Val(Packed(p, zi)) == Val(b[31 := XorByte(b[31], SignByte(tx))]);
  }

  lemma OddIs(v: int)
    ensures OddResidue(v) <==> v % P % 2 == 1
    ensures v % P % 2 == 0 || v % P % 2 == 1
  {
  }

  /** Below 2^255 packing gives the residue; at or above it the value itself, whose top bit is set. */
  lemma FreezeOf(y: Fe)
    ensures Val(y) < TWO_255 ==> Val(Pack(y)) == Val(y) % P < TWO_255
    ensures Val(y) >= TWO_255 ==> Val(Pack(y)) == Val(y) == Val(y) % P + P < TWO_255 + TWO_255
  {
    hide Val, Freeze;
    TopLimb(y);
    Pow256At31();
    if Val(y) >= TWO_255 {
      DivModUnique(Val(y), 1, Val(y) - P);
    }
  }

  /** The parity bit flips bit 255 of the packed y. */
  lemma PackedValue(b: seq<byte>, bit: int)
    requires |b| == 32 && (bit == 0 || bit == 1) && (b[31] <= 127 || b[31] == 128)
    ensures 128 * bit <= 255
    ensures Val(b[31 := XorByte(b[31], 128 * bit)]) == Val(b) + (if b[31] == 128 && bit == 1 then -TWO_255 else bit * TWO_255)
  {
    hide Val, Xor, XorByte;
    TopBitXor(b[31], bit);
    assert XorByte(b[31], 128 * bit) == Xor(b[31], 128 * bit);
    ValUpdate(b, 31, XorByte(b[31], 128 * bit));
    Pow256At31();
  }

  lemma TopBitXor(v: byte, bit: nat)
    requires bit <= 1 && (v <= 127 || v == 128)
    ensures Xor(v, 128 * bit) == if v == 128 && bit == 1 then 0 else v + 128 * bit
  {
    hide Xor;
    if bit == 0 {
      XorZero(v);
    } else if v == 128 {
      XorIsZero(128, 128);
    } else {
      PowerSeven();
      XorAbove(v, 7);
    }
  }

  lemma PowerSeven()
    ensures Power2(7) == 128
  {
  }

  /** A curve point whose encoding the packing code always produces. */
  predicate Packable(a: Pt) {
    !InWindow(a.x) && !InWindow(a.y)
  }

  /** The limbs of a packed coordinate are those of its residue outside the window. */
  lemma AffineCoordinate(x: Fe, zi: Fe, z: Fe)
    requires IsInverse(zi, z)
    ensures Val(FeMul(x, zi)) % P == Mod(Val(x) * Inv(Val(z)))
    ensures !InWindow(Mod(Val(x) * Inv(Val(z)))) ==> Val(FeMul(x, zi)) < TWO_255
  {
    hide Val, FeMul, Inv, Mod, Near;
    ProductResidue(Val(x), Val(zi), Inv(Val(z)));
    hide InWindow;
    SameWindow(Val(x) * Val(zi), Mod(Val(x) * Inv(Val(z))));
    if !InWindow(Mod(Val(x) * Inv(Val(z)))) {
      OutsideWindow(x, zi);
    }
  }

  lemma ProductResidue(x: int, zi: int, i: int)
    requires zi % P == i && 0 <= i < P
    ensures (x * zi) % P == Mod(x * i)
  {
    hide Near, Mod;
    NearMod(x, x);
    NearMod(zi, i);
    NearMul(x, zi, x, i);
    NearMod(x * zi, x * i);
    ModIs(x * i);
  }

  lemma SameWindow(a: int, b: int)
    requires a % P == b && 0 <= b < P
    ensures InWindow(a) <==> InWindow(b)
  {
  }

  /** Coordinates that name a point pack to its encoding exactly when both stored quotients are below 2^255. */
  lemma PackedNamesIff(p: P3, zi: Fe, a: CurvePoint)
    requires CurveFacts() && IsInverse(zi, p.z) && Represents(CurveModel(), p, a)
    ensures Packed(p, zi) == Enc(a) <==> Val(FeMul(p.x, zi)) < TWO_255 && Val(FeMul(p.y, zi)) < TWO_255
  {
    hide Val, FeMul, Inv, Packed, Enc, InWindow, CurveFacts, OddResidue;
    NamedQuotient(p, a);
    AffineCoordinate(p.x, zi, p.z);
    AffineCoordinate(p.y, zi, p.z);
    PackedIff(p, zi);
    SameEncoding(Val(FeMul(p.x, zi)), Val(FeMul(p.y, zi)), a.x, a.y);
    if Val(Packed(p, zi)) == Encoding(a.x, a.y) {
      EncIs(a, Packed(p, zi));
    }
  }

  /** Outside the window, packing any coordinates that name a point gives its encoding. */
  lemma PackedNames(p: P3, zi: Fe, a: CurvePoint)
    requires CurveFacts() && IsInverse(zi, p.z) && Represents(CurveModel(), p, a) && Packable(a)
    ensures Packed(p, zi) == Enc(a)
  {
    hide Val, FeMul, Inv, Packed, Enc, InWindow, CurveFacts, OddResidue;
    NamedQuotient(p, a);
    AffineCoordinate(p.x, zi, p.z);
    AffineCoordinate(p.y, zi, p.z);
    PackedNamesIff(p, zi, a);
  }

  lemma SameEncoding(x: int, y: int, x': int, y': int)
    requires x % P == x' && y % P == y' && 0 <= x' < P && 0 <= y' < P
    ensures Encoding(x, y) == Encoding(x', y')
  {
  }

  /** The point that coordinates name is their quotient. */
  lemma NamedQuotient(p: P3, a: CurvePoint)
    requires CurveFacts() && Represents(CurveModel(), p, a)
    ensures a.x == Mod(Val(p.x) * Inv(Val(p.z))) && a.y == Mod(Val(p.y) * Inv(Val(p.z)))
  {
    hide Val, Zero, NoZeroDivisors, DIsNonSquare, Fermat, Associative, Inv, OnCurve, ProjCurve;
    ProperOnCurve(ExtOf(p));
    QuotientOnCurve(Val(p.x), Val(p.y), Val(p.z));
  }

  // ----- unpacking

  function NumOf(y: Fe): Fe {
    FeSub(FeMul(y, y), OneLimb(1))
  }

  function DenOf(y: Fe): Fe {
    FeAdd(OneLimb(1), FeMul(FeMul(y, y), Ecd()))
  }

  /** num den^7 */
  function BaseOf(num: Fe, den: Fe): Fe {
    var den2 := FeMul(den, den);
    var den4 := FeMul(den2, den2);
    FeMul(FeMul(FeMul(den4, den2), num), den)
  }

  /** power num den^3 */
  function CandidateOf(power: Fe, num: Fe, den: Fe): Fe {
    FeMul(FeMul(FeMul(FeMul(power, num), den), den), den)
  }

  /** chk = x^2 den */
  function Chk(x: Fe, den: Fe): Fe {
    FeMul(FeMul(x, x), den)
  }

  /** The candidate, turned by a square root of -1 unless it already fits. */
  function RootOf(y: Fe, power: Fe): Fe {
    var c := CandidateOf(power, NumOf(y), DenOf(y));
    if IsEq(Chk(c, DenOf(y)), NumOf(y)) then c else FeMul(c, SqrtM1())
  }

  /** The one of the candidate and its turn whose square times den is num, for a y on the curve. */
  ghost function TrueRoot(y: Fe, power: Fe): Fe {
    var num, den := NumOf(y), DenOf(y);
    var c := CandidateOf(power, num, den);
    if Near((Val(c) * Val(c)) * Val(den), Val(num)) then c else FeMul(c, SqrtM1())
  }

  ghost predicate RootBelow255(y: Fe, power: Fe) {
    Val(TrueRoot(y, power)) < TWO_255
  }

  /** Its square times den, as stored for the final comparison. */
  ghost predicate SquareBelow255(y: Fe, power: Fe) {
    Val(Chk(TrueRoot(y, power), DenOf(y))) < TWO_255
  }

  predicate Fits(x: Fe, y: Fe) {
    IsEq(Chk(x, DenOf(y)), NumOf(y))
  }

  /** The root with the other parity than bit 255 of the encoding says. */
  function SignedRoot(root: Fe, sign: int): Fe {
    if Parity(root) != 1 - sign then FeNeg(root) else root
  }

  function PointOf(x: Fe, y: Fe): P3 {
    P3(x, y, OneLimb(1), FeMul(x, y))
  }

  /** What ge25519_unpackneg_vartime makes of p, given the limbs of the square-root power. */
  function UnpackedNeg(p: seq<byte>, power: Fe): Option<P3>
    requires |p| == 32
  {
    UnpackedWith(Unpack(p), p[31] / 128, power)
  }

  function UnpackedWith(y: Fe, sign: int, power: Fe): Option<P3> {
    var root := RootOf(y, power);
    if Fits(root, y) then Some(PointOf(SignedRoot(root, sign), y)) else None
  }

  /** What fe25519_pow2523 returns for num den^7. */
  ghost predicate IsRootPower(power: Fe, y: Fe) {
    Val(power) % P == Exp(Val(BaseOf(NumOf(y), DenOf(y))), E) % P
  }

  /** fe25519_pow2523, through an array. */
  method RootPower(x: Fe) returns (r: Fe)
    ensures Val(r) % P == Exp(Val(x), E) % P
  {
    var a := new u32[32](k requires 0 <= k < 32 => x[k]);
    assert a[..] == x;
    FeChains.Pow2523(a, a);
    r := a[..];
  }

  /** The return value, and what r holds on success. */
  predicate Reported(point: Option<P3>, ret: int, r: P3) {
    match point
    case None => ret == -1
    case Some(q) => ret == 0 && r == q
  }

  /** ge25519_unpackneg_vartime */
  method UnpackNegVartime(r: Point, p: seq<byte>) returns (ret: int, ghost power: Fe)
    requires |p| == 32
    modifies r
    ensures IsRootPower(power, Unpack(p))
    ensures Reported(UnpackedNeg(p, power), ret, r.Value())
  {
    hide Val, FeMul, FeAdd, FeSub, FeNeg, IsEq, Ecd, SqrtM1, Parity, Exp, Unpack, OneLimb;
    r.z := OneLimb(1);
    var par := p[31] / 128;
    r.y := Unpack(p);
    var num := FeMul(r.y, r.y);
    var den := FeMul(num, Ecd());
    num := FeSub(num, r.z);
    den := FeAdd(r.z, den);
    var den2 := FeMul(den, den);
    var den4 := FeMul(den2, den2);
    var den6 := FeMul(den4, den2);
    var t := FeMul(den6, num);
    t := FeMul(t, den);
    t := RootPower(t);
    power := t;
    t := FeMul(t, num);
    t := FeMul(t, den);
    t := FeMul(t, den);
    r.x := FeMul(t, den);
    var chk := Chk(r.x, den);
    if !IsEq(chk, num) {
      r.x := FeMul(r.x, SqrtM1());
    }
    chk := Chk(r.x, den);
    if !IsEq(chk, num) {
      return -1, power;
    }
    if Parity(r.x) != 1 - par {
      r.x := FeNeg(r.x);
    }
    r.t := FeMul(r.x, r.y);
    ret := 0;
  }

  // ----- whatever is accepted is on the curve

  lemma NumNear(y: Fe)
    ensures Near(Val(NumOf(y)), Num(Val(y)))
  {
    hide *;
    OneLimbVal(1);
    NumNearOne(y, OneLimb(1));
    NumOfIs(y);
  }

  lemma NumOfIs(y: Fe)
    ensures NumOf(y) == FeSub(FeMul(y, y), OneLimb(1)) && DenOf(y) == FeAdd(OneLimb(1), FeMul(FeMul(y, y), Ecd()))
  {
    hide FeSub, FeMul, FeAdd, OneLimb, Ecd;
  }

  lemma NumNearOne(y: Fe, one: Fe)
    requires Val(one) == 1
    ensures Near(Val(FeSub(FeMul(y, y), one)), Num(Val(y)))
  {
    hide Val, FeMul, FeSub, Near;
    NearSelf(y);
    NearSelf(one);
    MulNear(y, y, Val(y), Val(y));
    SubNear(FeMul(y, y), one, Val(y) * Val(y), 1);
  }

  lemma DenNear(y: Fe)
    ensures Near(Val(DenOf(y)), Den(Val(y)))
  {
    hide *;
    OneLimbVal(1);
    DenNearOne(y, OneLimb(1));
    NumOfIs(y);
  }

  lemma DenNearOne(y: Fe, one: Fe)
    requires Val(one) == 1
    ensures Near(Val(FeAdd(one, FeMul(FeMul(y, y), Ecd()))), Den(Val(y)))
  {
    hide Val, FeMul, FeAdd, Near, Ecd, D;
    NearSelf(y);
    NearSelf(one);
    NearEcd();
    MulNear(y, y, Val(y), Val(y));
    MulNear(FeMul(y, y), Ecd(), Val(y) * Val(y), D);
    AddNear(one, FeMul(FeMul(y, y), Ecd()), 1, (Val(y) * Val(y)) * D);
  }

  lemma CheckNear(x: Fe, den: Fe, a: int, d: int)
    requires Near(Val(x), a) && Near(Val(den), d)
    ensures Near(Val(Chk(x, den)), Prod(Square(a), d))
  {
    hide Val, FeMul, Near;
    MulNear(x, x, a, a);
    MulNear(FeMul(x, x), den, a * a, d);
  }

  lemma EqualNear(u: Fe, v: Fe, a: int, b: int)
    requires IsEq(u, v) && Near(Val(u), a) && Near(Val(v), b)
    ensures Near(a, b)
  {
    hide Val, IsEq, Near;
    IsEqIff(u, v);
    SameNear(Val(u), Val(v), a, b);
  }

  /** The final comparison of num with x^2 den puts (x, y) on the curve. */
  lemma FittingSolves(x: Fe, y: Fe)
    requires Fits(x, y)
    ensures Solves(Val(x), Val(y))
  {
    hide *;
    FitsMeans(x, y);
    NumNear(y);
    DenNear(y);
    NearSelf(x);
    CheckNear(x, DenOf(y), Val(x), Den(Val(y)));
    FittingNear(Val(x), Val(y), Chk(x, DenOf(y)), NumOf(y));
  }

  lemma FitsMeans(x: Fe, y: Fe)
    ensures Fits(x, y) <==> IsEq(Chk(x, DenOf(y)), NumOf(y))
  {
    hide IsEq, Chk, DenOf, NumOf;
  }

  lemma FittingNear(x: int, y: int, c: Fe, num: Fe)
    requires IsEq(c, num) && Near(Val(num), Num(y)) && Near(Val(c), Prod(Square(x), Den(y)))
    ensures Solves(x, y)
  {
    hide *;
    EqualNear(c, num, Prod(Square(x), Den(y)), Num(y));
    SolvesFromNear(x, y);
  }

  lemma SolvesFromNear(x: int, y: int)
    ensures Near(Prod(Square(x), Den(y)), Num(y)) <==> Solves(x, y)
  {
    hide Zero, Prod, Square, Den, Num;
    AffineIs(x, y);
  }

  /** What the limbs of a root, or of its negative, and of T are near. */
  lemma RootNear(root: Fe, x: Fe, y: Fe)
    requires x == root || x == FeNeg(root)
    ensures (Near(Val(x), Val(root)) || Near(Val(x), -Val(root))) && Near(Val(FeMul(x, y)), Val(x) * Val(y))
  {
    hide Val, FeMul, FeNeg, Zero;
    NearSelf(x);
    NearSelf(y);
    NearSelf(root);
    NegNear(root, Val(root));
    MulNear(x, y, Val(x), Val(y));
  }

  lemma NegFlipsParity(x: Fe)
    requires !Zero(Val(x))
    ensures OddResidue(Val(FeNeg(x))) <==> !OddResidue(Val(x))
  {
    hide Val, FeNeg, Zero;
    ZeroIff(Val(x));
    NegativeResidue(Val(x));
  }

  /** Any bytes that are accepted give a point of the curve with the encoded y and Z = 1. */
  lemma UnpackedOnCurve(p: seq<byte>, power: Fe)
    requires |p| == 32 && UnpackedNeg(p, power).Some?
    ensures var q := UnpackedNeg(p, power).value;
            OnCurve(ExtOf(q)) && Val(q.z) == 1 && q.y == Unpack(p)
  {
    hide Val, FeMul, FeNeg, Parity, RootOf, Fits, OnCurve, Unpack, OneLimb;
    var y := Unpack(p);
    var root := RootOf(y, power);
    OneLimbVal(1);
    FittingSolves(root, y);
    var x := SignedRoot(root, p[31] / 128);
    RootNear(root, x, y);
    RootOnCurve(Val(x), Val(y), Val(FeMul(x, y)), Val(root));
  }

  /** The sign is the opposite of the encoded one exactly when the root, before it is negated, is below 2^255. */
  lemma SignIff(root: Fe, sign: int)
    requires (sign == 0 || sign == 1) && !Zero(Val(root))
    ensures (OddResidue(Val(SignedRoot(root, sign))) <==> sign == 0) <==> Val(root) < TWO_255
  {
    hide Val, FeNeg, Parity, Zero, OddResidue;
    ParityIff(root);
    ParityRange(root);
    NegFlipsParity(root);
    OddIs(Val(root));
  }

  // ----- every encoding is accepted, and gives the negative

  lemma BaseValue(num: Fe, den: Fe)
    ensures Near(Val(BaseOf(num, den)), Base(Val(num), Val(den)))
  {
    hide Val, FeMul, Near;
    var n, d := Val(num), Val(den);
    NearSelf(num);
    NearSelf(den);
    var den2 := FeMul(den, den);
    MulNear(den, den, d, d);
    var den4 := FeMul(den2, den2);
    MulNear(den2, den2, d * d, d * d);
    var den6 := FeMul(den4, den2);
    MulNear(den4, den2, (d * d) * (d * d), d * d);
    MulNear(den6, num, ((d * d) * (d * d)) * (d * d), n);
    MulNear(FeMul(den6, num), den, (((d * d) * (d * d)) * (d * d)) * n, d);
  }

  lemma CandidateValue(power: Fe, num: Fe, den: Fe)
    ensures Near(Val(CandidateOf(power, num, den)), Candidate(Val(power), Val(num), Val(den)))
  {
    hide Val, FeMul, Near;
    var w, n, d := Val(power), Val(num), Val(den);
    NearSelf(power);
    NearSelf(num);
    NearSelf(den);
    var t1 := FeMul(power, num);
    MulNear(power, num, w, n);
    var t2 := FeMul(t1, den);
    MulNear(t1, den, w * n, d);
    var t3 := FeMul(t2, den);
    MulNear(t2, den, (w * n) * d, d);
    MulNear(t3, den, ((w * n) * d) * d, d);
  }

  /** For a point of the curve the candidate is x times a fourth root of unity. */
  lemma CandidateForPoint(x: int, y: Fe, power: Fe)
    requires Solves(x, Val(y)) && IsRootPower(power, y)
    ensures var num, den := NumOf(y), DenOf(y);
            && Near(Val(num), (x * x) * Val(den))
            && Near(Val(CandidateOf(power, num, den)), Eta(x, Val(den)) * x)
  {
    hide Val, Near, NumOf, DenOf, BaseOf, CandidateOf, Base, Candidate, Eta, Solves, Exp;
    var num, den := NumOf(y), DenOf(y);
    NumForPoint(x, y);
    BaseValue(num, den);
    CandidateValue(power, num, den);
    NearMod(Val(power), Exp(Val(BaseOf(num, den)), E));
    CandidateNear(Val(power), Val(BaseOf(num, den)), Val(num), Val(den), x);
    NearTrans(Val(CandidateOf(power, num, den)), Candidate(Val(power), Val(num), Val(den)), Eta(x, Val(den)) * x);
  }

  lemma NumForPoint(x: int, y: Fe)
    requires Solves(x, Val(y))
    ensures Near(Val(NumOf(y)), (x * x) * Val(DenOf(y)))
  {
    hide Val, Near, NumOf, DenOf, Solves, Num, Den;
    var v := Val(y);
    NumNear(y);
    DenNear(y);
    SolvesFromNear(x, v);
    NearMod(x * x, x * x);
    NearMul(x * x, Val(DenOf(y)), x * x, Den(v));
    NearBack((x * x) * Den(v), (x * x) * Val(DenOf(y)));
    NearBack(Num(v), Prod(Square(x), Den(v)));
    NearTrans(Val(NumOf(y)), Num(v), (x * x) * Den(v));
    NearTrans(Val(NumOf(y)), (x * x) * Den(v), (x * x) * Val(DenOf(y)));
  }

  /** The comparison decides congruence exactly when the stored square times den is below 2^255. */
  lemma FitsIff(x: Fe, y: Fe)
    ensures Fits(x, y) <==>
              Near((Val(x) * Val(x)) * Val(DenOf(y)), Val(NumOf(y))) && Val(Chk(x, DenOf(y))) < TWO_255
  {
    hide Val, FeMul, Near, NumOf, DenOf, IsEq, Chk;
    var num, den := NumOf(y), DenOf(y);
    var w, v := Val(Chk(x, den)), (Val(x) * Val(x)) * Val(den);
    FitsMeans(x, y);
    NearSelf(x);
    NearSelf(den);
    CheckNear(x, den, Val(x), Val(den));
    NearMod(w, v);
    NearMod(v, Val(num));
    NumBelow(y);
    IsEqIff(Chk(x, den), num);
  }

  lemma ChkBelow(x: Fe, den: Fe)
    ensures 0 <= Val(Chk(x, den)) && (!InWindow(Val(Chk(x, den))) ==> Val(Chk(x, den)) < TWO_255)
  {
    hide Val, FeMul;
    ResidueOrMore(Val(FeMul(FeMul(x, x), den)));
  }

  lemma NumBelow(y: Fe)
    ensures 0 <= Val(NumOf(y)) < TWO_255
  {
    hide Val, FeMul, OneLimb;
  }

  lemma TrueRootCases(y: Fe, power: Fe)
    ensures var num, den := NumOf(y), DenOf(y); var c := CandidateOf(power, num, den);
            TrueRoot(y, power) == if Near((Val(c) * Val(c)) * Val(den), Val(num)) then c else FeMul(c, SqrtM1())
    ensures 0 <= Val(TrueRoot(y, power)) < TWO_255 + SLACK
  {
    hide Val, FeMul, Near, NumOf, DenOf, SqrtM1;
  }

  /** For a y of the curve one of the two is a root. */
  lemma TrueRootNear(x: int, y: Fe, power: Fe)
    requires Arithmetic() && Solves(x, Val(y)) && IsRootPower(power, y)
    ensures var r := Val(TrueRoot(y, power)); Near((r * r) * Val(DenOf(y)), Val(NumOf(y)))
  {
    hide Val, Near, Zero, NumOf, DenOf, FeMul, Eta, Solves, NoZeroDivisors, DIsNonSquare, Fermat, CandidateOf, IsRootPower, SqrtM1, TrueRoot;
    var num, den := NumOf(y), DenOf(y);
    var c := CandidateOf(power, num, den);
    TrueRootCases(y, power);
    CandidateForPoint(x, y, power);
    CandidateSigns(x, y, Val(c));
    if !Near((Val(c) * Val(c)) * Val(den), Val(num)) {
      NearSqrtM1();
      TurnedSquare(Val(c), SQRT_M1, Val(num), Val(den));
      TurnedNear(c, Val(den), Val(num));
    }
  }

  /** A y of the curve is accepted exactly when the stored square of its root times den is below 2^255. */
  lemma RootFitsIff(x: int, y: Fe, power: Fe)
    requires Arithmetic() && Solves(x, Val(y)) && IsRootPower(power, y)
    ensures Fits(RootOf(y, power), y) <==> SquareBelow255(y, power)
    ensures Fits(RootOf(y, power), y) ==> RootOf(y, power) == TrueRoot(y, power)
  {
    hide Val, Near, NumOf, DenOf, FeMul, Solves, Fits, Chk, RootOf, Arithmetic, CandidateOf, IsRootPower, SqrtM1, TrueRoot;
    var num, den := NumOf(y), DenOf(y);
    var c := CandidateOf(power, num, den);
    TrueRootNear(x, y, power);
    TrueRootCases(y, power);
    RootCases(y, power);
    FitsIff(c, y);
    FitsIff(TrueRoot(y, power), y);
    if Near((Val(c) * Val(c)) * Val(den), Val(num)) && Fits(FeMul(c, SqrtM1()), y) {
      FitsIff(FeMul(c, SqrtM1()), y);
      TurnFitsToo(c, y);
    }
  }

  /** If a root and its turn both fit then num is zero, and the first one is found. */
  lemma TurnFitsToo(c: Fe, y: Fe)
    requires Arithmetic() && Near((Val(c) * Val(c)) * Val(DenOf(y)), Val(NumOf(y)))
    requires var t := FeMul(c, SqrtM1()); Near((Val(t) * Val(t)) * Val(DenOf(y)), Val(NumOf(y)))
    ensures Fits(c, y)
  {
    hide Val, Near, NumOf, DenOf, FeMul, Fits, Chk, NoZeroDivisors, DIsNonSquare, Fermat, SqrtM1;
    var t, num, den := FeMul(c, SqrtM1()), Val(NumOf(y)), Val(DenOf(y));
    NearSqrtM1();
    TurnedSquare(Val(c), SQRT_M1, -num, den);
    TurnedNear(c, den, -num);
    OwnNegative((Val(t) * Val(t)) * den, num);
    StoredSquare(c, y);
    NearMod((Val(c) * Val(c)) * den, num);
    NearMod(num, 0);
    ChkBelow(c, DenOf(y));
    FitsIff(c, y);
  }

  lemma OwnNegative(w: int, n: int)
    requires NoZeroDivisors() && Near(w, n) && Near(w, -n)
    ensures Near(n, 0)
  {
    hide Zero, NoZeroDivisors;
    Combine2(2 * n, -1, w - n, 1, w - -n);
    ConstantsOfTheCurve();
    ProductZero(2, n);
  }

  lemma StoredSquare(x: Fe, y: Fe)
    ensures Val(Chk(x, DenOf(y))) % P == ((Val(x) * Val(x)) * Val(DenOf(y))) % P
  {
    hide Val, FeMul, Near, DenOf, Chk;
    NearSelf(x);
    NearSelf(DenOf(y));
    CheckNear(x, DenOf(y), Val(x), Val(DenOf(y)));
    NearMod(Val(Chk(x, DenOf(y))), (Val(x) * Val(x)) * Val(DenOf(y)));
  }

  /** For a point of the curve whose y^2 - 1 is outside the window, the root fits. */
  lemma RootFits(x: int, y: Fe, power: Fe)
    requires Arithmetic() && Solves(x, Val(y)) && IsRootPower(power, y) && !InWindow(Val(NumOf(y)))
    ensures Fits(RootOf(y, power), y)
  {
    hide Val, Near, NumOf, DenOf, FeMul, Solves, Fits, Chk, RootOf, Arithmetic, IsRootPower, TrueRoot;
    var root := TrueRoot(y, power);
    TrueRootNear(x, y, power);
    RootFitsIff(x, y, power);
    StoredSquare(root, y);
    NearMod((Val(root) * Val(root)) * Val(DenOf(y)), Val(NumOf(y)));
    ChkBelow(root, DenOf(y));
  }

  lemma RootCases(y: Fe, power: Fe)
    ensures var c := CandidateOf(power, NumOf(y), DenOf(y));
            RootOf(y, power) == if Fits(c, y) then c else FeMul(c, SqrtM1())
  {
    hide CandidateOf, NumOf, DenOf, FeMul, SqrtM1, IsEq;
  }

  lemma TurnedNear(c: Fe, d: int, n: int)
    requires Near(((Val(c) * SQRT_M1) * (Val(c) * SQRT_M1)) * d, n)
    ensures var t := FeMul(c, SqrtM1()); Near((Val(t) * Val(t)) * d, n)
  {
    hide Val, Near, FeMul, SqrtM1;
    var t, a := FeMul(c, SqrtM1()), Val(c) * SQRT_M1;
    NearSelf(c);
    NearSqrtM1();
    MulNear(c, SqrtM1(), Val(c), SQRT_M1);
    NearMul(Val(t), Val(t), a, a);
    NearMod(d, d);
    NearMul(Val(t) * Val(t), d, a * a, d);
    NearTrans((Val(t) * Val(t)) * d, (a * a) * d, n);
  }

  /** The candidate's square times den is num or its negative. */
  lemma CandidateSigns(x: int, y: Fe, c: int)
    requires Arithmetic() && Near(Val(NumOf(y)), (x * x) * Val(DenOf(y))) && Near(c, Eta(x, Val(DenOf(y))) * x)
    ensures Near((c * c) * Val(DenOf(y)), Val(NumOf(y))) || Near((c * c) * Val(DenOf(y)), -1 * Val(NumOf(y)))
  {
    hide Val, Near, Zero, NumOf, DenOf, Eta, NoZeroDivisors, DIsNonSquare, Fermat;
    var num, den := Val(NumOf(y)), Val(DenOf(y));
    var e := Eta(x, den);
    DenIsUnit(y);
    if Zero(x) {
      ZeroCandidate(c, e, x, num, den);
    } else {
      EtaSquare(x, den);
      if Near(e * e, 1) {
        CandidateSquared(c, e, x, num, den, 1);
      } else {
        CandidateSquared(c, e, x, num, den, -1);
      }
    }
  }

  lemma DenIsUnit(y: Fe)
    requires DIsNonSquare()
    ensures !Zero(Val(DenOf(y)))
  {
    hide Val, Near, Zero, DenOf, DIsNonSquare;
    DenNear(y);
    DenominatorIsUnit(Val(y));
    NearZero(Val(DenOf(y)), Den(Val(y)));
  }

  lemma ZeroCandidate(c: int, e: int, x: int, num: int, den: int)
    requires Zero(x) && Near(c, e * x) && Near(num, (x * x) * den)
    ensures Near((c * c) * den, num)
  {
    hide Zero, Near;
    ZeroMul(e, x);
    NearZero(c, e * x);
    ZeroMul(c * den, c);
    assert (c * den) * c == (c * c) * den;
    ZeroMul(x * den, x);
    assert (x * den) * x == (x * x) * den;
    NearZero(num, (x * x) * den);
    BothZero((c * c) * den, num);
  }

  lemma BothZero(a: int, b: int)
    requires Zero(a) && Zero(b)
    ensures Near(a, b)
  {
    hide Zero;
    Combine2(a - b, 1, a, -1, b);
  }

  /** A curve point whose encoding the unpacking code always turns into the negative point. */
  predicate Unpackable(a: Pt) {
    !InWindow(a.x) && !InWindow(-a.x) && !InWindow(Num(a.y))
  }

  /** The bytes of an encoding give y back, and the parity of x. */
  lemma DecodedParts(b: seq<byte>, x: int, y: int)
    requires |b| == 32 && Val(b) == Encoding(x, y)
    ensures Val(Unpack(b)) == y % P && (b[31] / 128 == 0 || b[31] / 128 == 1) && (b[31] / 128 == 0 <==> !OddResidue(x))
  {
    hide Val, Unpack;
    Pow256At31();
    ValOfBytes(Unpack(b));
  }

  /** The signed root is congruent to -x if the root is below 2^255, and else to x. */
  lemma SignedRootIs(a: CurvePoint, root: Fe, y: Fe, sign: int)
    requires Arithmetic() && Val(y) == a.y && Fits(root, y) && 0 <= Val(root) < TWO_255 + SLACK
    requires (sign == 0 || sign == 1) && (sign == 0 <==> !OddResidue(a.x))
    ensures Val(root) < TWO_255 ==> Near(Val(SignedRoot(root, sign)), -a.x)
    ensures Val(root) >= TWO_255 ==> Near(Val(SignedRoot(root, sign)), a.x) && a.x != 0
  {
    hide Val, Near, Zero, Solves, Fits, SignedRoot, NoZeroDivisors, DIsNonSquare, Fermat, OddResidue;
    var x := SignedRoot(root, sign);
    FittingRoot(a, root, y);
    SignedEither(root, sign, a.x);
    RootSize(root, a.x);
    if Val(root) < TWO_255 {
      FittingSolves(root, y);
      SolvesNegated(a.x, Val(x), a.y);
      NearMod(a.y, a.y);
      if !Zero(Val(root)) {
        SignIff(root, sign);
      } else {
        ZeroEither(Val(x), Val(root), a.x);
      }
      OtherRootIsNegative(a.x, a.y, Val(x), a.y);
    } else {
      SignIff(root, sign);
      ParityDecides(Val(x), a.x);
    }
  }

  lemma SignedEither(root: Fe, sign: int, x: int)
    requires Near(Val(root), x) || Near(Val(root), -x)
    ensures var r := Val(SignedRoot(root, sign)); Near(r, x) || Near(r, -x)
  {
    hide Val, Near, FeNeg, Parity;
    NearSelf(root);
    NegNear(root, Val(root));
    Opposite(Val(FeNeg(root)), Val(root), x);
  }

  lemma Opposite(v: int, r: int, x: int)
    requires Near(v, -r)
    ensures Near(r, x) ==> Near(v, -x)
    ensures Near(r, -x) ==> Near(v, x)
  {
    hide Zero;
    if Near(r, x) {
      Combine2(v - -x, 1, v - -r, -1, r - x);
    }
    if Near(r, -x) {
      Combine2(v - x, 1, v - -r, -1, r - -x);
    }
  }

  /** A root at 2^255 or above is not that of x = 0. */
  lemma RootSize(root: Fe, x: int)
    requires 0 <= Val(root) < TWO_255 + SLACK && (Near(Val(root), x) || Near(Val(root), -x))
    ensures Val(root) >= TWO_255 ==> !Zero(Val(root)) && !Zero(x) && x != 0
  {
    hide Val, Near, Zero;
    ZeroIff(Val(root));
    ZeroIff(0);
    ResidueOrMore(Val(root));
    if Zero(x) {
      ZeroEither(Val(root), x, x);
    }
  }

  lemma ZeroEither(v: int, r: int, x: int)
    requires Zero(r) && (Near(v, x) || Near(v, -x)) && (Near(r, x) || Near(r, -x) || r == x)
    ensures Zero(v)
  {
    hide Zero, Near;
    if Near(r, x) {
      NearZero(r, x);
    } else if Near(r, -x) {
      NearZero(r, -x);
      ZeroMul(-1, -x);
    }
    ZeroMul(-1, x);
    if Near(v, x) {
      NearZero(v, x);
    } else {
      NearZero(v, -x);
    }
  }

  /** Residues x and -x other than 0 differ in parity. */
  lemma ParityDecides(v: int, x: int)
    requires !Zero(x) && (Near(v, x) || Near(v, -x)) && (OddResidue(v) <==> OddResidue(x))
    ensures Near(v, x)
  {
    hide Near, Zero;
    ZeroIff(x);
    NearMod(v, -x);
    NegativeResidue(x);
  }

  lemma SolvesNegated(x: int, x': int, y: int)
    requires Solves(x, y) && (Near(x', x) || Near(x', -x))
    ensures Solves(x', y)
  {
    hide Zero, Near, Affine;
    SameX(x, -x, y);
    if Near(x', x) {
      AffineNear(x', x, y);
      NearZero(Affine(x', y), Affine(x, y));
    } else {
      AffineNear(x', -x, y);
      NearZero(Affine(x', y), Affine(-x, y));
    }
  }

  ghost predicate Gives(q: Option<P3>, a: CurvePoint) {
    q.Some? && Represents(CurveModel(), q.value, a)
  }

  /** Rejected, or the negative point, or the point itself. */
  ghost predicate Decided(a: CurvePoint, q: Option<P3>, square: bool, root: bool) {
    && (q.Some? <==> square)
    && (Gives(q, Minus(a)) <==> square && root)
    && (Gives(q, a) <==> square && (root ==> a.x == 0))
  }

  /**
   What unpacking makes of the encoding of a point, for the limbs that the square-root power came
   out with: it is rejected exactly when the stored square of the root times den is 2^255 or more,
   and otherwise gives the negative point exactly when the root is below 2^255, and else the point.
   */
  lemma UnpackedIff(a: CurvePoint, power: Fe)
    requires CurveFacts() && IsRootPower(power, Unpack(Enc(a)))
    ensures Decided(a, UnpackedNeg(Enc(a), power), SquareBelow255(Unpack(Enc(a)), power), RootBelow255(Unpack(Enc(a)), power))
  {
    hide Val, Near, Enc, Unpack, IsRootPower, Solves, Fits, RootOf, SignedRoot, Arithmetic, Associative, OddResidue, Encoding, PointOf,
         Represents, OnCurve, Minus, TrueRoot, Chk, DenOf;
    var b := Enc(a);
    DecodedParts(b, a.x, a.y);
    var y, sign := Unpack(b), b[31] / 128;
    EncodedRoot(a, y, power);
    var root := TrueRoot(y, power);
    if Fits(root, y) {
      SignedRootIs(a, root, y, sign);
      UnpackedOnCurve(b, power);
      var x := SignedRoot(root, sign);
      NotBoth(a, PointOf(x, y));
      if Val(root) < TWO_255 {
        NamesNegative(a, x, y);
      } else {
        NamesItself(a, x, y);
      }
    }
  }

  lemma EncodedRoot(a: CurvePoint, y: Fe, power: Fe)
    requires CurveFacts() && IsRootPower(power, y) && Val(y) == a.y % P
    ensures Val(y) == a.y && 0 <= Val(TrueRoot(y, power)) < TWO_255 + SLACK
    ensures Fits(RootOf(y, power), y) <==> SquareBelow255(y, power)
    ensures Fits(RootOf(y, power), y) ==> RootOf(y, power) == TrueRoot(y, power)
    ensures Fits(TrueRoot(y, power), y) ==> Fits(RootOf(y, power), y)
  {
    hide Val, Near, IsRootPower, Solves, Fits, RootOf, Arithmetic, Associative, TrueRoot, Chk, DenOf;
    NumWindow(y, a.y);
    RootFitsIff(a.x, y, power);
    TrueRootCases(y, power);
    FitsIff(TrueRoot(y, power), y);
  }

  /** Coordinates that name a point and its negative name one with x = 0. */
  lemma NotBoth(a: CurvePoint, p: P3)
    ensures Represents(CurveModel(), p, a) && Represents(CurveModel(), p, Minus(a)) ==> a.x == 0
    ensures a.x == 0 ==> Minus(a) == a
  {
    hide OnCurve, Zero, Val, Mod, Solves;
    ModIs(-a.x);
    if a.x != 0 {
      NegativeIsOther(a.x);
    }
  }

  lemma NegativeIsOther(x: int)
    requires 0 < x < P
    ensures -x % P != x
  {
    DivModUnique(-x, -1, P - x);
  }

  /**
   Unpacking the encoding of a point gives its negative, whatever limbs the square-root power comes
   out with, if the point's x, -x and y^2 - 1 are outside the window.
   */
  lemma UnpacksToNegative(a: CurvePoint, power: Fe)
    requires CurveFacts() && IsRootPower(power, Unpack(Enc(a))) && Unpackable(a)
    ensures Gives(UnpackedNeg(Enc(a), power), Minus(a))
  {
    hide Val, Enc, Unpack, IsRootPower, CurveFacts, OddResidue, Encoding, Represents, Minus, Unpackable, UnpackedNeg, RootBelow255, SquareBelow255;
    DecodedParts(Enc(a), a.x, a.y);
    UnpackedIff(a, power);
    UnpackableRoot(a, Unpack(Enc(a)), power);
  }

  lemma UnpackableRoot(a: CurvePoint, y: Fe, power: Fe)
    requires CurveFacts() && IsRootPower(power, y) && Unpackable(a) && Val(y) == a.y % P
    ensures SquareBelow255(y, power) && RootBelow255(y, power)
  {
    hide Val, Near, IsRootPower, Solves, Fits, RootOf, Arithmetic, Associative, InWindow, Num, NumOf, TrueRoot, Chk, DenOf;
    NumWindow(y, a.y);
    EncodedRoot(a, y, power);
    RootFits(a.x, y, power);
    FittingRoot(a, TrueRoot(y, power), y);
    RootBelow(Val(TrueRoot(y, power)), a.x);
  }

  lemma RootBelow(r: int, x: int)
    requires (Near(r, x) || Near(r, -x)) && 0 <= r < TWO_255 + SLACK && !InWindow(x) && !InWindow(-x)
    ensures r < TWO_255
  {
    hide Near;
    NearMod(r, x);
    NearMod(r, -x);
    ResidueOrMore(r);
  }

  lemma FittingRoot(a: CurvePoint, root: Fe, y: Fe)
    requires Arithmetic() && Fits(root, y) && Val(y) == a.y
    ensures Near(Val(root), a.x) || Near(Val(root), -a.x)
  {
    hide Val, Near, Zero, Solves, Fits, NoZeroDivisors, DIsNonSquare, Fermat, Affine;
    FittingSolves(root, y);
    SolvesIsZero(a.x, a.y);
    SolvesIsZero(Val(root), a.y);
    TwoRoots(a.x, Val(root), a.y);
    RootEither(Val(root), a.x);
  }

  lemma SolvesIsZero(x: int, y: int)
    ensures Solves(x, y) <==> Zero(Affine(x, y))
  {
    hide Zero, Affine;
  }

  lemma RootEither(r: int, x: int)
    requires Zero(r - x) || Zero(r + x)
    ensures Near(r, x) || Near(r, -x)
  {
    hide Zero;
    assert r - -x == r + x;
  }

  lemma NumWindow(y: Fe, v: int)
    requires Val(y) == v % P && 0 <= v < P
    ensures Val(y) == v && (InWindow(Val(NumOf(y))) <==> InWindow(Num(v)))
  {
    hide Val, Near, NumOf, Num;
    NumNear(y);
    NearMod(Val(NumOf(y)), Num(v));
  }

  lemma NamesNegative(a: CurvePoint, x: Fe, y: Fe)
    requires CurveFacts() && Near(Val(x), -a.x) && Val(y) == a.y
    ensures OnCurve(ExtOf(PointOf(x, y))) ==> Represents(CurveModel(), PointOf(x, y), Minus(a))
  {
    hide Val, Near, Zero, NoZeroDivisors, DIsNonSquare, Fermat, Associative, OnCurve, FeMul, OneLimb, Rep, Minus;
    OneLimbVal(1);
    ZeroIff(1);
    RepNegative(a, Val(x), Val(y));
  }

  lemma NamesItself(a: CurvePoint, x: Fe, y: Fe)
    requires CurveFacts() && Near(Val(x), a.x) && Val(y) == a.y
    ensures OnCurve(ExtOf(PointOf(x, y))) ==> Represents(CurveModel(), PointOf(x, y), a)
  {
    hide Val, Near, Zero, NoZeroDivisors, DIsNonSquare, Fermat, Associative, OnCurve, FeMul, OneLimb, Rep;
    OneLimbVal(1);
    ZeroIff(1);
    RepItself(a, Val(x), Val(y));
  }

  lemma RepNegative(a: CurvePoint, x: int, y: int)
    requires Fermat() && Near(x, -a.x) && y == a.y
    ensures Rep(x, y, 1) == Minus(a)
  {
    hide Near, Zero, Fermat, Quotient, Solves, Mod;
    ModIs(-a.x);
    NearMod(x, -a.x);
    RepOne(x, y);
  }

  lemma RepItself(a: CurvePoint, x: int, y: int)
    requires Fermat() && Near(x, a.x) && y == a.y
    ensures Rep(x, y, 1) == a
  {
    hide Near, Zero, Fermat, Quotient, Solves;
    NearMod(x, a.x);
    RepOne(x, y);
  }
}

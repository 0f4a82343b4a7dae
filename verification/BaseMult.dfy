/** Multiplication of the fixed base point with signed octal digits and a table of its multiples. */
module BaseMult {
  import opened Words
  import opened Field
  import opened Residues
  import opened Edwards
  import opened MulBound
  import opened PointSpec
  import opened PointGroup
  import opened Ge25519
  import Sc25519

  /** A signed char. */
  type schar = x: int | -128 <= x < 128

  // ----- signed multiples

  function Signed<G>(m: Model<G>, n: int, a: G): G {
    if n >= 0 then Times(m, n, a) else m.minus(Times(m, -n, a))
  }

  lemma InverseUnique<G(!new)>(m: Model<G>, a: G, b: G)
    requires AbelianGroup(m) && m.plus(a, b) == m.zero
    ensures b == m.minus(a)
  {
    hide AbelianGroup;
    Units(m, b);
    Units(m, a);
    Units(m, m.minus(a));
    Commutes(m, m.minus(a), a);
    Associates(m, m.minus(a), a, b);
  }

  lemma Cancel<G(!new)>(m: Model<G>, a: G, b: G)
    requires AbelianGroup(m)
    ensures m.plus(m.plus(a, b), m.minus(b)) == a
  {
    hide AbelianGroup;
    Associates(m, a, b, m.minus(b));
    Units(m, b);
    Units(m, a);
  }

  lemma MinusOfSum<G(!new)>(m: Model<G>, a: G, b: G)
    requires AbelianGroup(m)
    ensures m.minus(m.plus(a, b)) == m.plus(m.minus(a), m.minus(b))
  {
    hide AbelianGroup;
    Interchange(m, a, b, m.minus(a), m.minus(b));
    Units(m, a);
    Units(m, b);
    Units(m, m.zero);
    InverseUnique(m, m.plus(a, b), m.plus(m.minus(a), m.minus(b)));
  }

  lemma CancelLeft<G(!new)>(m: Model<G>, a: G, b: G)
    requires AbelianGroup(m)
    ensures m.plus(b, m.minus(m.plus(a, b))) == m.minus(a)
  {
    hide AbelianGroup;
    MinusOfSum(m, a, b);
    var y := m.minus(a);
    Commutes(m, b, m.plus(y, m.minus(b)));
    Associates(m, y, m.minus(b), b);
    Commutes(m, m.minus(b), b);
    Units(m, b);
    Units(m, y);
  }

  lemma SignedOf<G>(m: Model<G>, n: int, k: nat, a: G)
    requires n == k || -n == k
    ensures Signed(m, n, a) == if n == k then Times(m, k, a) else m.minus(Times(m, k, a))
  {
  }

  lemma TimesLess<G(!new)>(m: Model<G>, d: nat, k: nat, a: G)
    requires AbelianGroup(m)
    ensures m.plus(Times(m, d + k, a), m.minus(Times(m, k, a))) == Times(m, d, a)
  {
    hide AbelianGroup, Times;
    TimesAdd(m, d, k, a);
    Cancel(m, Times(m, d, a), Times(m, k, a));
  }

  lemma TimesMore<G(!new)>(m: Model<G>, d: nat, i: nat, a: G)
    requires AbelianGroup(m)
    ensures m.plus(Times(m, i, a), m.minus(Times(m, d + i, a))) == m.minus(Times(m, d, a))
  {
    hide AbelianGroup, Times;
    TimesAdd(m, d, i, a);
    CancelLeft(m, Times(m, d, a), Times(m, i, a));
  }

  /** i a - k a, for either order of i and k. */
  lemma TimesMinus<G(!new)>(m: Model<G>, i: nat, k: nat, a: G)
    requires AbelianGroup(m)
    ensures m.plus(Times(m, i, a), m.minus(Times(m, k, a))) == Signed(m, i - k, a)
  {
    hide *;
    if i >= k {
      TimesLess(m, i - k, k, a);
      SignedOf(m, i - k, i - k, a);
    } else {
      TimesMore(m, k - i, i, a);
      SignedOf(m, i - k, k - i, a);
    }
  }

  lemma SignedAdd<G(!new)>(m: Model<G>, i: int, j: int, a: G)
    requires AbelianGroup(m)
    ensures m.plus(Signed(m, i, a), Signed(m, j, a)) == Signed(m, i + j, a)
  {
    hide AbelianGroup, Times;
    if i >= 0 && j >= 0 {
      TimesAdd(m, i, j, a);
    } else if i >= 0 {
      TimesMinus(m, i, -j, a);
    } else if j >= 0 {
      TimesMinus(m, j, -i, a);
      Commutes(m, Signed(m, i, a), Signed(m, j, a));
    } else {
      TimesAdd(m, -i, -j, a);
      MinusOfSum(m, Times(m, -i, a), Times(m, -j, a));
    }
  }

  // ----- affine points and the mixed addition

  datatype Aff = Aff(x: Fe, y: Fe)

  function AffExt(q: Aff): Ext {
    Ext(Val(q.x), Val(q.y), 1, Val(q.x) * Val(q.y))
  }

  ghost predicate AffRepresents<G>(m: Model<G>, q: Aff, g: G) {
    OnCurve(AffExt(q)) && m.rep(Val(q.x), Val(q.y), 1) == g
  }

  function MixAdd(r: P3, q: Aff): P1P1 {
    var a := FeMul(FeSub(r.y, r.x), FeSub(q.y, q.x));
    var b := FeMul(FeAdd(r.y, r.x), FeAdd(q.y, q.x));
    var c := FeMul(FeMul(r.t, FeMul(q.x, q.y)), Ec2d());
    var d := FeAdd(r.z, r.z);
    P1P1(FeSub(b, a), FeAdd(d, c), FeAdd(b, a), FeSub(d, c))
  }

  lemma MixAddNear(r: P3, q: Aff)
    ensures Completes(MixAdd(r, q), Sum(ExtOf(r), AffExt(q)))
  {
    hide Val, FeMul, FeAdd, FeSub, Ec2d, Near, Minuses, Pluses, Twist, Heights, Sum;
    var u, v := ExtOf(r), AffExt(q);
    MixProducts(r, q);
    NearSelf(r.t);
    NearSelf(q.x);
    NearSelf(q.y);
    MulNear(q.x, q.y, Val(q.x), Val(q.y));
    TwistNear(r.t, FeMul(q.x, q.y), u, v);
    NearSelf(r.z);
    AddNear(r.z, r.z, Val(r.z), Val(r.z));
    HeightOne(u, v);
    CompletedFrom(FeMul(FeSub(r.y, r.x), FeSub(q.y, q.x)), FeMul(FeAdd(r.y, r.x), FeAdd(q.y, q.x)),
                  FeMul(FeMul(r.t, FeMul(q.x, q.y)), Ec2d()), FeAdd(r.z, r.z), u, v);
  }

  lemma HeightOne(u: Ext, v: Ext)
    requires v.z == 1
    ensures Heights(u, v) == u.z
  {
  }

  lemma MixProducts(r: P3, q: Aff)
    ensures Near(Val(FeMul(FeSub(r.y, r.x), FeSub(q.y, q.x))), Minuses(ExtOf(r), AffExt(q)))
    ensures Near(Val(FeMul(FeAdd(r.y, r.x), FeAdd(q.y, q.x))), Pluses(ExtOf(r), AffExt(q)))
  {
    hide Val, FeMul, FeAdd, FeSub, Near;
    var u, v := ExtOf(r), AffExt(q);
    NearSelf(r.x);
    NearSelf(r.y);
    NearSelf(q.x);
    NearSelf(q.y);
    SubNear(r.y, r.x, u.y, u.x);
    SubNear(q.y, q.x, v.y, v.x);
    MulNear(FeSub(r.y, r.x), FeSub(q.y, q.x), u.y - u.x, v.y - v.x);
    AddNear(r.y, r.x, u.y, u.x);
    AddNear(q.y, q.x, v.y, v.x);
    MulNear(FeAdd(r.y, r.x), FeAdd(q.y, q.x), u.y + u.x, v.y + v.x);
    PlusesSwapped(u, v);
  }

  lemma PlusesSwapped(u: Ext, v: Ext)
    ensures (u.y + u.x) * (v.y + v.x) == Pluses(u, v)
  {
  }

  lemma MixAddRepresents<G(!new)>(m: Model<G>, r: P3, q: Aff, g: G, h: G)
    requires IsModel(m) && Represents(m, r, g) && AffRepresents(m, q, h)
    ensures Represents(m, ToP3(MixAdd(r, q)), m.plus(g, h))
  {
    ConstantsOfTheCurve();
    hide Zero, Val, OnCurve, ToP3, MixAdd, Sum, AbelianGroup, Homomorphic;
    MixAddNear(r, q);
    SumRepresents(m, MixAdd(r, q), ExtOf(r), AffExt(q), g, h);
  }

  /** The extended form choose_t's caller completes: Z = 1 and T = x y. */
  function Lift(q: Aff): P3 {
    P3(q.x, q.y, OneLimb(1), FeMul(q.x, q.y))
  }

  lemma LiftRepresents<G(!new)>(m: Model<G>, q: Aff, g: G)
    requires AffRepresents(m, q, g)
    ensures Represents(m, Lift(q), g)
  {
    ConstantsOfTheCurve();
    OneLimbVal(1);
    hide Zero, Val, OnCurve, FeMul, Near;
    NearSelf(q.x);
    NearSelf(q.y);
    NearSelf(OneLimb(1));
    MulNear(q.x, q.y, Val(q.x), Val(q.y));
    OnCurveNear(ExtOf(Lift(q)), AffExt(q));
  }

  lemma NegateRepresents<G(!new)>(m: Model<G>, q: Aff, g: G)
    requires IsModel(m) && AffRepresents(m, q, g)
    ensures AffRepresents(m, Aff(FeNeg(q.x), q.y), m.minus(g))
  {
    hide Val, FeNeg, IsSum, OnCurve, AbelianGroup, Homomorphic;
    var u, v, n := AffExt(q), AffExt(Aff(FeNeg(q.x), q.y)), Ext(0, 1, 1, 0);
    NegatedOnCurve(q);
    OppositePoints(u, v);
    NeutralIsIdempotent();
    ConstantsOfTheCurve();
    ProperOnCurve(u);
    ProperOnCurve(v);
    SumInModel(m, u, v, n);
    SumInModel(m, n, n, n);
    Idempotent(m, m.rep(0, 1, 1));
    InverseUnique(m, g, m.rep(v.x, v.y, v.z));
  }

  lemma NegatedOnCurve(q: Aff)
    requires OnCurve(AffExt(q))
    ensures var v := AffExt(Aff(FeNeg(q.x), q.y)); OnCurve(v) && Near(v.x, -Val(q.x))
  {
    hide Zero, Val, FeNeg;
    SegreIs(Ext(-Val(q.x), Val(q.y), 1, -Val(q.x) * Val(q.y)));
    SegreIs(AffExt(q));
    CurveIs(Ext(-Val(q.x), Val(q.y), 1, -Val(q.x) * Val(q.y)), D);
    CurveIs(AffExt(q), D);
    var x, y, v := Val(q.x), Val(q.y), AffExt(Aff(FeNeg(q.x), q.y));
    NearSelf(q.x);
    NegNear(q.x, x);
    var w := Ext(-x, y, 1, -x * y);
    assert Segre(w) == -Segre(AffExt(q)) && Curve(w, D) == Curve(AffExt(q), D);
    ZeroMul(-1, Segre(AffExt(q)));
    ProductDifference(v.x, y, -x, y);
    Combine2(v.x * y - -x * y, y, v.x - -x, -x, y - y) by {
      ZeroMul(0, v.x - -x);
    }
    assert Zero(0) by { ZeroMul(0, v.x - -x); }
    OnCurveNear(v, w);
  }

  lemma OppositePoints(u: Ext, v: Ext)
    requires OnCurve(u) && OnCurve(v) && u.z == v.z == 1 && u.y == v.y && Near(v.x, -u.x)
    ensures IsSum(u, v, Ext(0, 1, 1, 0))
  {
    hide Zero, OnCurve, ProjCurve, SumX, SumY;
    OnCurveProjects(u);
    var x, y, s := u.x, u.y, v.x + u.x;
    assert Zero(s) by { SameSum(v.x, u.x); }
    OppositeX(u, v, D);
    ZeroMul(-y, s);
    OppositeY(u, v, D);
    Combine2(SumY(u, v, Ext(0, 1, 1, 0), D), -1, ProjCurve(x, y, 1, D), -(x + D * ((x * y) * y)), s);
  }

  lemma SameSum(a: int, b: int)
    requires Near(a, -b)
    ensures Zero(a + b)
  {
    assert a - -b == a + b;
  }

  lemma OppositeX(u: Ext, v: Ext, d: int)
    requires u.z == v.z == 1 && u.y == v.y
    ensures SumX(u, v, Ext(0, 1, 1, 0), d) == -u.y * (v.x + u.x)
  {
    SumXIs(u, v, Ext(0, 1, 1, 0), d);
    var n, k := (1 * 1) * (1 * 1), d * ((u.x * u.y) * (v.x * v.y));
    assert 0 * (n + k) == 0;
    assert u.x * u.y + u.y * v.x == u.y * (v.x + u.x);
  }

  lemma OppositeY(u: Ext, v: Ext, d: int)
    requires u.z == v.z == 1 && u.y == v.y
    ensures SumY(u, v, Ext(0, 1, 1, 0), d)
         == -1 * ProjCurve(u.x, u.y, 1, d) + -(u.x + d * ((u.x * u.y) * u.y)) * (v.x + u.x)
  {
    SumYIs(u, v, Ext(0, 1, 1, 0), d);
    ProjIs(u.x, u.y, 1, d);
    OppositeIdentity(u.x, u.y, v.x, d);
    var n, k := (1 * 1) * (1 * 1), d * ((u.x * u.y) * (v.x * v.y));
    assert 1 * (n - k) == 1 - k;
  }

  lemma OppositeIdentity(x: int, y: int, w: int, d: int)
    ensures 1 - d * ((x * y) * (w * y)) - (y * y + x * w)
         == -(y * y - x * x - (1 + d * ((x * x) * (y * y)))) - (x + d * ((x * y) * y)) * (w + x)
  {
    var p := (x * y) * y;
    var q, r := d * (p * w), d * (p * x);
    assert (x * y) * (w * y) == p * w;
    assert (x * x) * (y * y) == p * x;
    assert (x + d * p) * (w + x) == x * w + x * x + q + r by {
      assert (d * p) * (w + x) == q + r;
    }
  }

  // ----- signed octal digits

  function Pow8(n: nat): nat {
    if n == 0 then 1 else 8 * Pow8(n - 1)
  }

  function Oct(r: seq<int>): int {
    if |r| == 0 then 0 else r[0] + 8 * Oct(r[1..])
  }

  lemma {:induction false} OctUpdate(r: seq<int>, i: nat, x: int)
    requires i < |r|
    ensures Oct(r[i := x]) == Oct(r) + (x - r[i]) * Pow8(i)
  {
    if i == 0 {
      assert r[0 := x][1..] == r[1..];
    } else {
      assert r[i := x][1..] == r[1..][i - 1 := x];
      OctUpdate(r[1..], i - 1, x);
      assert 8 * ((x - r[i]) * Pow8(i - 1)) == (x - r[i]) * Pow8(i);
    }
  }

  lemma OctHead(r: seq<int>, i: nat)
    requires i < |r|
    ensures Oct(r[i..]) == r[i] + 8 * Oct(r[i + 1..])
  {
    assert r[i..][1..] == r[i + 1..];
  }

  /** The three bytes that start at byte 3 i, as their eight octal digits. */
  predicate GroupDigits(r: seq<int>, s: seq<byte>, i: nat)
    requires |r| == 85 && |s| == 32 && i < 10
  {
    var a, b, c := s[3 * i], s[3 * i + 1], s[3 * i + 2];
    && r[8 * i] == a % 8 && r[8 * i + 1] == a / 8 % 8 && r[8 * i + 2] == a / 64 + 4 * (b % 2)
    && r[8 * i + 3] == b / 2 % 8 && r[8 * i + 4] == b / 16 % 8 && r[8 * i + 5] == b / 128 + 2 * (c % 4)
    && r[8 * i + 6] == c / 4 % 8 && r[8 * i + 7] == c / 32
  }

  predicate LastDigits(r: seq<int>, s: seq<byte>)
    requires |r| == 85 && |s| == 32
  {
    var a, b := s[30], s[31];
    && r[80] == a % 8 && r[81] == a / 8 % 8 && r[82] == a / 64 + 4 * (b % 2) && r[83] == b / 2 % 8 && r[84] == b / 16 % 8
  }

  /** Three bytes from the eight digits that overlap them. */
  lemma ThreeBytes(a: int, b: int, c: int, d: seq<int>, rest: int)
    requires |d| == 8
    requires d[0] == a % 8 && d[1] == a / 8 % 8 && d[2] == a / 64 + 4 * (b % 2) && d[3] == b / 2 % 8
    requires d[4] == b / 16 % 8 && d[5] == b / 128 + 2 * (c % 4) && d[6] == c / 4 % 8 && d[7] == c / 32
    ensures d[0] + 8 * d[1] + 64 * d[2] + 0x200 * d[3] + 0x1000 * d[4] + 0x8000 * d[5] + 0x4_0000 * d[6] + 0x20_0000 * d[7]
         == a + 256 * b + 0x1_0000 * c
  {
    LowBits(a);
    MiddleBits(b);
    HighBits(c);
  }

  lemma LowBits(a: int)
    ensures a == a % 8 + 8 * (a / 8 % 8) + 64 * (a / 64)
  {
  }

  lemma MiddleBits(b: int)
    ensures b == b % 2 + 2 * (b / 2 % 8) + 16 * (b / 16 % 8) + 128 * (b / 128)
  {
    DivideTwice(b);
    var h, q := b / 2, b / 16;
    assert h == h % 8 + 8 * q && q == q % 8 + 8 * (b / 128);
  }

  lemma DivideTwice(b: int)
    ensures b / 2 / 8 == b / 16 && b / 16 / 8 == b / 128
  {
  }

  lemma HighBits(c: int)
    ensures c == c % 4 + 4 * (c / 4 % 8) + 32 * (c / 32)
  {
  }

  lemma {:induction false} GroupsAreVal(r: seq<int>, s: seq<byte>, i: nat)
    requires |r| == 85 && |s| == 32 && i <= 10 && s[31] < 128 && LastDigits(r, s)
    requires forall k :: i <= k < 10 ==> GroupDigits(r, s, k)
    ensures Oct(r[8 * i..]) == Val(s[3 * i..])
    decreases 10 - i
  {
    hide Oct, Val;
    if i == 10 {
      LastGroup(r, s);
    } else {
      GroupsAreVal(r, s, i + 1);
      OneGroup(r, s, i);
    }
  }

  lemma OneGroup(r: seq<int>, s: seq<byte>, i: nat)
    requires |r| == 85 && |s| == 32 && i < 10 && GroupDigits(r, s, i)
    requires Oct(r[8 * (i + 1)..]) == Val(s[3 * (i + 1)..])
    ensures Oct(r[8 * i..]) == Val(s[3 * i..])
  {
    hide Oct, Val;
    var j, k := 8 * i, 3 * i;
    OctEight(r, j);
    HeadVal(s, k);
    HeadVal(s, k + 1);
    HeadVal(s, k + 2);
    ThreeBytes(s[k], s[k + 1], s[k + 2], r[j..j + 8], Oct(r[j + 8..]));
  }

  lemma OctEight(r: seq<int>, j: nat)
    requires j + 8 <= |r|
    ensures Oct(r[j..]) == r[j] + 8 * r[j + 1] + 64 * r[j + 2] + 0x200 * r[j + 3] + 0x1000 * r[j + 4] + 0x8000 * r[j + 5]
                           + 0x4_0000 * r[j + 6] + 0x20_0000 * r[j + 7] + 0x100_0000 * Oct(r[j + 8..])
  {
    hide Oct;
    OctHead(r, j);
    OctHead(r, j + 1);
    OctHead(r, j + 2);
    OctHead(r, j + 3);
    OctHead(r, j + 4);
    OctHead(r, j + 5);
    OctHead(r, j + 6);
    OctHead(r, j + 7);
  }

  lemma LastGroup(r: seq<int>, s: seq<byte>)
    requires |r| == 85 && |s| == 32 && s[31] < 128 && LastDigits(r, s)
    ensures Oct(r[80..]) == Val(s[30..])
  {
    hide Oct, Val, LastDigits;
    OctFive(r);
    HeadVal(s, 30);
    HeadVal(s, 31);
    EmptyVal(s[32..]);
    LastBytes(r, s);
  }

  lemma OctFive(r: seq<int>)
    requires |r| == 85
    ensures Oct(r[80..]) == r[80] + 8 * r[81] + 64 * r[82] + 0x200 * r[83] + 0x1000 * r[84]
  {
    hide Oct;
    OctHead(r, 80);
    OctHead(r, 81);
    OctHead(r, 82);
    OctHead(r, 83);
    OctHead(r, 84);
    OctEmpty(r[85..]);
  }

  lemma LastBytes(r: seq<int>, s: seq<byte>)
    requires |r| == 85 && |s| == 32 && s[31] < 128 && LastDigits(r, s)
    ensures r[80] + 8 * r[81] + 64 * r[82] + 0x200 * r[83] + 0x1000 * r[84] == (s[30] as int) + 256 * (s[31] as int)
  {
    LowBits(s[30]);
    MiddleBits(s[31]);
  }

  lemma OctEmpty(r: seq<int>)
    requires |r| == 0
    ensures Oct(r) == 0
  {
  }

  /** XOR of a two-bit and a shifted one-bit digit, and of a one-bit and a shifted two-bit digit. */
  lemma XorOctal(v: nat, w: nat)
    requires (v < 4 && w < 2) || (v < 2 && w < 4)
    ensures v < 4 && w < 2 ==> Xor(v, 4 * w) == v + 4 * w
    ensures v < 2 && w < 4 ==> Xor(v, 2 * w) == v + 2 * w
  {
    hide Xor;
    if v < 4 && w < 2 {
      XorDisjoint(v, w);
    }
    if v < 2 && w < 4 {
      XorStep(v, 2 * w);
      XorSymmetric(0, w);
      XorZero(w);
      OneBit(v, w);
    }
  }

  lemma OneBit(v: nat, w: nat)
    requires v < 2
    ensures v / 2 == 0 && 2 * w / 2 == w && (v + 2 * w) % 2 == v
  {
  }

  method WriteGroup(r: array<schar>, s: seq<byte>, i: nat)
    requires r.Length == 85 && |s| == 32 && i < 10
    modifies r
    ensures GroupDigits(r[..], s, i)
    ensures forall k :: 0 <= k < 85 && !(8 * i <= k < 8 * i + 8) ==> r[k] == old(r[k])
    ensures forall k :: 8 * i <= k < 8 * i + 8 ==> 0 <= r[k] <= 7
  {
    hide Xor, GroupDigits;
    var a: byte, b: byte, c: byte := s[3 * i], s[3 * i + 1], s[3 * i + 2];
    MixedDigits(a, b, c);
    SmallDigits(a, b, c);
    r[8 * i] := a % 8;
    r[8 * i + 1] := a / 8 % 8;
    r[8 * i + 2] := Xor(a / 64 % 8, 4 * b % 8);
    r[8 * i + 3] := b / 2 % 8;
    r[8 * i + 4] := b / 16 % 8;
    r[8 * i + 5] := Xor(b / 128 % 8, 2 * c % 8);
    r[8 * i + 6] := c / 4 % 8;
    r[8 * i + 7] := c / 32 % 8;
    IsGroup(r[..], s, i, a, b, c);
  }

  lemma SmallDigits(a: byte, b: byte, c: byte)
    ensures 0 <= a % 8 <= 7 && 0 <= a / 8 % 8 <= 7 && 0 <= b / 2 % 8 <= 7 && 0 <= b / 16 % 8 <= 7 && 0 <= c / 4 % 8 <= 7
    ensures 0 <= c / 32 % 8 == c / 32 <= 7
  {
  }

  lemma IsGroup(r: seq<int>, s: seq<byte>, i: nat, a: nat, b: nat, c: nat)
    requires |r| == 85 && |s| == 32 && i < 10 && a == s[3 * i] && b == s[3 * i + 1] && c == s[3 * i + 2]
    requires && r[8 * i] == a % 8 && r[8 * i + 1] == a / 8 % 8 && r[8 * i + 2] == Xor(a / 64 % 8, 4 * b % 8)
             && r[8 * i + 3] == b / 2 % 8 && r[8 * i + 4] == b / 16 % 8 && r[8 * i + 5] == Xor(b / 128 % 8, 2 * c % 8)
             && r[8 * i + 6] == c / 4 % 8 && r[8 * i + 7] == c / 32 % 8
    ensures GroupDigits(r, s, i)
  {
    hide Xor;
    MixedDigits(a, b, c);
    SmallDigits(a, b, c);
  }

  /** The two digits that straddle bytes, and the range of all. */
  lemma MixedDigits(a: byte, b: byte, c: byte)
    ensures Xor(a / 64 % 8, 4 * b % 8) == a / 64 + 4 * (b % 2) <= 7
    ensures Xor(b / 128 % 8, 2 * c % 8) == b / 128 + 2 * (c % 4) <= 7
  {
    hide Xor;
    HighBitsSmall(a, b);
    XorOctal(a / 64, b % 2);
    XorOctal(b / 128, c % 4);
    EvenParts(b, c);
  }

  lemma HighBitsSmall(a: byte, b: byte)
    ensures a / 64 < 4 && a / 64 % 8 == a / 64 && b / 128 < 2 && b / 128 % 8 == b / 128
  {
  }

  lemma EvenParts(b: byte, c: byte)
    ensures 4 * b % 8 == 4 * (b % 2) && 2 * c % 8 == 2 * (c % 4)
  {
  }

  lemma GroupsUntouched(r: seq<int>, r': seq<int>, s: seq<byte>, n: nat)
    requires |r| == |r'| == 85 && |s| == 32 && n <= 10 && r[..8 * n] == r'[..8 * n]
    requires forall k :: 0 <= k < n ==> GroupDigits(r, s, k)
    ensures forall k :: 0 <= k < n ==> GroupDigits(r', s, k)
  {
    forall k | 0 <= k < n
      ensures GroupDigits(r', s, k)
    {
      assert GroupDigits(r, s, k);
      assert forall j :: 8 * k <= j < 8 * k + 8 ==> r'[..8 * n][j] == r[..8 * n][j];
    }
  }

  /** The plain octal digits sc25519_window3 starts from. */
  method OctalDigits(s: seq<byte>) returns (r: array<schar>)
    requires |s| == 32
    ensures fresh(r) && r.Length == 85 && LastDigits(r[..], s)
    ensures forall k :: 0 <= k < 10 ==> GroupDigits(r[..], s, k)
    ensures forall k :: 0 <= k < 85 ==> 0 <= r[k] <= 7
  {
    r := new schar[85](_ => 0);
    for i := 0 to 10
      invariant forall k :: 0 <= k < i ==> GroupDigits(r[..], s, k)
      invariant forall k :: 0 <= k < 85 ==> 0 <= r[k] <= 7
    {
      ghost var before := r[..];
      WriteGroup(r, s, i);
      GroupsUntouched(before, r[..], s, i);
    }
    ghost var before := r[..];
    WriteLast(r, s);
    GroupsUntouched(before, r[..], s, 10);
  }

  method WriteLast(r: array<schar>, s: seq<byte>)
    requires r.Length == 85 && |s| == 32
    modifies r
    ensures LastDigits(r[..], s)
    ensures forall k :: 0 <= k < 80 ==> r[k] == old(r[k])
    ensures forall k :: 80 <= k < 85 ==> 0 <= r[k] <= 7
  {
    hide Xor;
    var a: int, b: int := s[30], s[31];
    XorOctal(a / 64, b % 2);
    r[80] := a % 8;
    r[81] := a / 8 % 8;
    r[82] := Xor(a / 64 % 8, 4 * b % 8);
    r[83] := b / 2 % 8;
    r[84] := b / 16 % 8;
  }

  /** sc25519_window3: digits from -4 to 3, and the last from 0 to 8, of any scalar modulo 2^255. */
  method Window3(s: seq<byte>) returns (r: array<schar>)
    requires |s| == 32
    ensures fresh(r) && r.Length == 85 && Oct(r[..]) == Scalar255(s)
    ensures (forall k :: 0 <= k < 84 ==> -4 <= r[k] <= 3) && 0 <= r[84] <= 8
  {
    hide Oct, Val, Pow8;
    r := OctalDigits(s);
    OctalIsVal(r[..], s);
    var carry: schar := 0;
    for i := 0 to 84
      invariant 0 <= carry <= 1
      invariant Oct(r[..]) + carry * Pow8(i) == Scalar255(s)
      invariant forall k :: 0 <= k < i ==> -4 <= r[k] <= 3
      invariant 0 <= r[i] <= 8 && (r[i] == 8 ==> carry == 0)
      invariant forall k :: i < k < 85 ==> 0 <= r[k] <= 7
    {
      ghost var before, c0 := r[..], carry;
      r[i] := r[i] + carry;
      r[i + 1] := r[i + 1] + r[i] / 8;
      r[i] := r[i] % 8;
      carry := r[i] / 4;
      r[i] := r[i] - carry * 8;
      RecodeStep(before, r[..], i, c0, carry);
    }
    ghost var before := r[..];
    r[84] := r[84] + carry;
    OctUpdate(before, 84, r[84]);
    assert r[..] == before[84 := r[84]];
  }

  /** Bit 255 is not looked at. */
  lemma OctalIsVal(r: seq<int>, s: seq<byte>)
    requires |r| == 85 && |s| == 32 && LastDigits(r, s) && forall k :: 0 <= k < 10 ==> GroupDigits(r, s, k)
    ensures Oct(r) == Scalar255(s)
  {
    hide Oct, Val;
    var low := Low(s, 128);
    forall k | 0 <= k < 10
      ensures GroupDigits(r, low, k)
    {
      assert GroupDigits(r, s, k);
    }
    TopOfByte(s[31]);
    GroupsAreVal(r, low, 0);
    assert r[0..] == r && low[0..] == low;
    LowIsMod(s);
  }

  lemma TopOfByte(v: byte)
    ensures v % 128 / 16 % 8 == v / 16 % 8 && v % 128 / 2 % 8 == v / 2 % 8 && v % 128 % 2 == v % 2
    ensures 4 * (v % 128) % 8 == 4 * v % 8
  {
    if v < 128 {
      assert v % 128 == v;
    } else {
      WithoutTop(v - 128);
    }
  }

  lemma WithoutTop(w: nat)
    requires w < 128
    ensures (w + 128) % 128 == w && (w + 128) % 2 == w % 2
    ensures (w + 128) / 16 % 8 == w / 16 % 8 && (w + 128) / 2 % 8 == w / 2 % 8 && 4 * (w + 128) % 8 == 4 * w % 8
  {
    Shifted(w);
    assert (w / 16 + 8) % 8 == w / 16 % 8 && (w / 2 + 64) % 8 == w / 2 % 8 && (4 * w + 512) % 8 == 4 * w % 8;
  }

  lemma Shifted(w: nat)
    ensures (w + 128) / 16 == w / 16 + 8 && (w + 128) / 2 == w / 2 + 64 && 4 * (w + 128) == 4 * w + 512
  {
  }

  lemma RecodeStep(r: seq<int>, r': seq<int>, i: nat, c: int, c': int)
    requires |r| == |r'| == 85 && i < 84 && r' == r[i := r'[i]][i + 1 := r'[i + 1]]
    requires r'[i] + 8 * c' + 8 * (r'[i + 1] - r[i + 1]) == r[i] + c
    ensures Oct(r') + c' * Pow8(i + 1) == Oct(r) + c * Pow8(i)
  {
    hide Oct;
    OctUpdate(r, i, r'[i]);
    OctUpdate(r[i := r'[i]], i + 1, r'[i + 1]);
    var p, q := Pow8(i), r'[i + 1] - r[i + 1];
    assert (r'[i] - r[i]) * p + q * (8 * p) + c' * (8 * p) == (r'[i] - r[i] + 8 * q + 8 * c') * p;
  }

  // ----- the table walk

  /** Entry 5 pos + k of the table is k * 8^pos * B. */
  ghost predicate TableOk<G>(m: Model<G>, base: seq<Aff>, gen: G) {
    |base| == 425 && forall pos: nat, k: nat :: pos < 85 && k < 5 ==> TableEntry(m, base, pos, k, gen)
  }

  ghost predicate TableEntry<G>(m: Model<G>, base: seq<Aff>, pos: nat, k: nat, gen: G)
    requires |base| == 425 && pos < 85 && k < 5
  {
    AffRepresents(m, base[5 * pos + k], Times(m, k * Pow8(pos), gen))
  }

  /** 1 for equal bytes, else 0; the subtraction wraps exactly when they are equal. */
  function EqualByte(ub: nat, uc: nat): (r: int)
    requires ub < 256 && uc < 256
    ensures r == if ub == uc then 1 else 0
  {
    XorIsZero(ub, uc);
    ByteXorBelow(ub, uc);
    Sub32(Xor(ub, uc), 1) / 0x8000_0000
  }

  lemma BytesDistinguish(b: schar, c: schar)
    ensures b as int % 256 == c as int % 256 <==> b == c
  {
    assert b as int % 256 == if b < 0 then (b as int) + 256 else b;
    assert c as int % 256 == if c < 0 then (c as int) + 256 else c;
  }

  /** ge25519.c's equal on signed characters. */
  function EqualChar(b: schar, c: schar): (r: int)
    ensures r == if b == c then 1 else 0
  {
    BytesDistinguish(b, c);
    EqualByte(b as int % 256, c as int % 256)
  }

  /** The sign bit of b widened to 64 bits. */
  function NegativeChar(b: schar): (r: int)
    ensures r == if b < 0 then 1 else 0
  {
    var x := (b as int) % 0x1_0000_0000_0000_0000;
    x / 0x8000_0000_0000_0000
  }

  function CMovAff(t: Aff, q: Aff, bit: bool): Aff {
    if bit then q else t
  }

  /** The digit choose_t serves: for 4 and more no conditional move fires and the entry of 0 stays. */
  function Served(b: int): int {
    if b <= 3 then b else 0
  }

  /** The conditional moves of choose_t select the entry for |b|. */
  method SelectEntry(base: seq<Aff>, pos: nat, b: schar) returns (t: Aff)
    requires |base| == 425 && pos < 85 && -4 <= b
    ensures t == base[5 * pos + if b < 0 then -(b as int) else Served(b)]
  {
    hide Bounded, EqualChar;
    t := base[5 * pos];
    t := CMovAff(t, base[5 * pos + 1], EqualChar(b, 1) == 1 || EqualChar(b, -1) == 1);
    t := CMovAff(t, base[5 * pos + 2], EqualChar(b, 2) == 1 || EqualChar(b, -2) == 1);
    t := CMovAff(t, base[5 * pos + 3], EqualChar(b, 3) == 1 || EqualChar(b, -3) == 1);
    t := CMovAff(t, base[5 * pos + 4], EqualChar(b, -4) == 1);
  }

  /** t names d * 8^pos * B. */
  ghost predicate NamesDigit<G>(m: Model<G>, t: Aff, d: int, pos: nat, gen: G) {
    AffRepresents(m, t, Signed(m, d * Pow8(pos), gen))
  }

  /** b * 8^pos * B for a signed digit b that is served. */
  method ChooseT<G(!new)>(base: seq<Aff>, pos: nat, b: schar, ghost m: Model<G>, ghost gen: G) returns (t: Aff)
    requires IsModel(m) && TableOk(m, base, gen) && pos < 85 && -4 <= b
    ensures NamesDigit(m, t, Served(b), pos, gen)
  {
    hide AffRepresents, IsModel, Times, Bounded, Pow8, Signed, FeNeg;
    t := SelectEntry(base, pos, b);
    ghost var d := Served(b);
    ghost var k: nat := if d < 0 then -d else d;
    assert TableEntry(m, base, pos, k, gen);
    ghost var chosen := t;
    SignedDigit(m, d, k, pos, gen);
    var v := FeNeg(t.x);
    if NegativeChar(b) == 1 {
      NegateRepresents(m, chosen, Times(m, k * Pow8(pos), gen));
      t := Aff(v, t.y);
    }
  }

  lemma SignedDigit<G>(m: Model<G>, b: int, k: nat, pos: nat, a: G)
    requires k == if b < 0 then -b else b
    ensures k * Pow8(pos) >= 0
    ensures Signed(m, b * Pow8(pos), a)
         == if b < 0 then m.minus(Times(m, k * Pow8(pos), a)) else Times(m, k * Pow8(pos), a)
  {
    Pow8Positive(pos);
    var p := Pow8(pos);
    assert k * p >= 0 && (b < 0 ==> k * p > 0 && b * p == -(k * p));
  }

  lemma {:induction false} Pow8Positive(n: nat)
    ensures Pow8(n) > 0
  {
    if n > 0 {
      Pow8Positive(n - 1);
    }
  }

  lemma {:induction false} OctExtend(r: seq<int>, i: nat)
    requires i < |r|
    ensures Oct(r[..i + 1]) == Oct(r[..i]) + r[i] * Pow8(i)
  {
    if i == 0 {
      assert r[..1][1..] == [] && r[..0] == [];
    } else {
      OctExtend(r[1..], i - 1);
      assert r[..i + 1][1..] == r[1..][..i] && r[..i][1..] == r[1..][..i - 1];
      assert 8 * (r[i] * Pow8(i - 1)) == r[i] * Pow8(i);
    }
  }

  /** ge25519_mixadd2, which overwrites its first operand. */
  method MixAdd2(r: Point, q: Aff)
    modifies r
    ensures r.Value() == ToP3(MixAdd(old(r.Value()), q))
  {
    hide FeMul, FeAdd, FeSub, Ec2d, Bounded;
    var qt := FeMul(q.x, q.y);
    var a := FeSub(r.y, r.x);
    var b := FeAdd(r.y, r.x);
    var t1 := FeSub(q.y, q.x);
    var t2 := FeAdd(q.y, q.x);
    a := FeMul(a, t1);
    b := FeMul(b, t2);
    var e := FeSub(b, a);
    var h := FeAdd(b, a);
    var c := FeMul(r.t, qt);
    c := FeMul(c, Ec2d());
    var d := FeAdd(r.z, r.z);
    var f := FeSub(d, c);
    var g := FeAdd(d, c);
    r.x := FeMul(e, f);
    r.y := FeMul(h, g);
    r.z := FeMul(g, f);
    r.t := FeMul(e, h);
  }

  // ----- the top digit

  /** 1 + 8 + ... + 8^(n - 1) */
  function Ones(n: nat): nat {
    if n == 0 then 0 else Ones(n - 1) + Pow8(n - 1)
  }

  lemma {:induction false} OnesClosed(n: nat)
    ensures 7 * Ones(n) + 1 == Pow8(n)
  {
    if n > 0 {
      OnesClosed(n - 1);
    }
  }

  const TWO_252: int := 0x1000_0000_0000_0000_0000_0000_0000_0000_0000_0000_0000_0000_0000_0000_0000_0000

  /** The top of the 85 digits that evaluate to v. */
  function TopOctal(v: nat): nat {
    (v + 4 * ((TWO_252 - 1) / 7)) / TWO_252
  }

  /** What the generator is multiplied by: choose_t does not serve a top digit of 4 or more. */
  function Multiplier(v: nat): int {
    if TopOctal(v) <= 3 then v else v - TopOctal(v) * TWO_252
  }

  lemma {:induction false} OctBounds(r: seq<int>, n: nat)
    requires n <= |r| && forall k :: 0 <= k < n ==> -4 <= r[k] <= 3
    ensures -4 * Ones(n) <= Oct(r[..n]) <= 3 * Ones(n)
  {
    hide Oct;
    if n == 0 {
      OctEmpty(r[..0]);
    } else {
      OctBounds(r, n - 1);
      OctExtend(r, n - 1);
      Pow8Positive(n - 1);
      DigitBounds(r[n - 1], Pow8(n - 1));
    }
  }

  lemma DigitBounds(d: int, p: nat)
    requires -4 <= d <= 3
    ensures -4 * p <= d * p <= 3 * p
  {
  }

  lemma TopDigitIs(r: seq<int>, v: nat)
    requires |r| == 85 && Oct(r) == v && r[84] >= 0 && forall k :: 0 <= k < 84 ==> -4 <= r[k] <= 3
    ensures TopOctal(v) == r[84]
    ensures Oct(r[84 := Served(r[84])]) == Multiplier(v)
  {
    hide Oct, Ones, Pow8, Multiplier, TopOctal;
    OctBounds(r, 84);
    OctExtend(r, 84);
    assert r[..85] == r;
    OnesClosed(84);
    Pow8At84();
    MultiplierIs(v, Ones(84), r[84], Oct(r[..84]));
    OctUpdate(r, 84, Served(r[84]));
  }

  lemma MultiplierIs(v: nat, ones: nat, top: nat, low: int)
    requires v == low + top * TWO_252 && -4 * ones <= low <= 3 * ones && 7 * ones + 1 == TWO_252
    ensures TopOctal(v) == top && Multiplier(v) == v + (Served(top) - top) * TWO_252
  {
  }

  lemma {:induction false} Pow8Add(i: nat, j: nat)
    ensures Pow8(i + j) == Pow8(i) * Pow8(j)
  {
    if i > 0 {
      Pow8Add(i - 1, j);
    }
  }

  lemma Pow8At84()
    ensures Pow8(84) == TWO_252
  {
    assert Pow8(7) == 0x20_0000;
    Pow8Add(7, 7);
    Pow8Add(14, 7);
    Pow8Add(21, 21);
    Pow8Add(42, 42);
  }

  /** No multiple of a below its order is zero but by a multiple of L. */
  ghost predicate HasOrderL<G>(m: Model<G>, a: G) {
    forall n: nat :: Times(m, n, a) == m.zero ==> n % Sc25519.L == 0
  }

  lemma TopNotOrder(top: nat)
    requires 4 <= top <= 8
    ensures (top * TWO_252) % Sc25519.L != 0
  {
  }

  lemma SelfSum<G(!new)>(m: Model<G>, a: G, b: G)
    requires AbelianGroup(m) && m.plus(a, b) == a
    ensures b == m.zero
  {
    hide AbelianGroup;
    Commutes(m, a, b);
    Cancel(m, b, a);
    Units(m, a);
  }

  /** For a point of order L the result is s times it exactly below that bound. */
  lemma MultipleIff<G(!new)>(m: Model<G>, v: nat, a: G)
    requires AbelianGroup(m) && HasOrderL(m, a) && v < TWO_255
    ensures Signed(m, Multiplier(v), a) == Times(m, v, a) <==> 7 * v < 24 * TWO_252 + 4
  {
    MultiplierParts(v);
    var top := TopOctal(v);
    hide *;
    SignedNat(m, v, a);
    if top > 3 {
      ghost var lost := top * TWO_252;
      SignedNat(m, lost, a);
      SignedAdd(m, Multiplier(v), lost, a);
      TopNotOrder(top);
      NotZero(m, a, lost);
      if Signed(m, Multiplier(v), a) == Times(m, v, a) {
        SelfSum(m, Signed(m, Multiplier(v), a), Times(m, lost, a));
      }
    }
  }

  lemma SignedNat<G>(m: Model<G>, n: nat, a: G)
    ensures Signed(m, n, a) == Times(m, n, a)
  {
  }

  lemma NotZero<G>(m: Model<G>, a: G, n: nat)
    requires HasOrderL(m, a) && n % Sc25519.L != 0
    ensures Times(m, n, a) != m.zero
  {
  }

  lemma MultiplierParts(v: nat)
    requires v < TWO_255
    ensures TopOctal(v) <= 8 && (TopOctal(v) > 3 ==> Multiplier(v) + TopOctal(v) * TWO_252 == v && 7 * v >= 24 * TWO_252 + 4)
    ensures TopOctal(v) <= 3 ==> Multiplier(v) == v && 7 * v < 24 * TWO_252 + 4
  {
  }

  /** The whole scalar is multiplied exactly when it is below (24 * 2^252 + 4) / 7, a little under 3.43 * 2^252. */
  lemma MultiplierIff(v: nat)
    ensures Multiplier(v) == v <==> 7 * v < 24 * TWO_252 + 4
  {
    var top := TopOctal(v);
    assert top <= 3 <==> 7 * v < 24 * TWO_252 + 4;
    assert top > 3 ==> top * TWO_252 > 0;
  }

  /** [s]B for every scalar its digits serve, and otherwise the multiple without the top digit. */
  method ScalarMultBase<G(!new)>(r: Point, base: seq<Aff>, s: seq<byte>, ghost m: Model<G>, ghost gen: G)
    requires IsModel(m) && TableOk(m, base, gen) && |s| == 32
    modifies r
    ensures Represents(m, r.Value(), Signed(m, Multiplier(Scalar255(s)), gen))
  {
    hide *;
    var b := Window3(s);
    ghost var raw: seq<int> := b[..];
    ghost var digits: seq<int> := raw[84 := Served(raw[84])];
    TopDigitIs(raw, Scalar255(s));
    DigitsServed(raw, digits);
    AddDigits(r, base, b, digits, m, gen);
  }

  /** The walk over the digits. */
  method AddDigits<G(!new)>(r: Point, base: seq<Aff>, b: array<schar>, ghost digits: seq<int>, ghost m: Model<G>, ghost gen: G)
    requires IsModel(m) && TableOk(m, base, gen) && b.Length == |digits| == 85
    requires forall k :: 0 <= k < 85 ==> -4 <= b[k] && digits[k] == Served(b[k])
    modifies r
    ensures Represents(m, r.Value(), Signed(m, Oct(digits), gen))
  {
    hide *;
    var t := ChooseT(base, 0, b[0], m, gen);
    FirstDigit(m, t, digits, gen);
    r.Assign(Lift(t));
    for i := 1 to 85
      modifies r
      invariant Represents(m, r.Value(), Signed(m, Oct(digits[..i]), gen))
    {
      t := ChooseT(base, i, b[i], m, gen);
      AddDigit(m, r.Value(), t, digits, i, gen);
      MixAdd2(r, t);
    }
    assert digits[..85] == digits;
  }

  lemma DigitsServed(b: seq<int>, digits: seq<int>)
    requires |b| == 85 && digits == b[84 := Served(b[84])] && forall k :: 0 <= k < 84 ==> b[k] <= 3
    ensures forall k :: 0 <= k < 85 ==> digits[k] == Served(b[k])
  {
  }

  lemma DigitNamed<G>(m: Model<G>, t: Aff, d: int, pos: nat, gen: G)
    requires NamesDigit(m, t, d, pos, gen)
    ensures AffRepresents(m, t, Signed(m, d * Pow8(pos), gen))
  {
    hide AffRepresents, Signed, Pow8;
  }

  lemma FirstDigit<G(!new)>(m: Model<G>, t: Aff, digits: seq<int>, gen: G)
    requires |digits| > 0 && NamesDigit(m, t, digits[0], 0, gen)
    ensures Represents(m, Lift(t), Signed(m, Oct(digits[..1]), gen))
  {
    hide *;
    DigitNamed(m, t, digits[0], 0, gen);
    LiftRepresents(m, t, Signed(m, digits[0] * Pow8(0), gen));
    OctExtend(digits, 0);
    OctEmpty(digits[..0]);
    assert Oct(digits[..1]) == digits[0] * Pow8(0);
  }

  lemma AddDigit<G(!new)>(m: Model<G>, r: P3, t: Aff, digits: seq<int>, i: nat, gen: G)
    requires IsModel(m) && i < |digits|
    requires Represents(m, r, Signed(m, Oct(digits[..i]), gen))
    requires NamesDigit(m, t, digits[i], i, gen)
    ensures Represents(m, ToP3(MixAdd(r, t)), Signed(m, Oct(digits[..i + 1]), gen))
  {
    hide *;
    var acc, d := Oct(digits[..i]), digits[i] * Pow8(i);
    DigitNamed(m, t, digits[i], i, gen);
    MixAddRepresents(m, r, t, Signed(m, acc, gen), Signed(m, d, gen));
    SignedAddInModel(m, acc, d, gen);
    OctExtend(digits, i);
  }

  lemma SignedAddInModel<G(!new)>(m: Model<G>, i: int, j: int, a: G)
    requires IsModel(m)
    ensures m.plus(Signed(m, i, a), Signed(m, j, a)) == Signed(m, i + j, a)
  {
    SignedAdd(m, i, j, a);
  }

  /** Below 3 * 2^252, and so for every reduced scalar, the multiple is the scalar's own. */
  lemma SignedScalar<G>(m: Model<G>, s: seq<byte>, a: G)
    requires |s| == 32 && s[31] < 48
    ensures Signed(m, Multiplier(Scalar255(s)), a) == Times(m, Scalar(s), a)
  {
    hide Val, Multiplier, Pow256;
    SmallScalar(s);
    TopByte(s);
    MultiplierIff(Scalar(s));
  }

  lemma TopByte(s: seq<byte>)
    requires |s| == 32 && s[31] < 48
    ensures 8 * Scalar(s) < 3 * TWO_255
  {
    hide Val, Pow256;
    Pow256At31();
    LowVal(s, 48);
    assert Low(s, 48) == s;
  }
}

/** ge25519.c: point structs updated in place, and the two scalar multiplications. */
module Ge25519 {
  import opened Words
  import opened Field
  import opened Residues
  import opened MulBound
  import opened PointSpec
  import opened PointGroup

  /** ge25519_p1p1, written through a pointer by add_p1p1 and dbl_p1p1. */
  class CompletedPoint {
    var x: Fe
    var z: Fe
    var y: Fe
    var t: Fe

    constructor ()
    {
      x, z, y, t := ZeroLimbs(), ZeroLimbs(), ZeroLimbs(), ZeroLimbs();
    }

    function Value(): P1P1
      reads this
    {
      P1P1(x, z, y, t)
    }

    method AddP1P1(p: P3, q: P3)
      modifies this
      ensures Value() == AddPoints(p, q)
    {
      hide FeMul, FeAdd, FeSub, Ec2d;
      var a := FeSub(p.y, p.x);
      var s := FeSub(q.y, q.x);
      a := FeMul(a, s);
      var b := FeAdd(p.x, p.y);
      s := FeAdd(q.x, q.y);
      b := FeMul(b, s);
      var c := FeMul(p.t, q.t);
      c := FeMul(c, Ec2d());
      var d := FeMul(p.z, q.z);
      d := FeAdd(d, d);
      x := FeSub(b, a);
      t := FeSub(d, c);
      z := FeAdd(d, c);
      y := FeAdd(b, a);
    }

    /** Reads the first three coordinates only, as the cast to ge25519_p2 does. */
    method DblP1P1(px: Fe, py: Fe, pz: Fe)
      modifies this
      ensures Value() == DoublePoint(px, py, pz)
    {
      hide FeMul, FeAdd, FeSub, FeNeg;
      var a := FeMul(px, px);
      var b := FeMul(py, py);
      var c := FeMul(pz, pz);
      c := FeAdd(c, c);
      var d := FeNeg(a);
      x := FeAdd(px, py);
      x := FeMul(x, x);
      x := FeSub(x, a);
      x := FeSub(x, b);
      z := FeAdd(d, b);
      t := FeSub(z, c);
      y := FeSub(d, b);
    }
  }

  /** ge25519_p3. */
  class Point {
    var x: Fe
    var y: Fe
    var z: Fe
    var t: Fe

    constructor ()
    {
      x, y, z, t := ZeroLimbs(), ZeroLimbs(), ZeroLimbs(), ZeroLimbs();
    }

    function Value(): P3
      reads this
    {
      P3(x, y, z, t)
    }

    method Assign(p: P3)
      modifies this
      ensures Value() == p
    {
      x, y, z, t := p.x, p.y, p.z, p.t;
    }

    /** p1p1_to_p2 through the cast to ge25519_p2: the T coordinate keeps its old, now unrelated, value. */
    method FromP1P1ToP2(p: CompletedPoint)
      modifies `x, `y, `z
      ensures P3(x, y, z, ToP3(p.Value()).t) == ToP3(p.Value())
    {
      hide FeMul;
      x := FeMul(p.x, p.t);
      y := FeMul(p.y, p.z);
      z := FeMul(p.z, p.t);
    }

    method FromP1P1ToP3(p: CompletedPoint)
      modifies this
      ensures Value() == ToP3(p.Value())
    {
      hide FeMul, Bounded, Val;
      FromP1P1ToP2(p);
      t := FeMul(p.x, p.y);
    }
  }

  // ----- the table of small combinations

  ghost predicate Entry<G>(m: Model<G>, p: P3, k: nat, a: G, b: G) {
    Represents(m, p, Combo(m, k % 4, a, k / 4, b))
  }

  lemma EntryIs<G>(m: Model<G>, p: P3, k: nat, i: nat, j: nat, a: G, b: G)
    requires i == k % 4 && j == k / 4
    ensures Entry(m, p, k, a, b) <==> Represents(m, p, Combo(m, i, a, j, b))
  {
    hide Represents, Combo;
  }

  lemma Indices(j: nat, k: nat)
    requires j % 4 + k % 4 < 4
    ensures (j + k) % 4 == j % 4 + k % 4 && (j + k) / 4 == j / 4 + k / 4
  {
  }

  lemma ModelIsGroup<G(!new)>(m: Model<G>)
    requires IsModel(m)
    ensures AbelianGroup(m)
  {
    hide AbelianGroup, Homomorphic;
  }

  lemma EntryAdd<G(!new)>(m: Model<G>, p: P3, q: P3, j: nat, k: nat, a: G, b: G)
    requires IsModel(m) && Entry(m, p, j, a, b) && Entry(m, q, k, a, b) && j % 4 + k % 4 < 4
    ensures Entry(m, ToP3(AddPoints(p, q)), j + k, a, b)
  {
    hide *;
    var j0, j1, k0, k1 := j % 4, j / 4, k % 4, k / 4;
    Indices(j, k);
    EntryIs(m, p, j, j0, j1, a, b);
    EntryIs(m, q, k, k0, k1, a, b);
    ModelIsGroup(m);
    AddRepresents(m, p, q, Combo(m, j0, a, j1, b), Combo(m, k0, a, k1, b));
    ComboAdd(m, j0, j1, k0, k1, a, b);
    EntryIs(m, ToP3(AddPoints(p, q)), j + k, j0 + k0, j1 + k1, a, b);
  }

  lemma EntryDouble<G(!new)>(m: Model<G>, p: P3, k: nat, a: G, b: G)
    requires IsModel(m) && Entry(m, p, k, a, b) && k % 4 < 2
    ensures Entry(m, ToP3(DoublePoint(p.x, p.y, p.z)), 2 * k, a, b)
  {
    hide *;
    var k0, k1 := k % 4, k / 4;
    Indices(k, k);
    EntryIs(m, p, k, k0, k1, a, b);
    ModelIsGroup(m);
    var g := Combo(m, k0, a, k1, b);
    RepresentsForgetsT(m, p, g);
    DoubleRepresents(m, p.x, p.y, p.z, g);
    ComboAdd(m, k0, k1, k0, k1, a, b);
    EntryIs(m, ToP3(DoublePoint(p.x, p.y, p.z)), 2 * k, k0 + k0, k1 + k1, a, b);
  }

  lemma EntryUnits<G(!new)>(m: Model<G>, p1: P3, p2: P3, a: G, b: G)
    requires IsModel(m) && Represents(m, p1, a) && Represents(m, p2, b)
    ensures Entry(m, Neutral(), 0, a, b) && Entry(m, p1, 1, a, b) && Entry(m, p2, 4, a, b)
  {
    hide Represents, Combo;
    NeutralRepresents(m);
    ComboUnits(m, a, b);
  }

  /** pre[k] = (k mod 4) p1 + (k div 4) p2. */
  method Precompute<G(!new)>(p1: P3, p2: P3, ghost m: Model<G>, ghost a: G, ghost b: G) returns (pre: array<P3>)
    requires IsModel(m) && Represents(m, p1, a) && Represents(m, p2, b)
    ensures fresh(pre) && pre.Length == 16
    ensures forall k :: 0 <= k < 16 ==> Entry(m, pre[k], k, a, b)
  {
    hide *;
    var tp := new CompletedPoint();
    pre := new P3[16](_ => Neutral());
    EntryUnits(m, p1, p2, a, b);
    pre[1] := p1;
    DoubleInto(pre, tp, 1, m, a, b);
    SumInto(pre, tp, 1, 2, m, a, b);
    pre[4] := p2;
    SumInto(pre, tp, 1, 4, m, a, b);
    SumInto(pre, tp, 2, 4, m, a, b);
    SumInto(pre, tp, 3, 4, m, a, b);
    PrecomputeHigh(pre, tp, m, a, b);
  }

  method PrecomputeHigh<G(!new)>(pre: array<P3>, tp: CompletedPoint, ghost m: Model<G>, ghost a: G, ghost b: G)
    requires IsModel(m) && pre.Length == 16 && forall k :: 0 <= k < 8 ==> Entry(m, pre[k], k, a, b)
    modifies pre, tp
    ensures forall k :: 0 <= k < 16 ==> Entry(m, pre[k], k, a, b)
  {
    hide *;
    DoubleInto(pre, tp, 4, m, a, b);
    SumInto(pre, tp, 1, 8, m, a, b);
    DoubleInto(pre, tp, 5, m, a, b);
    SumInto(pre, tp, 3, 8, m, a, b);
    SumInto(pre, tp, 4, 8, m, a, b);
    SumInto(pre, tp, 1, 12, m, a, b);
    SumInto(pre, tp, 2, 12, m, a, b);
    SumInto(pre, tp, 3, 12, m, a, b);
  }

  /** One line of the table: pre[j + k] from pre[j] and pre[k]. */
  method SumInto<G(!new)>(pre: array<P3>, tp: CompletedPoint, j: nat, k: nat, ghost m: Model<G>, ghost a: G, ghost b: G)
    requires pre.Length == 16 && j + k < 16 && j % 4 + k % 4 < 4
    requires IsModel(m) && Entry(m, pre[j], j, a, b) && Entry(m, pre[k], k, a, b)
    modifies pre, tp
    ensures Entry(m, pre[j + k], j + k, a, b)
    ensures forall i :: 0 <= i < 16 && i != j + k ==> pre[i] == old(pre[i])
  {
    hide *;
    EntryAdd(m, pre[j], pre[k], j, k, a, b);
    tp.AddP1P1(pre[j], pre[k]);
    pre[j + k] := ToP3(tp.Value());
  }

  method DoubleInto<G(!new)>(pre: array<P3>, tp: CompletedPoint, k: nat, ghost m: Model<G>, ghost a: G, ghost b: G)
    requires pre.Length == 16 && 2 * k < 16 && k % 4 < 2
    requires IsModel(m) && Entry(m, pre[k], k, a, b)
    modifies pre, tp
    ensures Entry(m, pre[2 * k], 2 * k, a, b)
    ensures forall i :: 0 <= i < 16 && i != 2 * k ==> pre[i] == old(pre[i])
  {
    hide *;
    EntryDouble(m, pre[k], k, a, b);
    tp.DblP1P1(pre[k].x, pre[k].y, pre[k].z);
    pre[2 * k] := ToP3(tp.Value());
  }

  // ----- base-4 digits of a scalar

  /** The integer 32 little-endian bytes stand for. */
  function Scalar(s: seq<byte>): (n: nat)
    requires |s| == 32
    ensures n == Val(s)
  {
    ValOfBytes(s);
    Val(s)
  }

  /** Digit k of a 32-byte scalar in base 4. */
  function Digit(s: seq<byte>, k: nat): (d: nat)
    requires |s| == 32 && k < 128
    ensures d < 4
  {
    var v := s[k / 4];
    (if k % 4 == 0 then v else if k % 4 == 1 then v / 4 else if k % 4 == 2 then v / 16 else v / 64) % 4
  }

  /** The digits from k up to 126, by Horner's rule. */
  function Horner(s: seq<byte>, k: nat): nat
    requires |s| == 32 && k <= 127
    decreases 127 - k
  {
    if k == 127 then 0 else Digit(s, k) + 4 * Horner(s, k + 1)
  }

  lemma HornerByte(s: seq<byte>, i: nat)
    requires |s| == 32 && i < 31
    ensures Horner(s, 4 * i) == s[i] + 256 * Horner(s, 4 * i + 4)
  {
    hide Digit;
    var h := Horner(s, 4 * i + 4);
    assert Horner(s, 4 * i + 3) == Digit(s, 4 * i + 3) + 4 * h;
    assert Horner(s, 4 * i + 2) == Digit(s, 4 * i + 2) + 4 * Horner(s, 4 * i + 3);
    assert Horner(s, 4 * i + 1) == Digit(s, 4 * i + 1) + 4 * Horner(s, 4 * i + 2);
    DigitsOfScalar(s, i);
    DigitsOfByte(s[i]);
  }

  lemma DigitsOfScalar(s: seq<byte>, i: nat)
    requires |s| == 32 && i < 32
    ensures Digit(s, 4 * i) == s[i] % 4 && Digit(s, 4 * i + 1) == s[i] / 4 % 4
    ensures Digit(s, 4 * i + 2) == s[i] / 16 % 4 && Digit(s, 4 * i + 3) == s[i] / 64 % 4
  {
  }

  lemma HornerTop(s: seq<byte>)
    requires |s| == 32 && s[31] < 64
    ensures Horner(s, 124) == s[31]
  {
    DigitsOfScalar(s, 31);
    hide Digit;
    assert Horner(s, 126) == Digit(s, 126) + 4 * Horner(s, 127);
    assert Horner(s, 125) == Digit(s, 125) + 4 * Horner(s, 126);
    assert Horner(s, 124) == Digit(s, 124) + 4 * Horner(s, 125);
    DigitsOfByte(s[31]);
  }

  /** Below 2^254 the 127 digits are the whole scalar. */
  lemma {:induction false} HornerIsVal(s: seq<byte>, i: nat)
    requires |s| == 32 && s[31] < 64 && i < 32
    ensures Horner(s, 4 * i) == Val(s[i..])
    decreases 32 - i
  {
    hide Val, Digit;
    HeadVal(s, i);
    if i == 31 {
      HornerTop(s);
      EmptyVal(s[32..]);
    } else {
      HornerIsVal(s, i + 1);
      HornerByte(s, i);
    }
  }

  const TWO_254: int := 0x4000_0000_0000_0000_0000_0000_0000_0000_0000_0000_0000_0000_0000_0000_0000_0000

  /** The scalar modulo 2^254, and modulo 2^255. */
  function Scalar254(s: seq<byte>): nat
    requires |s| == 32
  {
    Scalar(s) % TWO_254
  }

  function Scalar255(s: seq<byte>): nat
    requires |s| == 32
  {
    Scalar(s) % TWO_255
  }

  /** The bytes without the upper bits of the last one. */
  function Low(s: seq<byte>, top: nat): (r: seq<byte>)
    requires |s| == 32 && 0 < top <= 256
    ensures |r| == 32
  {
    s[31 := s[31] % top]
  }

  lemma LowVal(s: seq<byte>, top: nat)
    requires |s| == 32 && 0 < top <= 256
    ensures 0 <= Val(Low(s, top)) < top * Pow256(31)
    ensures Val(s) == Val(Low(s, top)) + (s[31] / top) * (top * Pow256(31))
  {
    hide Val, Pow256;
    var r := Low(s, top);
    var q: int, d: int, p := s[31] / top, s[31] % top, Pow256(31);
    ValUpdate(s, 31, r[31]);
    ValSplit(r, 31);
    assert r[31..] == [r[31]];
    SingleVal(r[31]);
    ValOfBytes(r[..31]);
    assert s[31] == q * top + d;
    LowAlgebra(q, top, d, p, Val(r[..31]));
  }

  lemma LowAlgebra(q: int, top: int, d: int, p: int, v: int)
    requires 0 <= d < top && 0 <= v < p
    ensures 0 <= v + p * d < top * p
    ensures (d - (q * top + d)) * p == -(q * (top * p))
  {
    assert p * d <= p * (top - 1);
    assert (d - (q * top + d)) == -(q * top);
  }

  lemma LowIsMod(s: seq<byte>)
    requires |s| == 32
    ensures Val(Low(s, 64)) == Val(s) % TWO_254 && Val(Low(s, 128)) == Val(s) % TWO_255
  {
    hide Val, Pow256, Low;
    Pow256At31();
    LowVal(s, 64);
    LowVal(s, 128);
    RestIs(Val(s), s[31] / 64, Val(Low(s, 64)));
    FloorIs(Val(s), s[31] / 128, Val(Low(s, 128)));
  }

  lemma RestIs(a: int, q: int, r: int)
    requires a == r + q * TWO_254 && 0 <= r < TWO_254
    ensures a % TWO_254 == r
  {
  }

  lemma SmallScalar(s: seq<byte>)
    requires |s| == 32 && s[31] < 64
    ensures Scalar254(s) == Scalar255(s) == Scalar(s)
  {
    hide Val;
    LowIsMod(s);
    assert Low(s, 64) == s && Low(s, 128) == s;
  }

  lemma DigitsOfByte(v: byte)
    ensures v % 4 + 4 * (v / 4 % 4 + 4 * (v / 16 % 4 + 4 * (v / 64 % 4))) == v
  {
  }

  /** The two bits above the 127 digits are never looked at. */
  lemma {:induction false} HornerCut(s: seq<byte>, k: nat)
    requires |s| == 32 && k <= 127
    ensures Horner(Low(s, 64), k) == Horner(s, k)
    decreases 127 - k
  {
    if k < 127 {
      DigitCut(s, k);
      hide Digit, Low;
      HornerCut(s, k + 1);
    }
  }

  lemma DigitCut(s: seq<byte>, k: nat)
    requires |s| == 32 && k < 127
    ensures Digit(Low(s, 64), k) == Digit(s, k)
  {
    if k < 124 {
      assert Low(s, 64)[k / 4] == s[k / 4];
    } else {
      DigitsOfScalar(s, 31);
      DigitsOfScalar(Low(s, 64), 31);
      CutByte(s[31]);
      hide Digit;
    }
  }

  lemma CutByte(v: byte)
    ensures v % 64 % 4 == v % 4 && v % 64 / 4 % 4 == v / 4 % 4 && v % 64 / 16 % 4 == v / 16 % 4
  {
    CutBits(v % 64, v / 64);
  }

  lemma CutBits(u: nat, w: nat)
    ensures (u + 64 * w) % 4 == u % 4 && (u + 64 * w) / 4 % 4 == u / 4 % 4 && (u + 64 * w) / 16 % 4 == u / 16 % 4
  {
    Halve(u, w);
    WholeQuarters(u, 16 * w);
    WholeQuarters(u / 4, 4 * w);
    WholeQuarters(u / 16, w);
  }

  lemma Halve(u: nat, w: nat)
    ensures (u + 64 * w) / 4 == u / 4 + 16 * w && (u + 64 * w) / 16 == u / 16 + 4 * w
  {
  }

  lemma WholeQuarters(u: nat, w: nat)
    ensures (u + 4 * w) % 4 == u % 4
  {
  }

  /** XOR of two digits that occupy different bits. */
  lemma XorDisjoint(d: nat, e: nat)
    requires d < 4 && e < 4
    ensures Xor(d, 4 * e) == d + 4 * e
  {
    hide Xor;
    XorStep(d, 4 * e);
    XorStep(d / 2, 2 * e);
    XorSymmetric(0, e);
    XorZero(e);
    DisjointBits(d, e);
  }

  lemma DisjointBits(d: nat, e: nat)
    requires d < 4
    ensures 4 * e / 2 == 2 * e && 2 * e / 2 == e && d / 2 / 2 == 0 && d == d % 2 + 2 * (d / 2)
    ensures (d + 4 * e) % 2 == d % 2 && (d / 2 + 2 * e) % 2 == d / 2
  {
  }

  lemma SplitPair(d: nat, e: nat)
    requires d < 4 && e < 4
    ensures (d + 4 * e) % 4 == d && (d + 4 * e) / 4 == e && d + 4 * e < 16
  {
  }

  /** One entry: the two digits side by side. */
  function Pair(s1: seq<byte>, s2: seq<byte>, k: nat): (r: nat)
    requires |s1| == |s2| == 32 && k < 128
    ensures r < 16 && r % 4 == Digit(s1, k) && r / 4 == Digit(s2, k)
  {
    SplitPair(Digit(s1, k), Digit(s2, k));
    Digit(s1, k) + 4 * Digit(s2, k)
  }

  lemma PairsOfByte(s1: seq<byte>, s2: seq<byte>, i: nat)
    requires |s1| == |s2| == 32 && i < 32
    ensures var v, w := s1[i], s2[i];
            && Xor(v % 4, 4 * (w % 4)) == Pair(s1, s2, 4 * i)
            && Xor(v / 4 % 4, 4 * (w / 4 % 4)) == Pair(s1, s2, 4 * i + 1)
            && Xor(v / 16 % 4, 4 * (w / 16 % 4)) == Pair(s1, s2, 4 * i + 2)
            && Xor(v / 64 % 4, 4 * (w / 64 % 4)) == Pair(s1, s2, 4 * i + 3)
  {
    hide Xor;
    var v, w := s1[i], s2[i];
    XorDisjoint(v % 4, w % 4);
    XorDisjoint(v / 4 % 4, w / 4 % 4);
    XorDisjoint(v / 16 % 4, w / 16 % 4);
    XorDisjoint(v / 64 % 4, w / 64 % 4);
    DigitsOfScalar(s1, i);
    DigitsOfScalar(s2, i);
    hide Digit;
  }

  /** sc25519_2interleave2: digit k of s1 in the low bits, of s2 two bits up. */
  method Interleave2(s1: seq<byte>, s2: seq<byte>) returns (b: array<byte>)
    requires |s1| == |s2| == 32
    ensures fresh(b) && b.Length == 127
    ensures forall k :: 0 <= k < 127 ==> b[k] == Pair(s1, s2, k)
  {
    hide FourPairs, Pair;
    b := new byte[127];
    for i := 0 to 31
      invariant forall k :: 0 <= k < 4 * i ==> b[k] == Pair(s1, s2, k)
    {
      FourPairsAre(s1, s2, i);
      var p := FourPairs(s1[i], s2[i]);
      b[4 * i], b[4 * i + 1], b[4 * i + 2], b[4 * i + 3] := p[0], p[1], p[2], p[3];
    }
    FourPairsAre(s1, s2, 31);
    var p := FourPairs(s1[31], s2[31]);
    b[124], b[125], b[126] := p[0], p[1], p[2];
  }

  /** The digits of one byte of each scalar, side by side. */
  function FourPairs(v: byte, w: byte): (p: seq<byte>)
    ensures |p| == 4
  {
    XorDisjoint(v % 4, w % 4);
    XorDisjoint(v / 4 % 4, w / 4 % 4);
    XorDisjoint(v / 16 % 4, w / 16 % 4);
    XorDisjoint(v / 64 % 4, w / 64 % 4);
    [Xor(v % 4, 4 * (w % 4)), Xor(v / 4 % 4, 4 * (w / 4 % 4)), Xor(v / 16 % 4, 4 * (w / 16 % 4)), Xor(v / 64 % 4, 4 * (w / 64 % 4))]
  }

  lemma FourPairsAre(s1: seq<byte>, s2: seq<byte>, i: nat)
    requires |s1| == |s2| == 32 && i < 32
    ensures forall j :: 0 <= j < 4 ==> FourPairs(s1[i], s2[i])[j] == Pair(s1, s2, 4 * i + j)
  {
    hide Xor, Pair;
    PairsOfByte(s1, s2, i);
    var p := FourPairs(s1[i], s2[i]);
    assert p[0] == Pair(s1, s2, 4 * i + 0) && p[1] == Pair(s1, s2, 4 * i + 1);
    assert p[2] == Pair(s1, s2, 4 * i + 2) && p[3] == Pair(s1, s2, 4 * i + 3);
  }

  // ----- the main loop

  lemma QuadrupleAndAdd<G(!new)>(m: Model<G>, i: nat, j: nat, d: nat, e: nat, a: G, b: G)
    requires AbelianGroup(m)
    ensures var c := Combo(m, i, a, j, b);
            var c4 := m.plus(m.plus(c, c), m.plus(c, c));
            && c4 == Combo(m, 4 * i, a, 4 * j, b)
            && m.plus(c4, Combo(m, d, a, e, b)) == Combo(m, d + 4 * i, a, e + 4 * j, b)
  {
    hide Combo, AbelianGroup;
    ComboAdd(m, i, j, i, j, a, b);
    ComboAdd(m, 2 * i, 2 * j, 2 * i, 2 * j, a, b);
    ComboAdd(m, 4 * i, 4 * j, d, e, a, b);
  }

  /** One digit: two doublings through P2 form, whose T is stale, then an addition unless the digit is zero. */
  method Step<G(!new)>(r: Point, tp: CompletedPoint, entry: P3, skip: bool, last: bool,
                       ghost m: Model<G>, ghost g: G, ghost h: G)
    requires IsModel(m) && RepresentsProj(m, r.x, r.y, r.z, g) && Represents(m, entry, h)
    requires skip ==> h == m.zero
    modifies r, tp
    ensures RepresentsProj(m, r.x, r.y, r.z, m.plus(m.plus(m.plus(g, g), m.plus(g, g)), h))
    ensures last ==> Represents(m, r.Value(), m.plus(m.plus(m.plus(g, g), m.plus(g, g)), h))
  {
    hide Represents, RepresentsProj, Bounded, ToP3, AddPoints, DoublePoint, AbelianGroup, Homomorphic;
    ghost var g2 := m.plus(g, g);
    ghost var g4 := m.plus(g2, g2);
    DoubleRepresents(m, r.x, r.y, r.z, g);
    tp.DblP1P1(r.x, r.y, r.z);
    RepresentsForgetsT(m, ToP3(tp.Value()), g2);
    r.FromP1P1ToP2(tp);
    DoubleRepresents(m, r.x, r.y, r.z, g2);
    tp.DblP1P1(r.x, r.y, r.z);
    if !skip {
      r.FromP1P1ToP3(tp);
      AddRepresents(m, r.Value(), entry, g4, h);
      tp.AddP1P1(r.Value(), entry);
    } else {
      Units(m, g4);
    }
    RepresentsForgetsT(m, ToP3(tp.Value()), m.plus(g4, h));
    if !last {
      r.FromP1P1ToP2(tp);
    } else {
      r.FromP1P1ToP3(tp);
    }
  }

  /** [s1]p1 + [s2]p2 for all scalars, of which the 127 digits hold 254 bits, and all points of the curve. */
  method DoubleScalarMultVartime<G(!new)>(r: Point, p1: P3, s1: seq<byte>, p2: P3, s2: seq<byte>,
                                          ghost m: Model<G>, ghost a: G, ghost b: G)
    requires |s1| == |s2| == 32
    requires IsModel(m) && Represents(m, p1, a) && Represents(m, p2, b)
    modifies r
    ensures Represents(m, r.Value(), Combo(m, Scalar254(s1), a, Scalar254(s2), b))
  {
    hide Represents, RepresentsProj, Bounded, Pair, Digit, Val, IsModel, Combo;
    var tp := new CompletedPoint();
    var pre := Precompute(p1, p2, m, a, b);
    var digits := Interleave2(s1, s2);
    r.Assign(pre[digits[126]]);
    TopDigit(s1);
    TopDigit(s2);
    RepresentsForgetsT(m, r.Value(), Combo(m, Horner(s1, 126), a, Horner(s2, 126), b));
    for i := 126 downto 0
      invariant forall k :: 0 <= k < 16 ==> Entry(m, pre[k], k, a, b)
      invariant forall k :: 0 <= k < 127 ==> digits[k] == Pair(s1, s2, k)
      invariant RepresentsProj(m, r.x, r.y, r.z, Combo(m, Horner(s1, i), a, Horner(s2, i), b))
      invariant i == 0 ==> Represents(m, r.Value(), Combo(m, Horner(s1, i), a, Horner(s2, i), b))
    {
      ghost var c := Combo(m, Horner(s1, i + 1), a, Horner(s2, i + 1), b);
      ghost var h := Combo(m, Digit(s1, i), a, Digit(s2, i), b);
      DigitStep(m, s1, s2, i, a, b);
      Step(r, tp, pre[digits[i]], digits[i] == 0, i == 0, m, c, h);
    }
    FinalCombo(m, s1, s2, a, b);
  }

  lemma TopDigit(s: seq<byte>)
    requires |s| == 32
    ensures Horner(s, 126) == Digit(s, 126)
  {
    assert Horner(s, 127) == 0;
  }

  lemma DigitStep<G(!new)>(m: Model<G>, s1: seq<byte>, s2: seq<byte>, i: nat, a: G, b: G)
    requires IsModel(m) && |s1| == |s2| == 32 && i < 126
    ensures var c := Combo(m, Horner(s1, i + 1), a, Horner(s2, i + 1), b);
            m.plus(m.plus(m.plus(c, c), m.plus(c, c)), Combo(m, Digit(s1, i), a, Digit(s2, i), b))
            == Combo(m, Horner(s1, i), a, Horner(s2, i), b)
    ensures Pair(s1, s2, i) == 0 ==> Combo(m, Digit(s1, i), a, Digit(s2, i), b) == m.zero
  {
    hide Combo, Digit, AbelianGroup;
    QuadrupleAndAdd(m, Horner(s1, i + 1), Horner(s2, i + 1), Digit(s1, i), Digit(s2, i), a, b);
    ComboUnits(m, a, b);
  }

  lemma FinalCombo<G(!new)>(m: Model<G>, s1: seq<byte>, s2: seq<byte>, a: G, b: G)
    requires |s1| == |s2| == 32
    ensures Combo(m, Horner(s1, 0), a, Horner(s2, 0), b) == Combo(m, Scalar254(s1), a, Scalar254(s2), b)
  {
    hide Combo;
    AllDigits(s1);
    AllDigits(s2);
  }

  /** The digits evaluate to the scalar modulo 2^254. */
  lemma AllDigits(s: seq<byte>)
    requires |s| == 32
    ensures Horner(s, 0) == Scalar254(s)
  {
    var low := Low(s, 64);
    assert low[0..] == low;
    hide Val, Horner;
    HornerCut(s, 0);
    HornerIsVal(low, 0);
    LowIsMod(s);
  }
}

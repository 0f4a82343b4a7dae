/**
 Arithmetic modulo the order of the base point (sc25519.c): Barrett reduction of 64 bytes, and on
 top of it sums and products, on arrays of base-256 digits.
 */
module Sc25519 {
  import opened Words
  import opened Field

  /** The group order, 2^252 + 27742317777372353535851937790883648493. */
  const L: int := 0x1000_0000_0000_0000_0000_0000_0000_0000_14de_f9de_a2f7_9cd6_5812_631a_5cf5_d3ed

  const MU: int := 0xf_ffff_ffff_ffff_ffff_ffff_ffff_ffff_ffeb_2106_215d_0863_29a7_ed9c_e5a3_0a2c_131b

  const TWO_256: int := 0x1_0000_0000_0000_0000_0000_0000_0000_0000_0000_0000_0000_0000_0000_0000_0000_0000

  function Modulus(): seq<u32> {
    [0xED, 0xD3, 0xF5, 0x5C, 0x1A, 0x63, 0x12, 0x58, 0xD6, 0x9C, 0xF7, 0xA2, 0xDE, 0xF9, 0xDE, 0x14,
     0x00, 0x00, 0x00, 0x00, 0x00, 0x00, 0x00, 0x00, 0x00, 0x00, 0x00, 0x00, 0x00, 0x00, 0x00, 0x10]
  }

  function Reciprocal(): seq<u32> {
    [0x1B, 0x13, 0x2C, 0x0A, 0xA3, 0xE5, 0x9C, 0xED, 0xA7, 0x29, 0x63, 0x08, 0x5D, 0x21, 0x06, 0x21,
     0xEB, 0xFF, 0xFF, 0xFF, 0xFF, 0xFF, 0xFF, 0xFF, 0xFF, 0xFF, 0xFF, 0xFF, 0xFF, 0xFF, 0xFF, 0xFF, 0x0F]
  }

  function Sum(s: seq<int>): int {
    if s == [] then 0 else s[0] + Sum(s[1..])
  }

  predicate Bytes(s: seq<u32>) {
    forall k :: 0 <= k < |s| ==> s[k] <= 255
  }

  lemma Head(s: seq<int>, k: nat)
    requires k < |s|
    ensures Val(s[k..]) == s[k] + 256 * Val(s[k + 1..]) && Sum(s[k..]) == s[k] + Sum(s[k + 1..])
  {
    HeadVal(s, k);
    assert s[k..][1..] == s[k + 1..];
  }

  lemma EmptyDigits(s: seq<int>)
    requires |s| == 0
    ensures Val(s) == 0 && Sum(s) == 0
  {
  }

  /** Eight digits from position k as one word, and their sum. */
  function Word(s: seq<int>, k: nat): int
    requires k + 8 <= |s|
  {
    s[k] + 0x100 * s[k + 1] + 0x1_0000 * s[k + 2] + 0x100_0000 * s[k + 3] + 0x1_0000_0000 * s[k + 4]
    + 0x100_0000_0000 * s[k + 5] + 0x1_0000_0000_0000 * s[k + 6] + 0x100_0000_0000_0000 * s[k + 7]
  }

  function WordSum(s: seq<int>, k: nat): int
    requires k + 8 <= |s|
  {
    s[k] + s[k + 1] + s[k + 2] + s[k + 3] + s[k + 4] + s[k + 5] + s[k + 6] + s[k + 7]
  }

  lemma Eight(s: seq<int>, k: nat)
    requires k + 8 <= |s|
    ensures Val(s[k..]) == Word(s, k) + 0x1_0000_0000_0000_0000 * Val(s[k + 8..])
    ensures Sum(s[k..]) == WordSum(s, k) + Sum(s[k + 8..])
  {
    hide Val, Sum;
    Head(s, k);
    Head(s, k + 1);
    Head(s, k + 2);
    Head(s, k + 3);
    Head(s, k + 4);
    Head(s, k + 5);
    Head(s, k + 6);
    Head(s, k + 7);
  }

  lemma ModulusWord0()
    ensures Word(Modulus(), 0) == 0x5812_631a_5cf5_d3ed && WordSum(Modulus(), 0) == 1016
  {
  }

  lemma ModulusWord8()
    ensures Word(Modulus(), 8) == 0x14de_f9de_a2f7_9cd6 && WordSum(Modulus(), 8) == 1492
  {
  }

  lemma ModulusHigh()
    ensures Word(Modulus(), 16) == 0 && WordSum(Modulus(), 16) == 0
    ensures Word(Modulus(), 24) == 0x1000_0000_0000_0000 && WordSum(Modulus(), 24) == 16
  {
  }

  lemma ModulusIsBytes()
    ensures |Modulus()| == 32 && Bytes(Modulus())
  {
  }

  lemma ModulusIs()
    ensures |Modulus()| == 32 && Bytes(Modulus()) && Val(Modulus()) == L && Sum(Modulus()) == 2524
  {
    var s := Modulus();
    hide Val, Sum, Modulus, Word, WordSum, Bytes;
    ModulusIsBytes();
    ModulusWord0();
    ModulusWord8();
    ModulusHigh();
    EmptyDigits(s[32..]);
    Eight(s, 24);
    Eight(s, 16);
    Eight(s, 8);
    Eight(s, 0);
    assert s[0..] == s;
  }

  lemma ReciprocalWord0()
    ensures Word(Reciprocal(), 0) == 0xed9c_e5a3_0a2c_131b && WordSum(Reciprocal(), 0) == 885
  {
  }

  lemma ReciprocalWord8()
    ensures Word(Reciprocal(), 8) == 0x2106_215d_0863_29a7 && WordSum(Reciprocal(), 8) == 480
  {
  }

  lemma ReciprocalHigh()
    ensures Word(Reciprocal(), 16) == 0xffff_ffff_ffff_ffeb && WordSum(Reciprocal(), 16) == 2020
    ensures Word(Reciprocal(), 24) == 0xffff_ffff_ffff_ffff && WordSum(Reciprocal(), 24) == 2040
    ensures Reciprocal()[32] == 15
  {
  }

  lemma ReciprocalIsBytes()
    ensures |Reciprocal()| == 33 && Bytes(Reciprocal())
  {
  }

  lemma ReciprocalIs()
    ensures |Reciprocal()| == 33 && Bytes(Reciprocal()) && Val(Reciprocal()) == MU && Sum(Reciprocal()) == 5440
  {
    var s := Reciprocal();
    hide Val, Sum, Reciprocal, Word, WordSum, Bytes;
    ReciprocalIsBytes();
    ReciprocalWord0();
    ReciprocalWord8();
    ReciprocalHigh();
    EmptyDigits(s[33..]);
    Head(s, 32);
    Eight(s, 24);
    Eight(s, 16);
    Eight(s, 8);
    Eight(s, 0);
    assert s[0..] == s;
  }

  // ----- prefixes

  lemma ValPush(s: seq<int>, i: nat)
    requires i < |s|
    ensures Val(s[..i + 1]) == Val(s[..i]) + Pow256(i) * s[i]
  {
    hide Val;
    var t := s[..i + 1];
    ValSplit(t, i);
    assert t[..i] == s[..i] && t[i..] == [s[i]];
    OneDigit(s[i]);
  }

  lemma OneDigit(d: int)
    ensures Val([d]) == d
  {
    EmptyDigits([d][1..]);
  }

  lemma SumPush(s: seq<int>, i: nat)
    requires i < |s|
    ensures Sum(s[..i + 1]) == Sum(s[..i]) + s[i]
  {
    hide Sum;
    SumAppend(s[..i], s[i]);
    assert s[..i] + [s[i]] == s[..i + 1];
  }

  lemma {:induction false} SumAppend(s: seq<int>, d: int)
    ensures Sum(s + [d]) == Sum(s) + d
  {
    if s == [] {
      assert [d][1..] == [];
    } else {
      assert (s + [d])[1..] == s[1..] + [d];
      SumAppend(s[1..], d);
    }
  }

  /** Prefix sums of bytes grow. */
  lemma {:induction false} SumBelow(s: seq<u32>, i: nat)
    requires i <= |s|
    ensures 0 <= Sum(s[..i]) <= Sum(s)
    decreases |s| - i
  {
    if i < |s| {
      SumBelow(s, i + 1);
      SumPush(s, i);
      SumNonNegative(s[..i]);
    } else {
      assert s[..i] == s;
      SumNonNegative(s);
    }
  }

  lemma {:induction false} SumNonNegative(s: seq<u32>)
    ensures Sum(s) >= 0
  {
    if s != [] {
      SumNonNegative(s[1..]);
    }
  }

  // ----- one row of a product

  function Clip(j: nat, lo: nat, hi: nat): (r: nat)
    ensures lo <= hi ==> lo <= r <= hi
  {
    if j < lo then lo else if j > hi then hi else j
  }

  /** Digits before position p have been added to; none exceeds its bound. */
  predicate RowBounded(t: seq<u32>, p: nat, low: nat, high: nat) {
    forall k :: 0 <= k < |t| ==> t[k] <= if k < p then high else low
  }

  /** Multiples of c added to digits at .. of t: those of y from lo to hi. */
  method AddRow(t: array<u32>, at: nat, c: u32, y: seq<u32>, lo: nat, hi: nat, ghost most: nat, ghost ymax: nat)
    requires at + hi <= t.Length && lo <= hi <= |y|
    requires forall k :: 0 <= k < t.Length ==> t[k] <= most
    requires forall k :: 0 <= k < |y| ==> y[k] <= ymax
    requires most + c * ymax < 0x1_0000_0000
    modifies t
    ensures forall k :: 0 <= k < t.Length ==> t[k] <= most + c * ymax
    ensures forall k :: 0 <= k < at + lo ==> t[k] == old(t[k])
    ensures Val(t[..]) == Val(old(t[..])) + c * Pow256(at) * (Val(y[..hi]) - Val(y[..lo]))
  {
    hide Val, Pow256, Clip;
    ghost var start := Val(old(t[..]));
    ghost var digits: seq<int> := y;
    ghost var high := most + c * ymax;
    ProductBelow(c, 0, ymax);
    ClipIs(lo, hi);
    assert RowBounded(t[..], at, most, high);
    for j := 0 to |y|
      invariant RowBounded(t[..], at + j, most, high)
      invariant forall k :: 0 <= k < at + lo ==> t[k] == old(t[k])
      invariant Val(t[..]) == Raised(start, c, Pow256(at), Val(digits[..Clip(j, lo, hi)]) - Val(digits[..lo]))
    {
      ClipStep(j, lo, hi);
      if lo <= j < hi {
        ghost var before: seq<int> := t[..];
        ProductBelow(c, y[j], ymax);
        t[at + j] := t[at + j] + c * y[j];
        RowStep(before, at, c, c * digits[j], digits, j, lo, start);
        assert t[..] == before[at + j := before[at + j] + c * digits[j]];
      }
    }
    ClipEnd(|y|, lo, hi);
  }

  lemma ClipIs(lo: nat, hi: nat)
    requires lo <= hi
    ensures Clip(0, lo, hi) == lo
  {
  }

  lemma ClipStep(j: nat, lo: nat, hi: nat)
    requires lo <= hi
    ensures if lo <= j < hi then Clip(j, lo, hi) == j && Clip(j + 1, lo, hi) == j + 1 else Clip(j + 1, lo, hi) == Clip(j, lo, hi)
  {
  }

  lemma ClipEnd(n: nat, lo: nat, hi: nat)
    requires lo <= hi <= n
    ensures Clip(n, lo, hi) == hi
  {
  }

  lemma ProductBelow(c: nat, d: nat, most: nat)
    requires d <= most
    ensures 0 <= c * d <= c * most
  {
  }

  /** A number with c * p times another added. */
  function Raised(start: int, c: int, p: int, v: int): int {
    start + c * p * v
  }

  lemma RowStep(before: seq<int>, at: nat, c: int, x: int, digits: seq<int>, j: nat, lo: nat, start: int)
    requires j < |digits| && at + j < |before| && lo <= j && x == c * digits[j]
    requires Val(before) == Raised(start, c, Pow256(at), Val(digits[..j]) - Val(digits[..lo]))
    ensures Val(before[at + j := before[at + j] + x]) == Raised(start, c, Pow256(at), Val(digits[..j + 1]) - Val(digits[..lo]))
  {
    hide *;
    ValRaise(before, at + j, x);
    ValPush(digits, j);
    PowAdd(at, j);
    RowCollect(Val(before), Val(before[at + j := before[at + j] + x]), start, c, Pow256(at), Pow256(j), Pow256(at + j), x, digits[j],
               Val(digits[..j]), Val(digits[..j + 1]), Val(digits[..lo]));
  }

  lemma RowCollect(before: int, after: int, start: int, c: int, p: int, q: int, pq: int, x: int, d: int, v: int, v': int, w: int)
    requires before == Raised(start, c, p, v - w) && after == before + x * pq && x == c * d
    requires v' == v + q * d && pq == p * q
    ensures after == Raised(start, c, p, v' - w)
  {
    RowAlgebra2(c, p, q, d, v, w);
  }

  lemma {:induction false} PowAdd(m: nat, n: nat)
    ensures Pow256(m + n) == Pow256(m) * Pow256(n)
  {
    if m > 0 {
      PowAdd(m - 1, n);
      assert Pow256(m + n) == 256 * Pow256(m - 1 + n);
    }
  }

  lemma RowAlgebra2(c: int, p: int, q: int, d: int, v: int, w: int)
    ensures c * p * (v + q * d - w) == c * p * (v - w) + c * d * (p * q)
  {
  }

  // ----- Barrett reduction

  const QMAX: int := 1392640

  lemma Powers()
    ensures Pow256(31) == B31
    ensures Pow256(32) == TWO_256 == 256 * Pow256(31) && Pow256(33) == B33
  {
    Pow256At31();
  }

  const B31: int := 0x100_0000_0000_0000_0000_0000_0000_0000_0000_0000_0000_0000_0000_0000_0000_0000

  const B33: int := 0x100_0000_0000_0000_0000_0000_0000_0000_0000_0000_0000_0000_0000_0000_0000_0000_0000

  /** The quotient estimate is never too large, and short by at most two. */
  lemma QuotientClose(low: int, q1: int, d: int, q3: int)
    requires 0 <= low < B31 && 0 <= q1 < B33 && 0 <= d <= 31 * 255 * B31
    requires q3 == (MU * q1 - d) / B33
    ensures 0 <= low + B31 * q1 - L * q3 < 3 * L
  {
    var q := MU * q1 - d;
    assert B33 * q3 <= q < B33 * q3 + B33;
  }

  /** What one more row of mu * q1 leaves out. */
  lemma DroppedRow(i: nat, c: u32, y: seq<u32>)
    requires i < 33 && |y| == 33 && Bytes(y) && c <= 255
    ensures var lo := if i < 31 then 31 - i else 0;
            0 <= c * Pow256(i) * Val(y[..lo]) <= if i < 31 then 255 * Pow256(31) else 0
  {
    hide Val, Pow256;
    if i < 31 {
      var lo := 31 - i;
      ValOfBytes(y[..lo]);
      PowAdd(i, lo);
      BoundedProduct(c, Pow256(i), Val(y[..lo]), Pow256(lo));
    } else {
      EmptyVal(y[..0]);
    }
  }

  lemma BoundedProduct(c: int, p: int, v: int, q: int)
    requires 0 <= c <= 255 && 0 <= p && 0 <= v < q
    ensures 0 <= c * p * v <= 255 * (p * q)
  {
    assert 0 <= c * p <= 255 * p;
    assert c * p * v <= 255 * p * v;
    assert 255 * p * v == 255 * (p * v) <= 255 * (p * q);
  }

  /** The partial products of mu * q1 from coefficient 31 on, d being the sum of those left out. */
  method PartialProduct(q2: array<u32>, q1: seq<u32>) returns (ghost d: int)
    requires q2.Length == 66 && |q1| == 33 && Bytes(q1) && forall k :: 0 <= k < 66 ==> q2[k] == 0
    modifies q2
    ensures forall k :: 0 <= k < 66 ==> q2[k] <= 255 * 5440 && (k < 31 ==> q2[k] == 0)
    ensures Val(q2[..]) == MU * Val(q1) - d && 0 <= d <= 31 * (255 * Pow256(31))
  {
    hide Val, Sum, Pow256, Reciprocal, MU;
    ReciprocalIs();
    var mu := Reciprocal();
    d := 0;
    AllZero(q2[..]);
    EmptyDigits(mu[..0]);
    for i := 0 to 33
      invariant forall k :: 0 <= k < 66 ==> q2[k] <= 255 * Sum(mu[..i])
      invariant forall k :: 0 <= k < 31 ==> q2[k] == 0
      invariant Val(q2[..]) == Val(mu[..i]) * Val(q1) - d
      invariant 0 <= d <= (if i < 31 then i else 31) * (255 * Pow256(31))
    {
      var lo := if i < 31 then 31 - i else 0;
      SumBelow(mu, i);
      SumBelow(mu, i + 1);
      SumPush(mu, i);
      ghost var before := Val(q2[..]);
      AddRow(q2, i, mu[i], q1, lo, 33, 255 * Sum(mu[..i]), 255);
      DroppedRow(i, mu[i], q1);
      ValPush(mu, i);
      assert q1[..33] == q1;
      RowAdded(before, Val(q2[..]), Val(mu[..i]), Val(mu[..i + 1]), Pow256(i), mu[i], Val(q1), Val(q1[..lo]), d);
      d := d + mu[i] * Pow256(i) * Val(q1[..lo]);
    }
    assert mu[..33] == mu;
  }

  lemma RowAdded(before: int, after: int, v: int, v': int, p: int, c: int, y: int, dropped: int, d: int)
    requires before == v * y - d && after == before + c * p * (y - dropped) && v' == v + p * c
    ensures after == v' * y - (d + c * p * dropped)
  {
    RowTotal(v, p, c, y, dropped);
  }

  lemma RowTotal(v: int, p: int, c: int, y: int, dropped: int)
    ensures v * y + c * p * (y - dropped) == (v + p * c) * y - c * p * dropped
  {
  }

  lemma {:induction false} AllZero(s: seq<u32>)
    requires forall k :: 0 <= k < |s| ==> s[k] == 0
    ensures Val(s) == 0
  {
    if s != [] {
      AllZero(s[1..]);
    }
  }

  /** The carry out of coefficients 31 and 32 makes the rest the quotient by 256^33. */
  lemma CarriedQuotient(q: seq<u32>, q': seq<u32>)
    requires |q| == |q'| == 66 && forall k :: 0 <= k < 66 ==> q[k] <= 255 * 5440 && (k < 31 ==> q[k] == 0)
    requires q'[33] == q[33] + (q[32] + q[31] / 256) / 256 && forall k :: 33 < k < 66 ==> q'[k] == q[k]
    ensures Val(q'[33..]) == Val(q) / B33
  {
    hide Val, Pow256;
    ValSplit(q, 31);
    AllZero(q[..31]);
    HeadVal(q, 31);
    HeadVal(q, 32);
    Powers();
    var rest := Val(q[33..]);
    HeadVal(q, 33);
    HeadVal(q', 33);
    assert q'[34..] == q[34..];
    FloorByCarry(q[31], q[32], rest);
  }

  lemma FloorByCarry(a: int, b: int, rest: int)
    requires 0 <= a && 0 <= b
    ensures B31 * (a + 256 * (b + 256 * rest)) / B33 == rest + (b + a / 256) / 256
  {
    var c := rest + (b + a / 256) / 256;
    var x := B31 * (a + 256 * (b + 256 * rest));
    assert B33 * c <= x < B33 * (c + 1);
  }

  /** The estimate q3 of the quotient by the group order. */
  method Quotient(x: array<u32>) returns (q2: array<u32>)
    requires x.Length == 64 && Bytes(x[..])
    ensures fresh(q2) && q2.Length == 66 && forall k :: 33 <= k < 66 ==> q2[k] <= QMAX
    ensures 0 <= Val(x[..]) - L * Val(q2[33..]) < 3 * L
  {
    hide Val, Pow256;
    q2 := new u32[66](_ => 0);
    ghost var d := PartialProduct(q2, x[31..]);
    ghost var before := q2[..];
    q2[32] := q2[32] + q2[31] / 256;
    q2[33] := q2[33] + q2[32] / 256;
    CarriedQuotient(before, q2[..]);
    Powers();
    ValSplit(x[..], 31);
    assert x[..][..31] == x[..31] && x[..][31..] == x[31..];
    ValOfBytes(x[..31]);
    ValOfBytes(x[31..]);
    QuotientClose(Val(x[..31]), Val(x[31..]), d, Val(q2[33..]));
  }

  /** q3 * m, modulo 256^33, in coefficients that are not yet digits. */
  method LowProduct(r2: array<u32>, q3: seq<u32>) returns (ghost e: int)
    requires r2.Length == 33 && |q3| == 33 && forall k :: 0 <= k < 33 ==> q3[k] <= QMAX && r2[k] == 0
    modifies r2
    ensures forall k :: 0 <= k < 33 ==> r2[k] <= QMAX * 2524
    ensures Val(r2[..]) == L * Val(q3) - B33 * e
  {
    hide Val, Sum, Pow256, Modulus, L;
    ModulusIs();
    var m := Modulus();
    e := 0;
    AllZero(r2[..]);
    EmptyDigits(m[..0]);
    for i := 0 to 32
      invariant forall k :: 0 <= k < 33 ==> r2[k] <= QMAX * Sum(m[..i])
      invariant Val(r2[..]) == Val(m[..i]) * Val(q3) - B33 * e
    {
      SumBelow(m, i);
      SumBelow(m, i + 1);
      SumPush(m, i);
      AddRow(r2, i, m[i], q3, 0, 33 - i, QMAX * Sum(m[..i]), QMAX);
      ValPush(m, i);
      EmptyVal(q3[..0]);
      HighPart(m[i], q3, i);
      RowTotal(Val(m[..i]), Pow256(i), m[i], Val(q3), Val(q3) - Val(q3[..33 - i]));
      e := e + m[i] * Val(q3[33 - i..]);
    }
    assert m[..32] == m;
  }

  lemma HighPart(c: int, q3: seq<u32>, i: nat)
    requires i <= 33 && |q3| == 33
    ensures c * Pow256(i) * (Val(q3) - Val(q3[..33 - i])) == B33 * (c * Val(q3[33 - i..]))
  {
    hide Val, Pow256;
    ValSplit(q3, 33 - i);
    PowAdd(i, 33 - i);
    Powers();
    HighAlgebra(c, Pow256(i), Pow256(33 - i), Val(q3[33 - i..]));
  }

  lemma HighAlgebra(c: int, p: int, q: int, v: int)
    ensures c * p * (q * v) == p * q * (c * v)
  {
  }

  // ----- carries and borrows

  /** Carry digits 0 .. n upwards; the number stays, the digits carried from become bytes. */
  method CarryDigits(t: array<u32>, n: nat, ghost most: nat)
    requires n < t.Length && most <= 0xf000_0000 && forall k :: 0 <= k < t.Length ==> t[k] <= most
    modifies t
    ensures Val(t[..]) == Val(old(t[..]))
    ensures forall k :: 0 <= k < n ==> t[k] <= 255
    ensures forall k :: n < k < t.Length ==> t[k] == old(t[k])
  {
    hide Val;
    for i := 0 to n
      invariant Val(t[..]) == Val(old(t[..]))
      invariant forall k :: 0 <= k < i ==> t[k] <= 255
      invariant t[i] <= most + 0x100_0000 && forall k :: i < k < t.Length ==> t[k] == old(t[k])
    {
      ghost var before: seq<int> := t[..];
      var carry := t[i] / 256;
      t[i + 1] := t[i + 1] + carry;
      ghost var between: seq<int> := t[..];
      t[i] := t[i] % 256;
      CarryKeeps(before, between, t[..], i);
    }
  }

  lemma CarryKeeps(before: seq<int>, between: seq<int>, after: seq<int>, i: nat)
    requires i + 1 < |before| && between == before[i + 1 := before[i + 1] + before[i] / 256]
    requires after == between[i := before[i] % 256]
    ensures Val(after) == Val(before)
  {
    hide Val, Pow256;
    PowNext(i);
    ValUpdate(before, i + 1, before[i + 1] + before[i] / 256);
    ValUpdate(between, i, before[i] % 256);
    CarryAlgebra(before[i], Pow256(i));
  }

  lemma CarryAlgebra(d: int, p: int)
    ensures d / 256 * (256 * p) + (d % 256 - d) * p == 0
  {
    assert d == 256 * (d / 256) + d % 256;
  }

  function Lt(a: u32, b: u32): (r: u32)
    requires a < 0x1_0000 && b < 0x1_0000
    ensures r == if a < b then 1 else 0
  {
    Sub32(a, b) / 0x8000_0000
  }

  /** a - b on the first 32 digits, into t; the final borrow says that it went below zero. */
  method Subtract(t: array<u32>, a: seq<u32>, b: seq<u32>) returns (borrow: u32)
    requires t.Length == 32 && |a| >= 32 && |b| >= 32
    requires forall k :: 0 <= k < 32 ==> a[k] <= 255 && b[k] <= 255
    modifies t
    ensures borrow <= 1 && Bytes(t[..])
    ensures Val(t[..]) == Val(a[..32]) - Val(b[..32]) + borrow * TWO_256
  {
    hide Val, Pow256, Sub32, Lt;
    var pb: u32 := 0;
    EmptyVal(a[..0]);
    EmptyVal(b[..0]);
    EmptyVal(t[..0]);
    for i := 0 to 32
      invariant pb <= 1 && forall k :: 0 <= k < i ==> t[k] <= 255
      invariant Val(t[..i]) == Val(a[..i]) - Val(b[..i]) + pb * Pow256(i)
    {
      ghost var done := t[..i];
      pb := pb + b[i];
      var bit := Lt(a[i], pb);
      ghost var start := pb - b[i];
      t[i] := a[i] + bit * 256 - pb;
      assert t[..i] == done;
      ValPush(t[..], i);
      assert t[..][..i + 1] == t[..i + 1] && t[..][..i] == t[..i];
      ValPush(a, i);
      ValPush(b, i);
      BorrowAlgebra(Pow256(i), a[i], b[i], start, bit);
      PowNext(i);
      pb := bit;
    }
    Powers();
    assert t[..32] == t[..];
    borrow := pb;
  }

  lemma PowNext(i: nat)
    ensures Pow256(i + 1) == 256 * Pow256(i)
  {
  }

  lemma BorrowAlgebra(p: int, a: int, b: int, start: int, bit: int)
    ensures p * (a + bit * 256 - (start + b)) == p * a - p * b - start * p + bit * (256 * p)
  {
  }

  /** One conditional subtraction of the group order, by mask instead of branch. */
  method ReduceAddSub(r: array<u32>)
    requires r.Length == 32 && Bytes(r[..])
    modifies r
    ensures Bytes(r[..])
    ensures Val(r[..]) == Val(old(r[..])) - (if Val(old(r[..])) >= L then L else 0)
  {
    hide Val, Modulus, Sum, Bytes, L;
    ModulusIs();
    var m := Modulus();
    ghost var r0 := r[..];
    var t := new u32[32](_ => 0);
    BytesAt(r0);
    BytesAt(m);
    var b := Subtract(t, r[..], m);
    assert r0[..32] == r0 && m[..32] == m;
    BorrowDecides(r0, t[..], b);
    Select(r, t, b);
  }

  lemma BytesAt(s: seq<u32>)
    ensures Bytes(s) <==> forall k :: 0 <= k < |s| ==> s[k] <= 255
  {
  }

  lemma BorrowDecides(r: seq<u32>, t: seq<u32>, b: u32)
    requires |r| == |t| == 32 && Bytes(r) && Bytes(t) && b <= 1 && Val(t) == Val(r) - L + b * TWO_256
    ensures b == 0 <==> Val(r) >= L
  {
    hide Val;
    ValOfBytes(r);
    ValOfBytes(t);
    Powers();
  }

  /** Copy t over r unless the subtraction borrowed. */
  method Select(r: array<u32>, t: array<u32>, b: u32)
    requires r.Length == t.Length == 32 && r != t && Bytes(r[..]) && Bytes(t[..]) && b <= 1
    modifies r
    ensures r[..] == if b == 0 then t[..] else old(r[..])
  {
    hide Xor, And, Sub32;
    MaskOf(b);
    var mask := Sub32(b, 1);
    for i := 0 to 32
      invariant forall k :: 0 <= k < i ==> r[k] == if b == 0 then t[k] else old(r[k])
      invariant forall k :: i <= k < 32 ==> r[k] == old(r[k])
    {
      MaskedXor(r[i], t[i]);
      r[i] := Xor(r[i], And(mask, Xor(r[i], t[i])));
    }
  }

  lemma MaskOf(b: u32)
    requires b <= 1
    ensures Sub32(b, 1) == if b == 0 then 0xffff_ffff else 0
  {
  }

  lemma RemainderIs(x: int, xlow: int, xhigh: int, lq: int, p: int, plow: int, ptop: int, e: int, borrow: int, v: int)
    requires x == xlow + TWO_256 * xhigh && p == plow + TWO_256 * ptop && p == lq - B33 * e
    requires v == xlow - plow + borrow * TWO_256 && 0 <= v < TWO_256
    requires 0 <= x - lq < 3 * L
    ensures v == x - lq
  {
    var k := ptop + 256 * e - xhigh + borrow;
    assert v == x - lq + TWO_256 * k;
  }

  /** barrett_reduce: for every 64 bytes, the remainder modulo the group order. */
  method BarrettReduce(r: array<u32>, x: array<u32>)
    requires r.Length == 32 && x.Length == 64 && r != x && Bytes(x[..])
    modifies r
    ensures Bytes(r[..]) && Val(r[..]) == Val(x[..]) % L
  {
    hide Val, Pow256;
    var q2 := Quotient(x);
    var q3 := q2[33..];
    var r2 := new u32[33](_ => 0);
    ghost var e := LowProduct(r2, q3);
    ghost var p := Val(r2[..]);
    CarryDigits(r2, 32, QMAX * 2524);
    var borrow := Subtract(r, x[..33], r2[..]);
    ghost var v := Val(r[..]);
    ValSplit(x[..], 32);
    assert x[..33][..32] == x[..][..32];
    ValSplit(r2[..], 32);
    assert r2[..][32..] == [r2[32]];
    OneDigit(r2[32]);
    ValOfBytes(r[..]);
    Powers();
    RemainderIs(Val(x[..]), Val(x[..33][..32]), Val(x[..][32..]), L * Val(q3), p, Val(r2[..][..32]), r2[32], e, borrow, v);
    ReduceAddSub(r);
    ReduceAddSub(r);
    RemainderUnique(Val(x[..]), Val(q3), Val(r[..]));
  }

  lemma RemainderUnique(x: int, q: int, r: int)
    requires 0 <= r < L && (x - L * q == r || x - L * q == r + L || x - L * q == r + 2 * L)
    ensures r == x % L
  {
    var k := if x - L * q == r then q else if x - L * q == r + L then q + 1 else q + 2;
    assert x == L * k + r;
    QuotientUnique(x, k, r);
  }

  lemma QuotientUnique(x: int, k: int, r: int)
    requires 0 <= r < L && x == L * k + r
    ensures x % L == r
  {
    assert x / L == k;
  }

  // ----- the exported operations

  /** A reduced scalar: 32 digits that are bytes, below the group order. */
  predicate Reduced(v: seq<u32>) {
    |v| == 32 && Bytes(v) && Val(v) < L
  }

  method From32Bytes(r: array<u32>, x: seq<byte>)
    requires r.Length == 32 && |x| == 32
    modifies r
    ensures Reduced(r[..]) && Val(r[..]) == Val(x) % L
  {
    hide Val;
    var t := new u32[64](_ => 0);
    for i := 0 to 32
      modifies t
      invariant forall k :: 0 <= k < 64 ==> t[k] == if k < i then x[k] else 0
    {
      t[i] := x[i];
    }
    PaddedVal(t[..], x);
    BarrettReduce(r, t);
  }

  /** Zeros above 32 digits do not change the number. */
  lemma PaddedVal(t: seq<u32>, x: seq<byte>)
    requires |t| == 64 && |x| == 32 && forall k :: 0 <= k < 64 ==> t[k] == if k < 32 then x[k] else 0
    ensures Val(t) == Val(x)
  {
    hide Val, Pow256;
    ValSplit(t, 32);
    assert t[..32] == x;
    AllZero(t[32..]);
  }

  method From64Bytes(r: array<u32>, x: seq<byte>)
    requires r.Length == 32 && |x| == 64
    modifies r
    ensures Reduced(r[..]) && Val(r[..]) == Val(x) % L
  {
    hide Val;
    var t := new u32[64](_ => 0);
    for i := 0 to 64
      modifies t
      invariant forall k :: 0 <= k < i ==> t[k] == x[k]
    {
      t[i] := x[i];
    }
    assert t[..] == x;
    BarrettReduce(r, t);
  }

  method To32Bytes(x: array<u32>) returns (r: array<byte>)
    requires x.Length == 32 && Bytes(x[..])
    ensures fresh(r) && r[..] == x[..]
  {
    r := new byte[32](_ => 0);
    for i := 0 to 32
      invariant forall k :: 0 <= k < i ==> r[k] == x[k]
    {
      r[i] := x[i];
    }
  }

  /** r = x + y modulo the group order; r may be x or y. */
  method Add(r: array<u32>, x: array<u32>, y: array<u32>)
    requires r.Length == x.Length == y.Length == 32 && Reduced(x[..]) && Reduced(y[..])
    modifies r
    ensures Reduced(r[..]) && Val(r[..]) == (Val(old(x[..])) + Val(old(y[..]))) % L
  {
    hide Val, Pow256;
    ghost var x0, y0 := x[..], y[..];
    AddDigits(r, x, y);
    CarryDigits(r, 31, 510);
    ValOfBytes(x0);
    ValOfBytes(y0);
    TopDigitSmall(r[..]);
    ReduceAddSub(r);
    SumRemainder(Val(x0) + Val(y0), Val(r[..]));
  }

  lemma SumRemainder(a: int, r: int)
    requires 0 <= r < L && (a == r || a == r + L)
    ensures r == a % L
  {
  }

  method AddDigits(r: array<u32>, x: array<u32>, y: array<u32>)
    requires r.Length == x.Length == y.Length == 32 && Bytes(x[..]) && Bytes(y[..])
    modifies r
    ensures Val(r[..]) == Val(old(x[..])) + Val(old(y[..])) && forall k :: 0 <= k < 32 ==> r[k] <= 510
  {
    hide Val;
    ghost var x0, y0 := x[..], y[..];
    for i := 0 to 32
      invariant forall k :: 0 <= k < i ==> r[k] == x0[k] + y0[k]
      invariant forall k :: i <= k < 32 ==> x[k] == x0[k] && y[k] == y0[k]
    {
      r[i] := x[i] + y[i];
    }
    ValLinear(r[..], x0, y0, 1);
  }

  lemma TopDigitSmall(r: seq<u32>)
    requires |r| == 32 && Val(r) < TWO_256 && forall k :: 0 <= k < 31 ==> r[k] <= 255
    ensures r[31] <= 255
  {
    hide Val, Pow256;
    ValSplit(r, 31);
    assert r[31..] == [r[31]];
    OneDigit(r[31]);
    ValOfBytes(r[..31]);
    Powers();
  }

  /** r = x * y modulo the group order; r may be x or y. */
  method Mul(r: array<u32>, x: array<u32>, y: array<u32>)
    requires r.Length == x.Length == y.Length == 32 && Reduced(x[..]) && Reduced(y[..])
    modifies r
    ensures Reduced(r[..]) && Val(r[..]) == (Val(old(x[..])) * Val(old(y[..]))) % L
  {
    hide Val, Pow256;
    ghost var x0, y0 := x[..], y[..];
    var t := new u32[64](_ => 0);
    AllZero(t[..]);
    EmptyVal(x0[..0]);
    EmptyVal(y0[..0]);
    for i := 0 to 32
      modifies t
      invariant forall k :: 0 <= k < 64 ==> t[k] <= 65025 * i
      invariant Val(t[..]) == Val(x0[..i]) * Val(y0)
    {
      ByteProduct(x[i], 255);
      AddRow(t, i, x[i], y[..], 0, 32, 65025 * i, 255);
      ValPush(x0, i);
      assert y0[..32] == y0 && y[..] == y0;
      RowTotal(Val(x0[..i]), Pow256(i), x0[i], Val(y0), 0);
    }
    assert x0[..32] == x0;
    CarryDigits(t, 63, 65025 * 32);
    ProductFits(t[..], x0, y0);
    BarrettReduce(r, t);
  }

  lemma ProductFits(t: seq<u32>, x: seq<u32>, y: seq<u32>)
    requires |t| == 64 && |x| == |y| == 32 && Bytes(x) && Bytes(y) && Val(t) == Val(x) * Val(y)
    requires forall k :: 0 <= k < 63 ==> t[k] <= 255
    ensures Bytes(t)
  {
    hide Val, Pow256;
    ValOfBytes(x);
    ValOfBytes(y);
    ValSplit(t, 63);
    assert t[63..] == [t[63]];
    OneDigit(t[63]);
    ValOfBytes(t[..63]);
    PowAdd(32, 32);
    PowNext(63);
    TopOfProduct(Val(x), Val(y), Pow256(32), Pow256(63), Val(t[..63]), t[63]);
  }

  lemma LessProduct(x: int, y: int, p: int)
    requires 0 <= x < p && 0 <= y < p
    ensures x * y < p * p
  {
    assert x * y <= x * p;
    assert x * p < p * p;
  }

  lemma MoreProduct(q: int, top: int)
    requires 0 < q
    ensures top >= 256 ==> q * top >= 256 * q
  {
  }

  lemma TopOfProduct(x: int, y: int, p: int, q: int, low: int, top: int)
    requires 0 <= x < p && 0 <= y < p && p * p == 256 * q && 0 <= low && x * y == low + q * top && 0 < q
    ensures top <= 255
  {
    LessProduct(x, y, p);
    MoreProduct(q, top);
  }
}

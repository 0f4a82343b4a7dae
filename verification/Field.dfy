/**
 Arithmetic modulo 2^255 - 19 on 32 little-endian limbs of radix 2^8 with lazy carries, as
 functions on limb sequences, each tied to the integer the limbs stand for.  Module Fe25519
 holds the in-place array code that refines these functions.
 */
module Field {
  import opened Words

  const P: int := 0x7fff_ffff_ffff_ffff_ffff_ffff_ffff_ffff_ffff_ffff_ffff_ffff_ffff_ffff_ffff_ffed

  const TWO_255: int := 0x8000_0000_0000_0000_0000_0000_0000_0000_0000_0000_0000_0000_0000_0000_0000_0000

  // ----- the integer a limb sequence stands for

  function Pow256(n: nat): nat {
    if n == 0 then 1 else 256 * Pow256(n - 1)
  }

  function Val(v: seq<int>): int {
    if |v| == 0 then 0 else v[0] + 256 * Val(v[1..])
  }

  /** The bound every operation expects and re-establishes: bytes, with 128 allowed in the top limb. */
  predicate Bounded(v: seq<u32>) {
    |v| == 32 && (forall k :: 0 <= k < 31 ==> v[k] <= 255) && v[31] <= 128
  }

  type Fe = v: seq<u32> | Bounded(v) witness ZeroLimbs()

  function ZeroLimbs(): (v: seq<u32>)
    ensures Bounded(v)
  {
    seq(32, _ => 0)
  }

  lemma Pow256At31()
    ensures 128 * Pow256(31) == TWO_255 == P + 19
    ensures Pow256(32) == 2 * P + 38
  {
    assert Pow256(8) == 0x1_0000_0000_0000_0000;
    assert Pow256(16) == Pow256(8) * Pow256(8);
    assert Pow256(24) == Pow256(16) * Pow256(8);
    assert Pow256(31) == Pow256(24) * 0x100_0000_0000_0000;
  }

  lemma {:induction false} ValUpdate(v: seq<int>, i: nat, x: int)
    requires i < |v|
    ensures Val(v[i := x]) == Val(v) + (x - v[i]) * Pow256(i)
  {
    if i == 0 {
      assert v[0 := x][1..] == v[1..];
    } else {
      assert v[i := x][1..] == v[1..][i - 1 := x];
      ValUpdate(v[1..], i - 1, x);
      assert 256 * ((x - v[i]) * Pow256(i - 1)) == (x - v[i]) * Pow256(i);
    }
  }

  lemma ValRaise(v: seq<int>, i: nat, x: int)
    requires i < |v|
    ensures Val(v[i := v[i] + x]) == Val(v) + x * Pow256(i)
  {
    ValUpdate(v, i, v[i] + x);
  }

  lemma {:induction false} ValSplit(v: seq<int>, n: nat)
    requires n <= |v|
    ensures Val(v) == Val(v[..n]) + Pow256(n) * Val(v[n..])
  {
    if n == 0 {
      assert v[0..] == v;
    } else {
      ValSplit(v[1..], n - 1);
      assert v[..n][1..] == v[1..][..n - 1];
      assert v[1..][n - 1..] == v[n..];
      assert 256 * (Pow256(n - 1) * Val(v[n..])) == Pow256(n) * Val(v[n..]);
    }
  }

  /** Limb-wise a + c * b, where b may be shorter than a. */
  lemma {:induction false} ValLinear(r: seq<int>, a: seq<int>, b: seq<int>, c: int)
    requires |r| == |a| && |b| <= |a|
    requires forall k :: 0 <= k < |a| ==> r[k] == a[k] + (if k < |b| then c * b[k] else 0)
    ensures Val(r) == Val(a) + c * Val(b)
  {
    if |a| == 0 {
    } else if |b| == 0 {
      ValLinear(r[1..], a[1..], [], c);
    } else {
      ValLinear(r[1..], a[1..], b[1..], c);
      assert c * (b[0] + 256 * Val(b[1..])) == c * b[0] + 256 * (c * Val(b[1..]));
    }
  }

  lemma {:induction false} ValOfBytes(v: seq<int>)
    requires forall k :: 0 <= k < |v| ==> 0 <= v[k] <= 255
    ensures 0 <= Val(v) < Pow256(|v|)
    ensures Val(v) == Pow256(|v|) - 1 <==> forall k :: 0 <= k < |v| ==> v[k] == 255
  {
    if |v| > 0 {
      var w := v[1..];
      ValOfBytes(w);
      if Val(v) == Pow256(|v|) - 1 {
        assert v[0] == 255 && Val(w) == Pow256(|w|) - 1;
        assert forall k :: 0 < k < |v| ==> v[k] == w[k - 1];
      }
    }
  }

  lemma {:induction false} ValInjective(v: seq<int>, w: seq<int>)
    requires |v| == |w| && Val(v) == Val(w)
    requires forall k :: 0 <= k < |v| ==> 0 <= v[k] <= 255 && 0 <= w[k] <= 255
    ensures v == w
  {
    if |v| > 0 {
      assert v[0] == Val(v) % 256 && w[0] == Val(w) % 256;
      ValInjective(v[1..], w[1..]);
      assert v == [v[0]] + v[1..] && w == [w[0]] + w[1..];
    }
  }

  // ----- carries

  const WIDE: int := 0x800_0000

  predicate Wide(v: seq<u32>) {
    |v| == 32 && forall k :: 0 <= k < 32 ==> v[k] <= WIDE
  }

  /** Limbs from i on are small enough to start carrying at limb i. */
  predicate CanCarry(v: seq<u32>, i: nat) {
    |v| == 32 && i <= 31 && v[i] <= 2 * WIDE && forall k :: i < k < 32 ==> v[k] <= WIDE
  }

  function CarryStep(v: seq<u32>, i: nat): (r: seq<u32>)
    requires CanCarry(v, i) && i < 31
    ensures CanCarry(r, i + 1)
    ensures r[i] == v[i] % 256 && r[i + 1] == v[i + 1] + v[i] / 256
    ensures forall k :: 0 <= k < 32 && k != i && k != i + 1 ==> r[k] == v[k]
  {
    v[i + 1 := v[i + 1] + v[i] / 256][i := v[i] % 256]
  }

  /** The carry loop of reduce_add_sub and reduce_mul from limb i on. */
  function Carry(v: seq<u32>, i: nat): (r: seq<u32>)
    requires CanCarry(v, i)
    ensures |r| == 32
    decreases 31 - i
  {
    if i == 31 then v else Carry(CarryStep(v, i), i + 1)
  }

  lemma CarryStepVal(v: seq<u32>, i: nat)
    requires CanCarry(v, i) && i < 31
    ensures Val(CarryStep(v, i)) == Val(v)
  {
    hide Val;
    var t: int := v[i] / 256;
    var w: seq<u32> := v[i + 1 := v[i + 1] + v[i] / 256];
    ValUpdate(v, i + 1, v[i + 1] + v[i] / 256);
    ValUpdate(w, i, v[i] % 256);
    CarryMoves(v[i], v[i] % 256, t, Pow256(i));
  }

  lemma CarryMoves(x: int, r: int, t: int, p: int)
    requires x == r + 256 * t
    ensures (r - x) * p + t * (256 * p) == 0
  {
  }

  lemma {:induction false} CarryVal(v: seq<u32>, i: nat)
    requires CanCarry(v, i)
    ensures Val(Carry(v, i)) == Val(v)
    decreases 31 - i
  {
    if i < 31 {
      CarryStepVal(v, i);
      CarryVal(CarryStep(v, i), i + 1);
    }
  }

  lemma {:induction false} CarryBounds(v: seq<u32>, i: nat)
    requires CanCarry(v, i)
    ensures forall k :: 0 <= k < i ==> Carry(v, i)[k] == v[k]
    ensures forall k :: i <= k < 31 ==> Carry(v, i)[k] <= 255
    ensures v[31] <= Carry(v, i)[31] <= v[31] + 0x10_0000
    decreases 31 - i
  {
    if i < 31 {
      CarryBounds(CarryStep(v, i), i + 1);
    }
  }

  /** Over bytes, a limb below 512 carries at most one all the way up. */
  lemma {:induction false} CarryByOne(v: seq<u32>, i: nat)
    requires CanCarry(v, i) && 0 < i
    requires v[i] <= (if i < 31 then 511 else 128) && forall k :: i < k < 31 ==> v[k] <= 255
    requires v[31] <= (if i < 31 then 127 else 128)
    ensures Carry(v, i)[31] <= 128
    decreases 31 - i
  {
    if i < 31 {
      CarryByOne(CarryStep(v, i), i + 1);
    }
  }

  function Times19(a: u32): u32
    requires a <= WIDE
  {
    a * 16 + a * 2 + a
  }

  function Times38(a: u32): u32
    requires a <= 4 * 0x10_0000
  {
    a * 32 + a * 4 + a * 2
  }

  /** One round of the reduction loop: fold bits 255 and up back in, then carry. */
  function Pass(v: seq<u32>): (r: seq<u32>)
    requires Wide(v)
    ensures |r| == 32
  {
    var t: int := v[31] / 128;
    var w: seq<u32> := v[31 := v[31] % 128];
    Carry(w[0 := w[0] + Times19(t)], 0)
  }

  lemma PassVal(v: seq<u32>)
    requires Wide(v)
    ensures Val(Pass(v)) == Val(v) - (v[31] / 128) * P
  {
    hide Val, Carry;
    var t: int := v[31] / 128;
    var w: seq<u32> := v[31 := v[31] % 128];
    ValUpdate(v, 31, v[31] % 128);
    ValUpdate(w, 0, w[0] + Times19(v[31] / 128));
    assert v[31] % 128 == v[31] - 128 * t;
    Pow256At31();
    assert 128 * t * Pow256(31) == t * (P + 19);
    CarryVal(w[0 := w[0] + Times19(v[31] / 128)], 0);
  }

  lemma PassBounds(v: seq<u32>)
    requires Wide(v)
    ensures forall k :: 0 <= k < 31 ==> Pass(v)[k] <= 255
    ensures Pass(v)[31] <= 127 + 0x10_0000
    ensures (forall k :: 0 <= k < 31 ==> v[k] <= 255) && v[31] <= 127 + 0x10_0000 ==> Bounded(Pass(v))
  {
    hide Carry;
    var w: seq<u32> := v[31 := v[31] % 128];
    var u: seq<u32> := w[0 := w[0] + Times19(v[31] / 128)];
    CarryBounds(u, 0);
    if (forall k :: 0 <= k < 31 ==> v[k] <= 255) && v[31] <= 127 + 0x10_0000 {
      CarryOverBytes(u);
    }
  }

  /** A wide lowest limb over bytes still carries at most one into the top limb. */
  lemma CarryOverBytes(u: seq<u32>)
    requires CanCarry(u, 0) && u[0] <= 255 + 19 * 0x2001 && u[31] <= 127
    requires forall k :: 1 <= k < 31 ==> u[k] <= 255
    ensures Carry(u, 0)[31] <= 128
  {
    hide CarryStep;
    var u1 := CarryStep(u, 0);
    var u2 := CarryStep(u1, 1);
    assert Carry(u, 0) == Carry(u1, 1) == Carry(u2, 2);
    CarryByOne(u2, 2);
  }

  /** For bounded limbs, staying below 2^255 is the same as a top limb below 128. */
  lemma TopLimb(v: seq<u32>)
    requires Bounded(v)
    ensures 0 <= Val(v) < TWO_255 + Pow256(31)
    ensures Val(v) < TWO_255 <==> v[31] <= 127
    ensures Val(v) == Val(v[..31]) + Pow256(31) * v[31] && 0 <= Val(v[..31]) < Pow256(31)
  {
    Pow256At31();
    ValSplit(v, 31);
    ValOfBytes(v[..31]);
    assert v[31..] == [v[31]];
    assert Val(v[31..]) == v[31] + 256 * Val([]);
  }

  /** A round started on bounded limbs ends below 2^255. */
  lemma PassSettles(v: seq<u32>)
    requires Bounded(v)
    ensures Bounded(Pass(v)) && Val(Pass(v)) < TWO_255
  {
    hide Val, Pass;
    PassVal(v);
    PassBounds(v);
    TopLimb(v);
    Pow256At31();
    TopLimb(Pass(v));
  }

  lemma FourPasses(v: seq<u32>)
    requires Wide(v)
    ensures Wide(Pass(v)) && Wide(Pass(Pass(v))) && Wide(Pass(Pass(Pass(v))))
    ensures var r := Pass(Pass(Pass(Pass(v)))); Bounded(r) && 0 <= Val(r) < TWO_255 && Val(r) % P == Val(v) % P
  {
    hide Pass, Val;
    var v1 := Pass(v);
    PassVal(v);
    PassBounds(v);
    var v2 := Pass(v1);
    PassVal(v1);
    PassBounds(v1);
    var v3 := Pass(v2);
    PassVal(v2);
    PassSettles(v2);
    PassVal(v3);
    PassSettles(v3);
    TopLimb(Pass(v3));
    var folded: int := v[31] / 128 + v1[31] / 128 + v2[31] / 128 + v3[31] / 128;
    ModShift(Val(v), -folded);
  }

  /** The four rounds of reduce_add_sub. */
  function ReduceAddSub(v: seq<u32>): (r: seq<u32>)
    requires Wide(v)
    ensures Bounded(r) && 0 <= Val(r) < TWO_255
    ensures Val(r) % P == Val(v) % P
  {
    FourPasses(v);
    Pass(Pass(Pass(Pass(v))))
  }

  /** By how much a second round can leave 2^255 behind: 19 times the largest quotient. */
  const SLACK: int := 155648

  /** A round over bytes with a wide top limb ends little above 2^255. */
  lemma PassSlack(v: seq<u32>)
    requires Wide(v) && v[31] <= 127 + 0x10_0000 && forall k :: 0 <= k < 31 ==> v[k] <= 255
    ensures Val(Pass(v)) == Val(v) % TWO_255 + 19 * (v[31] / 128) && Val(v) / TWO_255 == v[31] / 128
    ensures 0 <= Val(Pass(v)) < TWO_255 + SLACK
  {
    hide Val, Pass;
    PassVal(v);
    Pow256At31();
    ValSplit(v, 31);
    ValOfBytes(v[..31]);
    assert v[31..] == [v[31]];
    SingleVal(v[31]);
    hide Pow256;
    TopFloor(Val(v[..31]), Pow256(31), v[31]);
    SlackOf(Val(v), v[31] / 128, Val(v) % TWO_255);
  }

  /** The bits of the top limb from 2^255 on. */
  lemma TopFloor(low: int, p: int, top: int)
    requires 128 * p == TWO_255 && 0 <= low < p && top >= 0
    ensures (low + p * top) / TWO_255 == top / 128
  {
    var q, r := top / 128, top % 128;
    assert p * top == q * TWO_255 + p * r;
    assert 0 <= p * r <= 127 * p;
    FloorIs(low + p * top, q, low + p * r);
  }

  lemma SlackOf(a: int, q: int, r: int)
    requires a / TWO_255 == q && a % TWO_255 == r && 0 <= q <= (127 + 0x10_0000) / 128
    ensures a - q * P == r + 19 * q && 0 <= a - q * P < TWO_255 + SLACK
  {
  }

  lemma SingleVal(d: int)
    ensures Val([d]) == d
  {
    assert Val([d]) == d + 256 * Val([]);
  }

  lemma FloorIs(a: int, q: int, r: int)
    requires a == q * TWO_255 + r && 0 <= r < TWO_255
    ensures a / TWO_255 == q && a % TWO_255 == r
  {
  }

  lemma TwoPasses(v: seq<u32>)
    requires Wide(v)
    ensures Wide(Pass(v)) && Bounded(Pass(Pass(v))) && Val(Pass(Pass(v))) % P == Val(v) % P
    ensures 0 <= Val(Pass(Pass(v))) < TWO_255 + SLACK
  {
    hide Pass, Val;
    var v1 := Pass(v);
    PassVal(v);
    PassBounds(v);
    PassVal(v1);
    PassBounds(v1);
    PassSlack(v1);
    var folded: int := v[31] / 128 + v1[31] / 128;
    ModShift(Val(v), -folded);
  }

  /** The two rounds of reduce_mul, which bound the limbs but may leave a value of 2^255 or more. */
  function ReduceMul(v: seq<u32>): (r: seq<u32>)
    requires Wide(v)
    ensures Bounded(r) && 0 <= Val(r) < TWO_255 + SLACK
    ensures Val(r) % P == Val(v) % P
  {
    TwoPasses(v);
    Pass(Pass(v))
  }

  lemma ModShift(a: int, k: int)
    ensures (a + k * P) % P == a % P
  {
    var q, r := a / P, a % P;
    assert a + k * P == (q + k) * P + r;
    DivModUnique(a + k * P, q + k, r);
  }

  lemma DivModUnique(a: int, q: int, r: int)
    requires a == q * P + r && 0 <= r < P
    ensures a % P == r
  {
    var d := a / P - q;
    assert d * P == r - a % P;
  }

  // ----- addition, subtraction, multiplication

  function AddLimbs(x: Fe, y: Fe): (r: seq<u32>)
    ensures Wide(r)
  {
    seq(32, k requires 0 <= k < 32 => x[k] + y[k])
  }

  /** What is added before subtracting: 2p, limb by limb large enough to keep every limb non-negative. */
  function SubBias(k: int): u32 {
    if k == 0 then 0x1da else if k == 31 then 0xfe else 0x1fe
  }

  function SubLimbs(x: Fe, y: Fe): (r: seq<u32>)
    ensures Wide(r)
  {
    seq(32, k requires 0 <= k < 32 => x[k] + SubBias(k) - y[k])
  }

  lemma BiasIsTwiceP()
    ensures Val(seq(32, k => SubBias(k))) == 2 * P
  {
    var ones := seq(31, k => 255);
    ValOfBytes(ones);
    var full := ones + [127];
    ValSplit(full, 31);
    assert full[..31] == ones && full[31..] == [127];
    assert Val([127]) == 127 + 256 * Val([]);
    Pow256At31();
    assert Val(full) == P + 18;
    ValUpdate(full, 0, 237);
    assert Pow256(0) == 1;
    var p := full[0 := 237];
    ValLinear(seq(32, k => SubBias(k)), p, p, 1);
  }

  lemma AddCorrect(x: Fe, y: Fe)
    ensures Val(ReduceAddSub(AddLimbs(x, y))) % P == (Val(x) + Val(y)) % P
  {
    hide Val, ReduceAddSub;
    ValLinear(AddLimbs(x, y), x, y, 1);
  }

  function FeAdd(x: Fe, y: Fe): (r: Fe)
    ensures 0 <= Val(r) < TWO_255
    ensures Val(r) % P == (Val(x) + Val(y)) % P
  {
    AddCorrect(x, y);
    ReduceAddSub(AddLimbs(x, y))
  }

  lemma SubCorrect(x: Fe, y: Fe)
    ensures Val(ReduceAddSub(SubLimbs(x, y))) % P == (Val(x) - Val(y)) % P
  {
    hide Val, ReduceAddSub;
    var bias := seq(32, k => SubBias(k));
    var t := seq(32, k requires 0 <= k < 32 => x[k] + SubBias(k));
    BiasIsTwiceP();
    ValLinear(t, x, bias, 1);
    ValLinear(SubLimbs(x, y), t, y, -1);
    ModShift(Val(x) - Val(y), 2);
  }

  function FeSub(x: Fe, y: Fe): (r: Fe)
    ensures 0 <= Val(r) < TWO_255
    ensures Val(r) % P == (Val(x) - Val(y)) % P
  {
    SubCorrect(x, y);
    ReduceAddSub(SubLimbs(x, y))
  }

  lemma NegCorrect(x: Fe)
    ensures Val(FeSub(ZeroLimbs(), x)) % P == -Val(x) % P
  {
    hide Val, FeSub;
    ValLinear(ZeroLimbs(), ZeroLimbs(), ZeroLimbs(), 1);
  }

  function FeNeg(x: Fe): (r: Fe)
    ensures 0 <= Val(r) < TWO_255
    ensures Val(r) % P == -Val(x) % P
  {
    NegCorrect(x);
    FeSub(ZeroLimbs(), x)
  }

  // ----- the schoolbook product: t[i + j] += x[i] * y[j], row by row

  const BYTE_SQUARE: int := 65025

  /** Coefficients before column j of row i: at most i + 1 byte products each, i where row i has not come yet. */
  predicate Partial(t: seq<u32>, i: nat, j: nat) {
    && |t| == 63 && i < 32 && j <= 32
    && (forall k :: 0 <= k < 63 ==> t[k] <= BYTE_SQUARE * (i + 1))
    && (forall k :: i + j <= k < 63 ==> t[k] <= BYTE_SQUARE * i)
  }

  lemma ByteProduct(a: int, b: int)
    requires 0 <= a <= 255 && 0 <= b <= 255
    ensures 0 <= a * b <= BYTE_SQUARE
  {
    var c := 255 - a;
    assert c * b >= 0 && a * b >= 0;
    assert a * b + c * b == 255 * b;
  }

  function MacStep(t: seq<u32>, x: Fe, y: Fe, i: nat, j: nat): (r: seq<u32>)
    requires Partial(t, i, j) && j < 32
    ensures Partial(r, i, j + 1)
  {
    ByteProduct(x[i], y[j]);
    t[i + j := t[i + j] + x[i] * y[j]]
  }

  function Row(t: seq<u32>, x: Fe, y: Fe, i: nat, j: nat): (r: seq<u32>)
    requires Partial(t, i, j)
    ensures Partial(r, i, 32)
    decreases 32 - j
  {
    if j == 32 then t else Row(MacStep(t, x, y, i, j), x, y, i, j + 1)
  }

  function Rows(t: seq<u32>, x: Fe, y: Fe, i: nat): (r: seq<u32>)
    requires i <= 32 && |t| == 63 && forall k :: 0 <= k < 63 ==> t[k] <= BYTE_SQUARE * i
    ensures |r| == 63 && forall k :: 0 <= k < 63 ==> r[k] <= BYTE_SQUARE * 32
    decreases 32 - i
  {
    if i == 32 then t else Rows(Row(t, x, y, i, 0), x, y, i + 1)
  }

  lemma MacStepVal(t: seq<u32>, x: Fe, y: Fe, i: nat, j: nat)
    requires Partial(t, i, j) && j < 32
    ensures Val(MacStep(t, x, y, i, j)) == Val(t) + x[i] * y[j] * Pow256(i + j)
  {
    hide Val;
    ByteProduct(x[i], y[j]);
    ValUpdate(t, i + j, t[i + j] + x[i] * y[j]);
  }

  lemma {:induction false} RowVal(t: seq<u32>, x: Fe, y: Fe, i: nat, j: nat)
    requires Partial(t, i, j)
    ensures Val(Row(t, x, y, i, j)) == Val(t) + x[i] * Pow256(i + j) * Val(y[j..])
    decreases 32 - j
  {
    hide MacStep, Val;
    if j == 32 {
      EmptyVal(y[j..]);
    } else {
      MacStepVal(t, x, y, i, j);
      RowVal(MacStep(t, x, y, i, j), x, y, i, j + 1);
      HeadVal(y, j);
      RowAlgebra(x[i], y[j], Pow256(i + j), Val(y[j + 1..]));
    }
  }

  lemma EmptyVal(v: seq<int>)
    requires |v| == 0
    ensures Val(v) == 0
  {
  }

  lemma HeadVal(v: seq<int>, j: nat)
    requires j < |v|
    ensures Val(v[j..]) == v[j] + 256 * Val(v[j + 1..])
  {
    assert v[j..][1..] == v[j + 1..];
  }

  lemma RowAlgebra(a: int, b: int, p: int, rest: int)
    ensures a * b * p + a * (256 * p) * rest == a * p * (b + 256 * rest)
  {
  }

  lemma {:induction false} RowsVal(t: seq<u32>, x: Fe, y: Fe, i: nat)
    requires i <= 32 && |t| == 63 && forall k :: 0 <= k < 63 ==> t[k] <= BYTE_SQUARE * i
    ensures Val(Rows(t, x, y, i)) == Val(t) + Pow256(i) * Val(x[i..]) * Val(y)
    decreases 32 - i
  {
    hide Row, Val;
    if i == 32 {
      EmptyVal(x[i..]);
    } else {
      RowVal(t, x, y, i, 0);
      assert y[0..] == y;
      RowsVal(Row(t, x, y, i, 0), x, y, i + 1);
      HeadVal(x, i);
      RowsAlgebra(x[i], Pow256(i), Val(x[i + 1..]), Val(y));
    }
  }

  lemma RowsAlgebra(a: int, p: int, rest: int, y: int)
    ensures a * p * y + 256 * p * rest * y == p * (a + 256 * rest) * y
  {
  }

  /** Coefficients 32 and up weigh 2^256 or more, and 2^256 is congruent to 38. */
  function Fold(t: seq<u32>): (r: seq<u32>)
    requires |t| == 63 && forall k :: 0 <= k < 63 ==> t[k] <= BYTE_SQUARE * 32
    ensures Wide(r)
  {
    seq(32, k requires 0 <= k < 32 => if k < 31 then t[k] + Times38(t[k + 32]) else t[k])
  }

  lemma FoldVal(t: seq<u32>)
    requires |t| == 63 && forall k :: 0 <= k < 63 ==> t[k] <= BYTE_SQUARE * 32
    ensures Val(Fold(t)) % P == Val(t) % P
  {
    hide Val;
    ValSplit(t, 32);
    Pow256At31();
    ValLinear(Fold(t), t[..32], t[32..], 38);
    ModShift(Val(t), -2 * Val(t[32..]));
  }

  function ZeroCoefficients(): (t: seq<u32>)
    ensures |t| == 63 && forall k :: 0 <= k < 63 ==> t[k] == 0
  {
    seq(63, _ => 0)
  }

  function Product(x: Fe, y: Fe): (r: seq<u32>)
    ensures Wide(r)
  {
    Fold(Rows(ZeroCoefficients(), x, y, 0))
  }

  lemma ProductVal(x: Fe, y: Fe)
    ensures Val(Product(x, y)) % P == (Val(x) * Val(y)) % P
  {
    hide Val, Fold, Rows;
    var z := ZeroCoefficients();
    ValLinear(z, z, z, 1);
    RowsVal(z, x, y, 0);
    assert x[0..] == x;
    FoldVal(Rows(z, x, y, 0));
  }

  lemma MulCorrect(x: Fe, y: Fe)
    ensures Val(ReduceMul(Product(x, y))) % P == (Val(x) * Val(y)) % P
    ensures 0 <= Val(ReduceMul(Product(x, y))) < TWO_255 + SLACK
  {
    hide Val, ReduceMul, Product;
    ProductVal(x, y);
  }

  function FeMul(x: Fe, y: Fe): (r: Fe)
    ensures 0 <= Val(r) < TWO_255 + SLACK
    ensures Val(r) % P == (Val(x) * Val(y)) % P
  {
    MulCorrect(x, y);
    ReduceMul(Product(x, y))
  }

  /** The residues whose representation a multiplication may leave at 2^255 or above. */
  predicate InWindow(a: int) {
    19 <= a % P < 19 + SLACK
  }

  /** Outside the window the result of a multiplication is below 2^255, and from SLACK + 19 on it is the residue. */
  lemma OutsideWindow(x: Fe, y: Fe)
    requires !InWindow(Val(x) * Val(y))
    ensures Val(FeMul(x, y)) < TWO_255
    ensures (Val(x) * Val(y)) % P >= 19 ==> Val(FeMul(x, y)) == (Val(x) * Val(y)) % P
  {
    hide Val, FeMul;
    ResidueOrMore(Val(FeMul(x, y)));
  }

  lemma ResidueOrMore(v: int)
    requires 0 <= v < TWO_255 + SLACK
    ensures v == v % P || v == v % P + P
  {
    var q, r := v / P, v % P;
    assert v == q * P + r;
    assert q <= 1;
  }

  // ----- canonical form

  /** 1 for equal 16-bit inputs, else 0; the subtraction wraps exactly when they are equal. */
  function Equal(a: u32, b: u32): (r: u32)
    requires a < 0x1_0000 && b < 0x1_0000
    ensures r == if a == b then 1 else 0
  {
    XorIsZero(a, b);
    assert Power2(8) == 256 && Power2(16) == 0x1_0000;
    XorBelow(a, b, 16);
    Sub32(Xor(a, b), 1) / 0x8000_0000
  }

  /** 1 if a >= b for 16-bit inputs, else 0. */
  function GreaterEq(a: u32, b: u32): (r: u32)
    requires a < 0x1_0000 && b < 0x1_0000
    ensures r == if a >= b then 1 else 0
  {
    Xor(Sub32(a, b) / 0x8000_0000, 1)
  }

  /** Limb k of p. */
  function PLimb(k: int): u32 {
    if k == 0 then 237 else if k == 31 then 127 else 255
  }

  /** The comparison freeze makes: limbs 1 to 31 equal those of p and limb 0 is at least 237. */
  predicate TopLimbsOfP(x: Fe, low: nat) {
    x[31] == 127 && forall k :: low <= k < 31 ==> x[k] == 255
  }

  predicate ReachesP(x: Fe) {
    TopLimbsOfP(x, 1) && x[0] >= 237
  }

  lemma ReachesPIff(x: Fe)
    ensures ReachesP(x) <==> P <= Val(x) < TWO_255
  {
    hide Val, Pow256;
    var mid := x[1..31];
    TopLimb(x);
    Pow256At31();
    HeadVal(x[..31], 0);
    assert x[..31][0..] == x[..31] && x[..31][1..] == mid;
    ValOfBytes(mid);
    MiddleLimbs(x, mid);
    PowerOf31();
  }

  lemma MiddleLimbs(x: Fe, mid: seq<u32>)
    requires mid == x[1..31]
    ensures (forall k :: 1 <= k < 31 ==> x[k] == 255) <==> forall k :: 0 <= k < 30 ==> mid[k] == 255
  {
    if forall k :: 0 <= k < 30 ==> mid[k] == 255 {
      assert forall k :: 1 <= k < 31 ==> x[k] == mid[k - 1];
    }
    assert forall k :: 0 <= k < 30 ==> mid[k] == x[k + 1];
  }

  lemma PowerOf31()
    ensures Pow256(31) == 256 * Pow256(30)
  {
  }

  function MinusP(x: Fe): (r: Fe)
    requires ReachesP(x)
    ensures Val(r) == Val(x) - P
  {
    MinusPVal(x);
    seq(32, k requires 0 <= k < 32 => x[k] - PLimb(k))
  }

  lemma PLimbsVal()
    ensures Val(seq(32, k => PLimb(k))) == P
  {
    BiasIsTwiceP();
    var p := seq(32, k => PLimb(k));
    ValLinear(seq(32, k => SubBias(k)), p, p, 1);
  }

  lemma MinusPVal(x: Fe)
    requires ReachesP(x)
    ensures Val(seq(32, k requires 0 <= k < 32 => x[k] - PLimb(k))) == Val(x) - P
  {
    hide Val;
    PLimbsVal();
    ValLinear(seq(32, k requires 0 <= k < 32 => x[k] - PLimb(k)), x, seq(32, k => PLimb(k)), -1);
  }

  /** The remainder modulo p of a value below 2^255; larger values come back unchanged. */
  function Freeze(x: Fe): (r: Fe)
    ensures Val(x) < TWO_255 ==> Val(r) == Val(x) % P
    ensures Val(x) >= TWO_255 ==> r == x
  {
    FreezeCases(x);
    if ReachesP(x) then MinusP(x) else x
  }

  lemma FreezeCases(x: Fe)
    ensures ReachesP(x) ==> Val(x) - P == Val(x) % P && Val(x) < TWO_255
    ensures !ReachesP(x) && Val(x) < TWO_255 ==> Val(x) == Val(x) % P
  {
    hide Val, ReachesP;
    ReachesPIff(x);
    TopLimb(x);
    if P <= Val(x) < TWO_255 {
      DivModUnique(Val(x), 1, Val(x) - P);
    }
  }

  /** Freezing yields the canonical representative exactly when the value is below 2^255. */
  lemma FreezeCanonicalIff(x: Fe)
    ensures 0 <= Val(Freeze(x)) < P <==> Val(x) < TWO_255
  {
    hide Val;
    TopLimb(x);
  }

  /** fe25519_iseq_vartime: the frozen limbs agree. */
  predicate IsEq(x: Fe, y: Fe) {
    Freeze(x) == Freeze(y)
  }

  /** Equality is decided exactly, except that a value of 2^255 or more differs from its residue below 2^255. */
  lemma IsEqIff(x: Fe, y: Fe)
    ensures IsEq(x, y) <==> (Val(x) % P == Val(y) % P && (Val(x) < TWO_255 <==> Val(y) < TWO_255))
  {
    hide Val, Freeze;
    TopLimb(x);
    TopLimb(y);
    Pow256At31();
    hide Pow256, IsEq;
    if Val(x) % P == Val(y) % P && (Val(x) < TWO_255 <==> Val(y) < TWO_255) {
      assert Val(Freeze(x)) == Val(Freeze(y));
      FreezeInjective(x, y);
    }
  }

  lemma FreezeInjective(x: Fe, y: Fe)
    requires Val(Freeze(x)) == Val(Freeze(y))
    ensures Freeze(x) == Freeze(y)
  {
    hide Val, Freeze;
    ValInjective(Freeze(x), Freeze(y));
  }

  // ----- byte strings

  /** fe25519_pack: the frozen limbs, each of which fits a byte. */
  function Pack(x: Fe): (r: seq<byte>)
    ensures |r| == 32 && Val(r) == Val(Freeze(x))
  {
    var f := Freeze(x);
    PackVal(f);
    seq(32, k requires 0 <= k < 32 => f[k])
  }

  lemma PackVal(f: Fe)
    ensures Val(seq(32, k requires 0 <= k < 32 => f[k])) == Val(f)
  {
    assert seq(32, k requires 0 <= k < 32 => f[k]) == f;
  }

  /** fe25519_unpack: bit 255 is cleared. */
  function Unpack(s: seq<byte>): (r: Fe)
    requires |s| == 32
    ensures Val(r) < TWO_255 && Val(r) == Val(s) - (s[31] / 128) * TWO_255
  {
    UnpackVal(s);
    s[31 := s[31] % 128]
  }

  lemma UnpackVal(s: seq<byte>)
    requires |s| == 32
    ensures Bounded(s[31 := s[31] % 128])
    ensures Val(s[31 := s[31] % 128]) == Val(s) - (s[31] / 128) * TWO_255
    ensures Val(s[31 := s[31] % 128]) < TWO_255
  {
    hide Val;
    var t: int := s[31] / 128;
    ValUpdate(s, 31, s[31] % 128);
    assert s[31] % 128 == s[31] - 128 * t;
    Pow256At31();
    assert 128 * t * Pow256(31) == t * TWO_255;
    TopLimb(s[31 := s[31] % 128]);
  }

  /** Packing then unpacking stays in the residue class exactly when the value was below 2^255. */
  lemma UnpackPackIff(x: Fe)
    ensures Val(Unpack(Pack(x))) % P == Val(x) % P <==> Val(x) < TWO_255
  {
    hide Val, Freeze;
    TopLimb(x);
    Pow256At31();
    var s := Pack(x);
    PackTop(x);
    if Val(x) < TWO_255 {
      assert Val(s) == Val(x) % P;
    } else {
      assert Val(Unpack(s)) == Val(x) - TWO_255;
      DivModUnique(Val(x), 1, Val(x) - P);
      DivModUnique(Val(x) - TWO_255, 0, Val(x) - TWO_255);
    }
  }

  lemma PackTop(x: Fe)
    ensures Pack(x)[31] <= 127 <==> Val(x) < TWO_255
    ensures Val(x) >= TWO_255 ==> Pack(x)[31] == 128
  {
    hide Val, Freeze;
    TopLimb(x);
    TopLimb(Freeze(x));
  }

  /** Packing below 2^255 depends only on the residue class, and separates the classes. */
  lemma PackIff(x: Fe, y: Fe)
    requires Val(x) < TWO_255 && Val(y) < TWO_255
    ensures Pack(x) == Pack(y) <==> Val(x) % P == Val(y) % P
  {
    hide Val, Freeze;
    if Val(x) % P == Val(y) % P {
      ValInjective(Pack(x), Pack(y));
    }
  }

  /** fe25519_iszero: the frozen limbs are all zero. */
  predicate IsZero(x: Fe) {
    forall k :: 0 <= k < 32 ==> Freeze(x)[k] == 0
  }

  /** Zero is recognised for every bounded input: no multiple of p lies in [2^255, 2^255 + 2^248). */
  lemma IsZeroIff(x: Fe)
    ensures IsZero(x) <==> Val(x) % P == 0
  {
    hide Val, Freeze;
    TopLimb(x);
    Pow256At31();
    var f, z := Freeze(x), ZeroLimbs();
    ValLinear(z, z, z, 1);
    if Val(x) % P == 0 {
      if Val(x) >= TWO_255 {
        DivModUnique(Val(x), 1, Val(x) - P);
      }
      assert Val(f) == Val(z);
      ValInjective(f, z);
    }
    if IsZero(x) {
      assert f == z;
    }
  }

  function Parity(x: Fe): int {
    Freeze(x)[0] % 2
  }

  lemma LowBit(v: Fe)
    ensures v[0] % 2 == Val(v) % 2
  {
    hide Val;
    HeadVal(v, 0);
    assert v[0..] == v;
    EvenShift(v[0], Val(v[1..]));
  }

  lemma EvenShift(a: int, k: int)
    ensures (a + 256 * k) % 2 == a % 2
  {
    assert a + 256 * k == a + 2 * (128 * k);
  }

  /** The parity of the residue, exactly when the value is below 2^255 (p is odd). */
  lemma ParityIff(x: Fe)
    ensures Parity(x) == (Val(x) % P) % 2 <==> Val(x) < TWO_255
  {
    hide Val, Freeze;
    LowBit(Freeze(x));
    if Val(x) >= TWO_255 {
      TopLimb(x);
      Pow256At31();
      DivModUnique(Val(x), 1, Val(x) - P);
      OddShift(Val(x));
    }
  }

  lemma OddShift(a: int)
    ensures (a - P) % 2 != a % 2
  {
    assert P == 2 * (P / 2) + 1;
  }

  // ----- powers

  function Exp(b: int, e: nat): int {
    if e == 0 then 1 else b * Exp(b, e - 1)
  }

  lemma {:induction false} ExpAdd(b: int, m: nat, n: nat)
    ensures Exp(b, m + n) == Exp(b, m) * Exp(b, n)
  {
    if m > 0 {
      ExpAdd(b, m - 1, n);
      assert b * (Exp(b, m - 1) * Exp(b, n)) == (b * Exp(b, m - 1)) * Exp(b, n);
    }
  }

  lemma ModMul(a: int, b: int, c: int, d: int)
    requires a % P == c % P && b % P == d % P
    ensures (a * b) % P == (c * d) % P
  {
    var k, l := a / P - c / P, b / P - d / P;
    assert a == c + k * P && b == d + l * P;
    assert a * b == c * d + (c * l + k * d + k * l * P) * P;
    ModShift(c * d, c * l + k * d + k * l * P);
  }

  /** z is congruent to x^e. */
  predicate IsPower(z: Fe, x: Fe, e: nat) {
    Val(z) % P == Exp(Val(x), e) % P
  }

  lemma PowerMul(a: Fe, b: Fe, x: Fe, m: nat, n: nat)
    requires IsPower(a, x, m) && IsPower(b, x, n)
    ensures IsPower(FeMul(a, b), x, m + n)
  {
    hide Val, FeMul;
    ExpAdd(Val(x), m, n);
    ModMul(Val(a), Val(b), Exp(Val(x), m), Exp(Val(x), n));
  }

  lemma PowerOne(x: Fe)
    ensures IsPower(x, x, 1)
  {
    assert Exp(Val(x), 1) == Val(x);
  }

  lemma {:induction false} Power2Order(m: nat, n: nat)
    requires m <= n
    ensures Power2(m) <= Power2(n)
  {
    if m < n {
      Power2Order(m, n - 1);
    }
  }

  /** The exponent 2^n - 2^m, a run of ones in bits m to n - 1. */
  function Ones(n: nat, m: nat): nat
    requires m <= n
  {
    Power2Order(m, n);
    Power2(n) - Power2(m)
  }

  lemma SquareRun(a: Fe, x: Fe, n: nat, m: nat)
    requires m <= n && IsPower(a, x, Ones(n, m))
    ensures IsPower(FeMul(a, a), x, Ones(n + 1, m + 1))
  {
    hide IsPower, FeMul;
    PowerMul(a, a, x, Ones(n, m), Ones(n, m));
  }

  lemma JoinRuns(a: Fe, b: Fe, x: Fe, n: nat, m: nat, k: nat)
    requires k <= m <= n && IsPower(a, x, Ones(n, m)) && IsPower(b, x, Ones(m, k))
    ensures IsPower(FeMul(a, b), x, Ones(n, k))
  {
    hide IsPower, FeMul;
    PowerMul(a, b, x, Ones(n, m), Ones(m, k));
  }
}

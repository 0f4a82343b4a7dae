/**
 fe25519_mul runs only two reduction rounds, so its result can be 2^255 or more although its
 limbs are bounded; freezing, packing and comparing such a result are then off by p.
 */
module MulBound {
  import opened Words
  import opened Field

  function LimbsOf(n: nat, count: nat): (v: seq<int>)
    ensures |v| == count && forall k :: 0 <= k < count ==> 0 <= v[k] <= 255
  {
    if count == 0 then [] else [n % 256] + LimbsOf(n / 256, count - 1)
  }

  lemma {:induction false} LimbsOfVal(n: nat, count: nat)
    requires n < Pow256(count)
    ensures Val(LimbsOf(n, count)) == n
  {
    if count > 0 {
      LimbsOfVal(n / 256, count - 1);
      assert LimbsOf(n, count)[1..] == LimbsOf(n / 256, count - 1);
    }
  }

  function OneLimb(c: nat): (x: Fe)
    requires c <= 255
    ensures x[0] == c && forall k :: 1 <= k < 32 ==> x[k] == 0
  {
    ZeroLimbs()[0 := c]
  }

  lemma OneLimbVal(c: nat)
    requires c <= 255
    ensures Val(OneLimb(c)) == c
  {
    hide Val;
    var z := ZeroLimbs();
    ValLinear(z, z, z, 1);
    ValUpdate(z, 0, c);
    assert Pow256(0) == 1;
  }

  /** Over bytes, the top limb is the value divided by its weight. */
  lemma TopLimbIs(v: seq<u32>, top: nat)
    requires |v| == 32 && forall k :: 0 <= k < 31 ==> v[k] <= 255
    requires Pow256(31) * top <= Val(v) < Pow256(31) * top + Pow256(31)
    ensures v[31] == top
  {
    ValSplit(v, 31);
    ValOfBytes(v[..31]);
    assert v[31..] == [v[31]];
    assert Val(v[31..]) == v[31] + 256 * Val([]);
    Pow256At31();
  }

  // ----- products that land high

  function Tops(x: Fe, y: Fe): (n: nat)
    ensures n == x[31] as int * y[31] as int <= BYTE_SQUARE
  {
    ByteProduct(x[31], y[31]);
    x[31] as int * y[31] as int
  }

  lemma {:induction false} RowTop(t: seq<u32>, x: Fe, y: Fe, i: nat, j: nat)
    requires Partial(t, i, j)
    ensures Row(t, x, y, i, j)[62] >= t[62] as int + (if i == 31 && j < 32 then Tops(x, y) else 0)
    decreases 32 - j
  {
    if j < 32 {
      ByteProduct(x[i], y[j]);
      RowTop(MacStep(t, x, y, i, j), x, y, i, j + 1);
    }
  }

  lemma {:induction false} RowsTop(t: seq<u32>, x: Fe, y: Fe, i: nat)
    requires i <= 32 && |t| == 63 && forall k :: 0 <= k < 63 ==> t[k] <= BYTE_SQUARE * i
    ensures Rows(t, x, y, i)[62] >= t[62] as int + (if i < 32 then Tops(x, y) else 0)
    decreases 32 - i
  {
    hide Row;
    if i < 32 {
      RowTop(t, x, y, i, 0);
      RowsTop(Row(t, x, y, i, 0), x, y, i + 1);
    }
  }

  lemma FoldTop(t: seq<u32>)
    requires |t| == 63 && forall k :: 0 <= k < 63 ==> t[k] <= BYTE_SQUARE * 32
    ensures Fold(t)[30] >= 38 * t[62] as int
  {
  }

  /** The first round leaves at least what limb 30 stands for. */
  lemma PassAtLeast(v: seq<u32>)
    requires Wide(v)
    ensures Val(Pass(v)) >= v[30] as int * Pow256(30)
  {
    hide Val, Pass;
    PassVal(v);
    Pow256At31();
    ValSplit(v, 30);
    HeadVal(v, 30);
    HeadVal(v, 31);
    EmptyVal(v[32..]);
    WideNonNegative(v[..30]);
    assert Pow256(31) == 256 * Pow256(30);
    TopAbsorbed(v[31], Pow256(30));
    assert Val(v) == Val(v[..30]) + Pow256(30) * (v[30] as int + 256 * v[31] as int);
  }

  lemma TopAbsorbed(top: nat, p: nat)
    requires 256 * p * 128 == P + 19
    ensures p * (256 * top) - (top / 128) * P >= 0
  {
    var q, r := top / 128, top % 128;
    assert top == 128 * q + r;
    assert p * (256 * top) == q * (256 * p * 128) + p * (256 * r);
  }

  lemma {:induction false} WideNonNegative(v: seq<u32>)
    ensures Val(v) >= 0
  {
    if v != [] {
      WideNonNegative(v[1..]);
    }
  }

  /**
   Large top limbs and a residue from 19 to 37: the result is the residue plus p, which is 2^255 or
   more, never the residue itself.
   */
  lemma MulLandsHigh(x: Fe, y: Fe)
    requires 38 * Tops(x, y) >= 65536
    requires 19 <= (Val(x) * Val(y)) % P < 38
    ensures Val(FeMul(x, y)) == (Val(x) * Val(y)) % P + P >= TWO_255
  {
    hide Val, Pass, Product;
    var v := Product(x, y);
    ProductTop(x, y);
    PassBounds(v);
    PassAtLeast(v);
    Pow256At31();
    ScaledAtLeast(v[30], Pow256(30));
    PassSlack(Pass(v));
    MulCorrect(x, y);
    ResidueOrMore(Val(FeMul(x, y)));
    assert FeMul(x, y) == Pass(Pass(v));
  }

  lemma ScaledAtLeast(a: nat, p: nat)
    requires a >= 65536
    ensures a * p >= 256 * (256 * p)
  {
  }

  lemma ProductTop(x: Fe, y: Fe)
    ensures Product(x, y)[30] >= 38 * Tops(x, y)
  {
    hide Rows, Fold;
    RowsTop(ZeroCoefficients(), x, y, 0);
    FoldTop(Rows(ZeroCoefficients(), x, y, 0));
  }

  const LEFT: nat := 0x208bdfc2f50d76ec7f88b579ee10499842afc147d76b5294b79345bf5f09b9f6

  const RIGHT: nat := 0x6b8d5f3a1e97c2044d21f80b6a5e3379c1d0487fe25b93ad7704be16829fd3a5

  /** A product that comes out as 2^255, although it is congruent to 19. */
  lemma MulReaches2To255()
    ensures exists x: Fe, y: Fe :: Val(x) == LEFT && Val(y) == RIGHT && Val(FeMul(x, y)) == TWO_255
  {
    hide Val, LimbsOf, FeMul;
    Pow256At31();
    LimbsOfVal(LEFT, 32);
    TopLimbIs(LimbsOf(LEFT, 32), 0x20);
    LimbsOfVal(RIGHT, 32);
    TopLimbIs(LimbsOf(RIGHT, 32), 0x6b);
    var x: Fe, y: Fe := LimbsOf(LEFT, 32), LimbsOf(RIGHT, 32);
    assert (LEFT * RIGHT) % P == 19;
    MulLandsHigh(x, y);
    assert Val(FeMul(x, y)) == TWO_255;
  }
}

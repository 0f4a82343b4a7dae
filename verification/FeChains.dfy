/**
 The two fixed addition chains of fe25519.c.  Every intermediate value is x raised to a run of
 one bits, 2^n - 2^m; squaring shifts a run and multiplying joins adjacent runs.
 */
module FeChains {
  import opened Words
  import opened Field
  import opened Fe25519

  /** a holds x raised to the run of ones from bit m to bit n - 1. */
  ghost predicate Holds(a: array<u32>, x: Fe, n: nat, m: nat)
    reads a
  {
    a.Length == 32 && Bounded(a[..]) && m <= n && IsPower(a[..], x, Ones(n, m))
  }

  method SquareOnce(r: array<u32>, a: array<u32>, ghost x: Fe, ghost n: nat, ghost m: nat)
    requires r.Length == 32 && Holds(a, x, n, m)
    modifies r
    ensures Holds(r, x, n + 1, m + 1)
  {
    hide IsPower, FeMul, Ones;
    SquareRun(a[..], x, n, m);
    Square(r, a);
  }

  method Join(r: array<u32>, a: array<u32>, b: array<u32>, ghost x: Fe, ghost n: nat, ghost m: nat, ghost k: nat)
    requires r.Length == 32 && Holds(a, x, n, m) && Holds(b, x, m, k)
    modifies r
    ensures Holds(r, x, n, k)
  {
    hide IsPower, FeMul, Ones;
    JoinRuns(a[..], b[..], x, n, m, k);
    Mul(r, a, b);
  }

  /** Squarings in pairs through a scratch element, as the loops of fe25519_invert run them. */
  method SquarePairs(t0: array<u32>, t1: array<u32>, count: nat, ghost x: Fe, ghost n: nat, ghost m: nat)
    requires t0 != t1 && t0.Length == 32 && count % 2 == 0 && count >= 2 && Holds(t1, x, n, m)
    modifies t0, t1
    ensures Holds(t1, x, n + count - 2, m + count - 2)
  {
    hide IsPower, Ones;
    var i := 2;
    while i < count
      invariant i % 2 == 0 && 2 <= i <= count && Holds(t1, x, n + i - 2, m + i - 2)
    {
      SquareOnce(t0, t1, x, n + i - 2, m + i - 2);
      SquareOnce(t1, t0, x, n + i - 1, m + i - 1);
      i := i + 2;
    }
  }

  /** The common head of both chains: x^2, x^9, x^11 and x^31. */
  method SmallPowers(x: array<u32>) returns (z2: array<u32>, z9: array<u32>, z11: array<u32>, z31: array<u32>)
    requires x.Length == 32 && Bounded(x[..])
    ensures fresh(z2) && fresh(z9) && fresh(z11) && fresh(z31)
    ensures z11.Length == 32 && Bounded(z11[..]) && IsPower(z11[..], x[..], 11)
    ensures Holds(z31, x[..], 5, 0)
  {
    hide IsPower, FeMul;
    ghost var x0: Fe := x[..];
    z2, z9, z11, z31 := new u32[32], new u32[32], new u32[32], new u32[32];
    var t0, t1 := new u32[32], new u32[32];
    PowerOne(x0);
    PowerMul(x0, x0, x0, 1, 1);
    Square(z2, x);
    ghost var v2: Fe := z2[..];
    PowerMul(v2, v2, x0, 2, 2);
    Square(t1, z2);
    ghost var v4: Fe := t1[..];
    PowerMul(v4, v4, x0, 4, 4);
    Square(t0, t1);
    ghost var v8: Fe := t0[..];
    PowerMul(v8, x0, x0, 8, 1);
    Mul(z9, t0, x);
    ghost var v9: Fe := z9[..];
    PowerMul(v9, v2, x0, 9, 2);
    Mul(z11, z9, z2);
    ghost var v11: Fe := z11[..];
    PowerMul(v11, v11, x0, 11, 11);
    Square(t0, z11);
    ghost var v22: Fe := t0[..];
    PowerMul(v22, v9, x0, 22, 9);
    Mul(z31, t0, z9);
    assert Ones(5, 0) == 31;
  }

  /** Shift the run in a up by `count` through the scratch pair s, d, then fill the gap with b. */
  method ShiftJoin(out: array<u32>, s: array<u32>, d: array<u32>, a: array<u32>, b: array<u32>, count: nat,
                   ghost x: Fe, ghost n: nat)
    requires count % 2 == 0 && count >= 2 && Holds(a, x, n, 0) && Holds(b, x, count, 0)
    requires s != d && b != s && b != d && out.Length == s.Length == d.Length == 32
    modifies out, s, d
    ensures Holds(out, x, n + count, 0)
  {
    hide IsPower, Ones;
    SquareOnce(s, a, x, n, 0);
    SquareOnce(d, s, x, n + 1, 1);
    SquarePairs(s, d, count, x, n + 2, 2);
    Join(out, d, b, x, n + count, count, 0);
  }

  /** From 2^5 - 1 to 2^50 - 1. */
  method InvertTo50(z5: array<u32>, ghost x0: Fe) returns (z50: array<u32>)
    requires Holds(z5, x0, 5, 0)
    ensures fresh(z50) && Holds(z50, x0, 50, 0)
  {
    hide Holds;
    var t0, t1 := new u32[32], new u32[32];
    var z10, z20 := new u32[32], new u32[32];
    z50 := new u32[32];
    SquareOnce(t0, z5, x0, 5, 0);
    SquareOnce(t1, t0, x0, 6, 1);
    SquareOnce(t0, t1, x0, 7, 2);
    SquareOnce(t1, t0, x0, 8, 3);
    SquareOnce(t0, t1, x0, 9, 4);
    Join(z10, t0, z5, x0, 10, 5, 0);
    ShiftJoin(z20, t0, t1, z10, z10, 10, x0, 10);
    ShiftJoin(t0, t0, t1, z20, z20, 20, x0, 20);
    ShiftJoin(z50, t1, t0, t0, z10, 10, x0, 40);
  }

  /** From 2^50 - 1 to 2^250 - 1. */
  method InvertTo250(z50: array<u32>, ghost x0: Fe) returns (t0: array<u32>)
    requires Holds(z50, x0, 50, 0)
    ensures fresh(t0) && Holds(t0, x0, 250, 0)
  {
    hide Holds;
    t0 := new u32[32];
    var t1, z100 := new u32[32], new u32[32];
    ShiftJoin(z100, t0, t1, z50, z50, 50, x0, 50);
    ShiftJoin(t1, t1, t0, z100, z100, 100, x0, 100);
    ShiftJoin(t0, t0, t1, t1, z50, 50, x0, 200);
  }

  /** fe25519_invert: x^(2^255 - 21), which is x^(p - 2). */
  method Invert(r: array<u32>, x: array<u32>)
    requires r.Length == x.Length == 32 && Bounded(x[..])
    modifies r
    ensures Bounded(r[..]) && 0 <= Val(r[..]) < TWO_255 + SLACK
    ensures Val(r[..]) % P == Exp(Val(old(x[..])), P - 2) % P
  {
    hide IsPower, Ones, FeMul, Val, Exp;
    ghost var x0: Fe := x[..];
    var z2, z9, z11, z5 := SmallPowers(x);
    var z50 := InvertTo50(z5, x0);
    var t0 := InvertTo250(z50, x0);
    var t1 := new u32[32];
    SquareOnce(t1, t0, x0, 250, 0);
    SquareOnce(t0, t1, x0, 251, 1);
    SquareOnce(t1, t0, x0, 252, 2);
    SquareOnce(t0, t1, x0, 253, 3);
    SquareOnce(t1, t0, x0, 254, 4);
    InvertEnd(t1[..], z11[..], x0);
    Mul(r, t1, z11);
  }

  /** The last product of the inversion chain: 2^255 - 2^5 plus 11 is p - 2. */
  lemma InvertEnd(a: Fe, z11: Fe, x: Fe)
    requires IsPower(a, x, Ones(255, 5)) && IsPower(z11, x, 11)
    ensures Val(FeMul(a, z11)) % P == Exp(Val(x), P - 2) % P
  {
    hide Exp, Val, FeMul;
    PowerMul(a, z11, x, Ones(255, 5), 11);
    Power2At255();
  }

  lemma Power2At255()
    ensures Ones(255, 5) + 11 == P - 2
  {
    Power2At32();
    Power2Sum(32, 32);
    assert Power2(64) == 0x1_0000_0000_0000_0000;
    Power2Sum(64, 64);
    assert Power2(128) == 0x1_0000_0000_0000_0000_0000_0000_0000_0000;
    Power2Sum(128, 128);
    assert Power2(256) == 2 * TWO_255;
    assert Power2(5) == 32;
  }

  lemma {:induction false} Power2Sum(m: nat, n: nat)
    ensures Power2(m + n) == Power2(m) * Power2(n)
  {
    if m > 0 {
      Power2Sum(m - 1, n);
      assert 2 * (Power2(m - 1) * Power2(n)) == Power2(m) * Power2(n);
    }
  }

  /** The in-place squaring loops of fe25519_pow2523. */
  method SquareRepeat(t: array<u32>, count: nat, ghost x: Fe, ghost n: nat, ghost m: nat)
    requires count >= 1 && Holds(t, x, n, m)
    modifies t
    ensures Holds(t, x, n + count - 1, m + count - 1)
  {
    for i := 1 to count
      invariant Holds(t, x, n + i - 1, m + i - 1)
    {
      SquareOnce(t, t, x, n + i - 1, m + i - 1);
    }
  }

  /** One step of the square-root chain: t takes a shifted by `count`, and out fills the gap with b. */
  method RepeatJoin(out: array<u32>, t: array<u32>, a: array<u32>, b: array<u32>, count: nat, ghost x: Fe, ghost n: nat)
    requires count >= 1 && Holds(a, x, n, 0) && Holds(b, x, count, 0)
    requires b != t && out.Length == t.Length == 32
    modifies out, t
    ensures Holds(out, x, n + count, 0)
  {
    hide IsPower, Ones;
    SquareOnce(t, a, x, n, 0);
    SquareRepeat(t, count, x, n + 1, 1);
    Join(out, t, b, x, n + count, count, 0);
  }

  method RunTo252(z5: array<u32>, ghost x0: Fe) returns (t: array<u32>)
    requires Holds(z5, x0, 5, 0)
    ensures fresh(t) && Holds(t, x0, 252, 2)
  {
    hide Holds;
    t := new u32[32];
    var z10, z20, z50, z100 := new u32[32], new u32[32], new u32[32], new u32[32];
    RepeatJoin(z10, t, z5, z5, 5, x0, 5);
    RepeatJoin(z20, t, z10, z10, 10, x0, 10);
    RepeatJoin(t, t, z20, z20, 20, x0, 20);
    RepeatJoin(z50, t, t, z10, 10, x0, 40);
    RepeatJoin(z100, t, z50, z50, 50, x0, 50);
    RepeatJoin(t, t, z100, z100, 100, x0, 100);
    RepeatJoin(t, t, t, z50, 50, x0, 200);
    SquareOnce(t, t, x0, 250, 0);
    SquareOnce(t, t, x0, 251, 1);
  }

  /** fe25519_pow2523: x^(2^252 - 3), which is x^((p - 5) / 8). */
  method Pow2523(r: array<u32>, x: array<u32>)
    requires r.Length == x.Length == 32 && Bounded(x[..])
    modifies r
    ensures Bounded(r[..]) && 0 <= Val(r[..]) < TWO_255 + SLACK
    ensures Val(r[..]) % P == Exp(Val(old(x[..])), (P - 5) / 8) % P
  {
    hide IsPower, Ones, FeMul, Val, Exp;
    ghost var x0: Fe := x[..];
    var z2, z9, z11, z5 := SmallPowers(x);
    var t := RunTo252(z5, x0);
    Pow2523End(t[..], x0);
    Mul(r, t, x);
  }

  /** The last product of the square-root chain: 2^252 - 2^2 plus 1 is (p - 5) / 8. */
  lemma Pow2523End(a: Fe, x: Fe)
    requires IsPower(a, x, Ones(252, 2))
    ensures Val(FeMul(a, x)) % P == Exp(Val(x), (P - 5) / 8) % P
  {
    hide Exp, Val, FeMul;
    PowerOne(x);
    PowerMul(a, x, x, Ones(252, 2), 1);
    Power2At255();
    Power2Sum(252, 3);
    Power2Sum(252, 4);
  }
}

/**
 The in-place limb code of fe25519.c: every method overwrites the array the C function writes
 through its pointer, and may be called with that array among its operands.
 */
module Fe25519 {
  import opened Words
  import opened Field

  method CarryInPlace(r: array<u32>)
    requires r.Length == 32 && CanCarry(r[..], 0)
    modifies r
    ensures r[..] == Carry(old(r[..]), 0)
  {
    ghost var first := r[..];
    for i := 0 to 31
      invariant CanCarry(r[..], i)
      invariant Carry(r[..], i) == Carry(first, 0)
    {
      ghost var before := r[..];
      var t := r[i] / 256;
      r[i + 1] := r[i + 1] + t;
      r[i] := r[i] % 256;
      assert r[..] == CarryStep(before, i);
    }
  }

  /** The body both reduction loops repeat. */
  method ReduceRound(r: array<u32>)
    requires r.Length == 32 && Wide(r[..])
    modifies r
    ensures r[..] == Pass(old(r[..]))
  {
    hide Carry;
    var t := r[31] / 128;
    r[31] := r[31] % 128;
    t := Times19(t);
    r[0] := r[0] + t;
    CarryInPlace(r);
  }

  method ReduceAddSubInPlace(r: array<u32>)
    requires r.Length == 32 && Wide(r[..])
    modifies r
    ensures r[..] == ReduceAddSub(old(r[..]))
  {
    hide Pass;
    ghost var v := r[..];
    FourPasses(v);
    for rep := 0 to 4
      invariant r[..] == (if rep == 0 then v else if rep == 1 then Pass(v) else if rep == 2 then Pass(Pass(v))
                          else if rep == 3 then Pass(Pass(Pass(v))) else Pass(Pass(Pass(Pass(v)))))
    {
      ReduceRound(r);
    }
  }

  method ReduceMulInPlace(r: array<u32>)
    requires r.Length == 32 && Wide(r[..])
    modifies r
    ensures r[..] == ReduceMul(old(r[..]))
  {
    hide Pass;
    ghost var v := r[..];
    TwoPasses(v);
    for rep := 0 to 2
      invariant r[..] == if rep == 0 then v else if rep == 1 then Pass(v) else Pass(Pass(v))
    {
      ReduceRound(r);
    }
  }

  method Add(r: array<u32>, x: array<u32>, y: array<u32>)
    requires r.Length == x.Length == y.Length == 32 && Bounded(x[..]) && Bounded(y[..])
    modifies r
    ensures r[..] == FeAdd(old(x[..]), old(y[..]))
  {
    ghost var x0, y0 := x[..], y[..];
    for i := 0 to 32
      invariant forall k :: 0 <= k < i ==> r[k] == x0[k] + y0[k]
      invariant forall k :: i <= k < 32 ==> x[k] == x0[k] && y[k] == y0[k]
    {
      r[i] := x[i] + y[i];
    }
    assert r[..] == AddLimbs(x0, y0);
    ReduceAddSubInPlace(r);
  }

  method Sub(r: array<u32>, x: array<u32>, y: array<u32>)
    requires r.Length == x.Length == y.Length == 32 && Bounded(x[..]) && Bounded(y[..])
    modifies r
    ensures r[..] == FeSub(old(x[..]), old(y[..]))
  {
    ghost var x0, y0 := x[..], y[..];
    var t := new u32[32];
    t[0] := x[0] + 0x1da;
    t[31] := x[31] + 0xfe;
    for i := 1 to 31
      modifies t
      invariant t[0] == x0[0] + 0x1da && t[31] == x0[31] + 0xfe
      invariant forall k :: 1 <= k < i ==> t[k] == x0[k] + 0x1fe
    {
      t[i] := x[i] + 0x1fe;
    }
    for i := 0 to 32
      invariant forall k :: 0 <= k < 32 ==> t[k] == x0[k] + SubBias(k)
      invariant forall k :: 0 <= k < i ==> r[k] == x0[k] + SubBias(k) - y0[k]
      invariant forall k :: i <= k < 32 ==> y[k] == y0[k]
    {
      r[i] := t[i] - y[i];
    }
    assert r[..] == SubLimbs(x0, y0);
    ReduceAddSubInPlace(r);
  }

  method Neg(r: array<u32>, x: array<u32>)
    requires r.Length == x.Length == 32 && Bounded(x[..])
    modifies r
    ensures r[..] == FeNeg(old(x[..]))
  {
    ghost var x0 := x[..];
    var t := new u32[32];
    for i := 0 to 32
      modifies t
      invariant forall k :: 0 <= k < i ==> t[k] == x0[k]
    {
      t[i] := x[i];
    }
    SetZero(r);
    assert t[..] == x0;
    Sub(r, r, t);
  }

  method SetZero(r: array<u32>)
    requires r.Length == 32
    modifies r
    ensures r[..] == ZeroLimbs()
  {
    for i := 0 to 32
      invariant forall k :: 0 <= k < i ==> r[k] == 0
    {
      r[i] := 0;
    }
  }

  /** The inner product loop: row i of the schoolbook product. */
  method AddRow(t: array<u32>, x: array<u32>, y: array<u32>, i: nat)
    requires t.Length == 63 && x.Length == y.Length == 32 && Bounded(x[..]) && Bounded(y[..])
    requires Partial(t[..], i, 0) && t != x && t != y
    modifies t
    ensures t[..] == Row(old(t[..]), old(x[..]), old(y[..]), i, 0)
  {
    ghost var x0: Fe, y0: Fe, start := x[..], y[..], t[..];
    for j := 0 to 32
      invariant Partial(t[..], i, j)
      invariant Row(t[..], x0, y0, i, j) == Row(start, x0, y0, i, 0)
    {
      ghost var before := t[..];
      ByteProduct(x[i], y[j]);
      t[i + j] := t[i + j] + x[i] * y[j];
      assert t[..] == MacStep(before, x0, y0, i, j);
    }
  }

  method FoldInto(r: array<u32>, t: array<u32>)
    requires r.Length == 32 && t.Length == 63 && r != t
    requires forall k :: 0 <= k < 63 ==> t[..][k] <= BYTE_SQUARE * 32
    modifies r
    ensures r[..] == Fold(t[..])
  {
    ghost var full := t[..];
    for i := 32 to 63
      invariant forall k :: 0 <= k < i - 32 ==> r[k] == full[k] + Times38(full[k + 32])
    {
      r[i - 32] := t[i - 32] + Times38(t[i]);
    }
    r[31] := t[31];
  }

  method Mul(r: array<u32>, x: array<u32>, y: array<u32>)
    requires r.Length == x.Length == y.Length == 32 && Bounded(x[..]) && Bounded(y[..])
    modifies r
    ensures r[..] == FeMul(old(x[..]), old(y[..]))
  {
    hide Row, ReduceMul, Fold;
    ghost var x0: Fe, y0: Fe := x[..], y[..];
    var t := new u32[63](_ => 0);
    ghost var zero := ZeroCoefficients();
    assert t[..] == zero;
    for i := 0 to 32
      modifies t
      invariant x[..] == x0 && y[..] == y0
      invariant forall k :: 0 <= k < 63 ==> t[..][k] <= BYTE_SQUARE * i
      invariant Rows(t[..], x0, y0, i) == Rows(zero, x0, y0, 0)
    {
      ghost var before := t[..];
      AddRow(t, x, y, i);
      assert t[..] == Row(before, x0, y0, i, 0);
    }
    FoldInto(r, t);
    ReduceMulInPlace(r);
  }

  method Square(r: array<u32>, x: array<u32>)
    requires r.Length == x.Length == 32 && Bounded(x[..])
    modifies r
    ensures r[..] == FeMul(old(x[..]), old(x[..]))
  {
    Mul(r, x, x);
  }

  /** All ones when the limbs reach p, else zero, computed without a branch. */
  method FreezeMask(r: array<u32>) returns (m: u32)
    requires r.Length == 32 && Bounded(r[..])
    ensures m == if ReachesP(r[..]) then 0xffff_ffff else 0
  {
    ghost var x: Fe := r[..];
    m := Equal(r[31], 127);
    for i := 31 downto 1
      invariant m == if TopLimbsOfP(x, i) then 1 else 0
    {
      AndOfBits(m, Equal(r[i], 255));
      m := And(m, Equal(r[i], 255));
    }
    AndOfBits(m, GreaterEq(r[0], 237));
    m := And(m, GreaterEq(r[0], 237));
    m := Sub32(0, m);
  }

  method FreezeInPlace(r: array<u32>)
    requires r.Length == 32 && Bounded(r[..])
    modifies r
    ensures r[..] == Freeze(old(r[..]))
  {
    hide And, Sub32;
    ghost var x: Fe := r[..];
    var m := FreezeMask(r);
    MaskSelects(127);
    MaskSelects(255);
    MaskSelects(237);
    r[31] := r[31] - And(m, 127);
    for i := 31 downto 1
      invariant r[31] == x[31] - And(m, 127)
      invariant forall k :: i <= k < 31 ==> r[k] == x[k] - And(m, 255)
      invariant forall k :: 0 <= k < i ==> r[k] == x[k]
    {
      r[i] := r[i] - And(m, 255);
    }
    r[0] := r[0] - And(m, 237);
  }

  /** A local struct copy: fe25519 t = *x. */
  method Copy(x: array<u32>) returns (t: array<u32>)
    requires x.Length == 32
    ensures fresh(t) && t.Length == 32 && t[..] == x[..]
  {
    t := new u32[32];
    for i := 0 to 32
      modifies t
      invariant forall k :: 0 <= k < i ==> t[k] == x[k]
    {
      t[i] := x[i];
    }
  }

  method PackInto(r: array<byte>, x: array<u32>)
    requires r.Length == x.Length == 32 && Bounded(x[..])
    modifies r
    ensures r[..] == Pack(x[..])
  {
    var y := Copy(x);
    FreezeInPlace(y);
    for i := 0 to 32
      invariant y[..] == Freeze(x[..])
      invariant forall k :: 0 <= k < i ==> r[k] == Freeze(x[..])[k]
    {
      r[i] := y[i];
    }
  }

  method IsEqVartime(x: array<u32>, y: array<u32>) returns (equal: bool)
    requires x.Length == y.Length == 32 && Bounded(x[..]) && Bounded(y[..])
    ensures equal == IsEq(x[..], y[..])
  {
    ghost var x0: Fe, y0: Fe := x[..], y[..];
    var t1 := Copy(x);
    var t2 := Copy(y);
    FreezeInPlace(t1);
    FreezeInPlace(t2);
    for i := 0 to 32
      invariant t1[..i] == t2[..i]
    {
      if t1[i] != t2[i] {
        assert Freeze(x0)[i] != Freeze(y0)[i];
        return false;
      }
    }
    assert t1[..] == t1[..32] && t2[..] == t2[..32];
    return true;
  }

  method IsZeroVal(x: array<u32>) returns (r: u32)
    requires x.Length == 32 && Bounded(x[..])
    ensures r == if IsZero(x[..]) then 1 else 0
  {
    ghost var f := Freeze(x[..]);
    var t := Copy(x);
    FreezeInPlace(t);
    r := Equal(t[0], 0);
    for i := 1 to 32
      invariant t[..] == f
      invariant r == if (forall k :: 0 <= k < i ==> f[k] == 0) then 1 else 0
    {
      AndOfBits(r, Equal(t[i], 0));
      r := And(r, Equal(t[i], 0));
    }
  }

  /** Constant-time selection: every limb is XORed with the masked difference. */
  method CMov(r: array<u32>, x: array<u32>, b: u32)
    requires r.Length == x.Length == 32 && b <= 1
    modifies r
    ensures r[..] == if b == 1 then old(x[..]) else old(r[..])
  {
    hide Xor, And;
    var mask := Sub32(0, b);
    assert mask == if b == 1 then 0xffff_ffff else 0;
    hide Sub32;
    ghost var r0, x0 := r[..], x[..];
    for i := 0 to 32
      invariant forall k :: 0 <= k < i ==> r[k] == if b == 1 then x0[k] else r0[k]
      invariant forall k :: i <= k < 32 ==> r[k] == r0[k] && x[k] == x0[k]
    {
      MaskedXor(r[i], x[i]);
      r[i] := Xor(r[i], And(mask, Xor(x[i], r[i])));
    }
  }
}

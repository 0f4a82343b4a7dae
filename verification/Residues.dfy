/**
 Residues modulo p as integers: divisibility by p, congruence, and division under Fermat's theorem.
 */
module Residues {
  import opened Field

  /**
   p divides a.  Stepping down from DEPTH first keeps the solver from unfolding remainders of the
   polynomials that occur as a; ZeroIff unfolds where that is meant.
   */
  ghost predicate Zero(a: int) {
    ZeroFrom(a, DEPTH)
  }

  const DEPTH: nat := 4

  ghost predicate ZeroFrom(a: int, n: nat) {
    if n == 0 then a % P == 0 else ZeroFrom(a, n - 1)
  }

  lemma {:induction false} ZeroFromIff(a: int, n: nat)
    ensures ZeroFrom(a, n) <==> a % P == 0
  {
    if n > 0 {
      ZeroFromIff(a, n - 1);
    }
  }

  lemma ZeroIff(a: int)
    ensures Zero(a) <==> a % P == 0
  {
    ZeroFromIff(a, DEPTH);
  }

  /** The residue of a, kept from the solver's remainder arithmetic in the same way. */
  function Mod(a: int): (r: int)
    ensures 0 <= r < P
  {
    ModFrom(a, DEPTH)
  }

  function ModFrom(a: int, n: nat): (r: int)
    ensures 0 <= r < P
  {
    if n == 0 then a % P else ModFrom(a, n - 1)
  }

  lemma {:induction false} ModFromIs(a: int, n: nat)
    ensures ModFrom(a, n) == a % P
  {
    if n > 0 {
      ModFromIs(a, n - 1);
    }
  }

  lemma ModIs(a: int)
    ensures Mod(a) == a % P
  {
    ModFromIs(a, DEPTH);
  }

  lemma MultipleIsZero(k: int)
    ensures Zero(k * P)
  {
    hide Zero;
    ZeroIff(k * P);
    ModShift(0, k);
  }

  // ----- linear combinations of zeros

  lemma ZeroMul(k: int, a: int)
    requires Zero(a)
    ensures Zero(k * a)
  {
    hide Zero;
    ZeroIff(a);
    assert k * a == (k * (a / P)) * P;
    MultipleIsZero(k * (a / P));
  }

  lemma ZeroAdd(a: int, b: int)
    requires Zero(a) && Zero(b)
    ensures Zero(a + b)
  {
    hide Zero;
    ZeroIff(a);
    ZeroIff(b);
    assert a + b == (a / P + b / P) * P;
    MultipleIsZero(a / P + b / P);
  }

  lemma Combine2(c: int, k1: int, a1: int, k2: int, a2: int)
    requires Zero(a1) && Zero(a2) && c == k1 * a1 + k2 * a2
    ensures Zero(c)
  {
    hide Zero;
    ZeroMul(k1, a1);
    ZeroMul(k2, a2);
    ZeroAdd(k1 * a1, k2 * a2);
  }

  lemma Combine3(c: int, k1: int, a1: int, k2: int, a2: int, k3: int, a3: int)
    requires Zero(a1) && Zero(a2) && Zero(a3) && c == k1 * a1 + k2 * a2 + k3 * a3
    ensures Zero(c)
  {
    hide Zero;
    Combine2(k1 * a1 + k2 * a2, k1, a1, k2, a2);
    ZeroMul(k3, a3);
    ZeroAdd(k1 * a1 + k2 * a2, k3 * a3);
  }

  lemma Combine4(c: int, k1: int, a1: int, k2: int, a2: int, k3: int, a3: int, k4: int, a4: int)
    requires Zero(a1) && Zero(a2) && Zero(a3) && Zero(a4) && c == k1 * a1 + k2 * a2 + k3 * a3 + k4 * a4
    ensures Zero(c)
  {
    hide Zero;
    Combine3(k1 * a1 + k2 * a2 + k3 * a3, k1, a1, k2, a2, k3, a3);
    ZeroMul(k4, a4);
    ZeroAdd(k1 * a1 + k2 * a2 + k3 * a3, k4 * a4);
  }

  // ----- congruence

  ghost predicate Near(a: int, b: int) {
    Zero(a - b)
  }

  lemma NearFromMod(a: int, b: int)
    requires a % P == b % P
    ensures Near(a, b)
  {
    hide Zero;
    assert a - b == (a / P - b / P) * P;
    MultipleIsZero(a / P - b / P);
  }

  lemma NearTrans(a: int, b: int, c: int)
    requires Near(a, b) && Near(b, c)
    ensures Near(a, c)
  {
    hide Zero;
    ZeroAdd(a - b, b - c);
  }

  /** What congruent values are near is near each other. */
  lemma SameNear(u: int, v: int, a: int, b: int)
    requires u % P == v % P && Near(u, a) && Near(v, b)
    ensures Near(a, b)
  {
    hide Near;
    NearFromMod(u, v);
    NearBack(a, u);
    NearTrans(a, u, v);
    NearTrans(a, v, b);
  }

  lemma NearBack(a: int, b: int)
    requires Near(b, a)
    ensures Near(a, b)
  {
    hide Zero;
    ZeroMul(-1, b - a);
  }

  lemma ZeroByResidue(a: int, b: int)
    requires a % P == b % P
    ensures Zero(a) <==> Zero(b)
  {
    hide Zero;
    ZeroIff(a);
    ZeroIff(b);
  }

  lemma SameResidue(a: int, b: int)
    requires Zero(a - b)
    ensures a % P == b % P
  {
    hide Zero;
    ZeroIff(a - b);
    assert a == b + (a - b) / P * P;
    ModShift(b, (a - b) / P);
  }

  lemma NearMod(a: int, b: int)
    ensures Near(a, b) <==> a % P == b % P
    ensures Near(a, a)
  {
    hide Zero;
    ZeroIff(0);
    if Near(a, b) {
      SameResidue(a, b);
    }
    if a % P == b % P {
      NearFromMod(a, b);
    }
  }

  lemma NearMul(a: int, b: int, c: int, d: int)
    requires Near(a, c) && Near(b, d)
    ensures Near(a * b, c * d)
  {
    hide Zero;
    assert a * b - c * d == b * (a - c) + c * (b - d);
    Combine2(a * b - c * d, b, a - c, c, b - d);
  }

  lemma NearAdd(a: int, b: int, c: int, d: int)
    requires Near(a, c) && Near(b, d)
    ensures Near(a + b, c + d) && Near(a - b, c - d)
  {
    hide Zero;
    Combine2(a + b - (c + d), 1, a - c, 1, b - d);
    Combine2(a - b - (c - d), 1, a - c, -1, b - d);
  }

  lemma NearZero(a: int, b: int)
    requires Near(a, b)
    ensures Zero(a) <==> Zero(b)
  {
    hide Zero;
    SameResidue(a, b);
    ZeroByResidue(a, b);
  }

  // ----- p is prime

  /** p is prime, as far as products can tell. */
  ghost predicate NoZeroDivisors() {
    forall a: int, b: int :: Zero(Prod(a, b)) ==> Zero(a) || Zero(b)
  }

  function Prod(a: int, b: int): int {
    a * b
  }

  lemma ProductZero(a: int, b: int)
    requires NoZeroDivisors() && Zero(a * b)
    ensures Zero(a) || Zero(b)
  {
    hide Zero;
    assert Zero(Prod(a, b));
  }

  lemma NonZeroProduct(a: int, b: int)
    requires NoZeroDivisors() && !Zero(a) && !Zero(b)
    ensures !Zero(a * b)
  {
    hide Zero;
    assert Prod(a, b) == a * b;
  }

  function UnitPower(a: int): int {
    Mod(Exp(a, P - 1))
  }

  /** Fermat's theorem: the power p - 1 of a unit is 1. */
  ghost predicate Fermat() {
    forall a: int :: !Zero(a) ==> UnitPower(a) == 1
  }

  /** The inverse of a unit, as fe25519_invert computes it. */
  function Inv(a: int): (r: int)
    ensures 0 <= r < P
  {
    Mod(Exp(a, P - 2))
  }

  lemma InverseOf(a: int)
    requires Fermat() && !Zero(a)
    ensures Near(a * Inv(a), 1) && !Zero(Inv(a))
  {
    hide Zero, Exp, Near;
    ExpAdd(a, 1, P - 2);
    ExpOne(a);
    assert UnitPower(a) == 1;
    var e := Exp(a, P - 2);
    ModIs(e);
    ModIs(Exp(a, P - 1));
    NearMod(e, Inv(a));
    NearMod(a, a);
    NearMul(a, e, a, Inv(a));
    NearBack(a * Inv(a), a * e);
    NearMod(a * e, 1);
    NearTrans(a * Inv(a), a * e, 1);
    NotZeroDivides(a, Inv(a));
  }

  lemma NotZeroDivides(a: int, b: int)
    requires Near(a * b, 1)
    ensures !Zero(b)
  {
    hide Zero, Near;
    ZeroIff(1);
    NearZero(a * b, 1);
    if Zero(b) {
      ZeroMul(a, b);
    }
  }

  lemma ExpOne(a: int)
    ensures Exp(a, 1) == a
  {
    assert Exp(a, 0) == 1;
  }

  /** The residue of n / d. */
  function Frac(n: int, d: int): (r: int)
    ensures 0 <= r < P
  {
    Mod(n * Inv(d))
  }

  lemma FracOf(n: int, d: int)
    requires Fermat() && !Zero(d)
    ensures Near(d * Frac(n, d), n)
  {
    hide Zero, Near, Fermat, Inv;
    InverseOf(d);
    var i := Inv(d);
    ModIs(n * i);
    NearMod(Frac(n, d), n * i);
    NearMod(d, d);
    NearMod(n, n);
    NearMul(d, Frac(n, d), d, n * i);
    NearMul(n, d * i, n, 1);
    assert d * (n * i) == n * (d * i);
    NearTrans(d * Frac(n, d), n * (d * i), n * 1);
  }

  /** A residue is n / d exactly when d times it is n. */
  lemma FracUnique(n: int, d: int, r: int)
    requires Fermat() && NoZeroDivisors() && !Zero(d) && 0 <= r < P && Near(d * r, n)
    ensures r == Frac(n, d)
  {
    hide Zero, Fermat, NoZeroDivisors, Frac;
    FracOf(n, d);
    var s := Frac(n, d);
    assert d * (r - s) == (d * r - n) - (d * s - n);
    Combine2(d * (r - s), 1, d * r - n, -1, d * s - n);
    ProductZero(d, r - s);
    SameResidue(r, s);
  }

  // ----- powers

  lemma {:induction false} NearExp(a: int, b: int, e: nat)
    requires Near(a, b)
    ensures Near(Exp(a, e), Exp(b, e))
  {
    hide Near;
    if e == 0 {
      NearMod(1, 1);
    } else {
      NearExp(a, b, e - 1);
      NearMul(a, Exp(a, e - 1), b, Exp(b, e - 1));
    }
  }

  lemma {:induction false} ExpOfProduct(a: int, b: int, e: nat)
    ensures Exp(a * b, e) == Exp(a, e) * Exp(b, e)
  {
    if e > 0 {
      ExpOfProduct(a, b, e - 1);
      Rearrange(a, b, Exp(a, e - 1), Exp(b, e - 1));
    }
  }

  lemma Rearrange(a: int, b: int, c: int, d: int)
    ensures (a * b) * (c * d) == (a * c) * (b * d)
  {
  }

  lemma ExpOfSquare(a: int, e: nat)
    ensures Exp(a * a, e) == Exp(a, 2 * e)
  {
    hide Exp;
    ExpOfProduct(a, a, e);
    ExpAdd(a, e, e);
  }

  /** The power p - 1 of a unit, up to congruence. */
  lemma UnitPowerNear(a: int)
    requires Fermat() && !Zero(a)
    ensures Near(Exp(a, P - 1), 1)
  {
    hide Zero, Exp, Near;
    assert UnitPower(a) == 1;
    ModIs(Exp(a, P - 1));
    NearMod(Exp(a, P - 1), 1);
  }
}

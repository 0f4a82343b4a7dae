/**
 The square-root computation of ge25519_unpackneg_vartime, on residues: for x^2 = num / den the power
 (p - 5) / 8 leads to x times a fourth root of unity.
 */
module SquareRoot {
  import opened Field
  import opened Residues
  import opened Edwards

  const E: nat := (P - 5) / 8
  const Q: nat := (P - 1) / 4

  lemma Exponents()
    ensures 2 * E + 1 == Q && 4 * Q == P - 1
  {
  }

  /** num den^7, in the order in which the code multiplies. */
  function Base(num: int, den: int): int {
    ((((den * den) * (den * den)) * (den * den)) * num) * den
  }

  /** power num den^3. */
  function Candidate(power: int, num: int, den: int): int {
    (((power * num) * den) * den) * den
  }

  /** x den^4 */
  function Side(x: int, den: int): int {
    x * ((den * den) * (den * den))
  }

  lemma BaseIsSquare(x: int, den: int)
    ensures Base((x * x) * den, den) == Side(x, den) * Side(x, den)
  {
    var d2 := den * den;
    var d4 := d2 * d2;
    var xx := x * x;
    assert (d4 * d2) * (xx * den) == (d4 * xx) * (d2 * den);
    assert ((d4 * xx) * (d2 * den)) * den == (d4 * xx) * ((d2 * den) * den);
    assert (d2 * den) * den == d4;
    assert (x * d4) * (x * d4) == (d4 * xx) * d4;
  }

  lemma CandidateIs(power: int, x: int, den: int)
    ensures Candidate(power, (x * x) * den, den) == (power * Side(x, den)) * x
  {
    var d2 := den * den;
    var xx := x * x;
    assert (power * (xx * den)) * den == (power * xx) * d2;
    assert ((power * xx) * d2) * den * den == (power * xx) * (d2 * d2);
    assert (power * (x * (d2 * d2))) * x == (power * xx) * (d2 * d2);
  }

  /** The fourth root of unity that comes out with x. */
  function Eta(x: int, den: int): int {
    Exp(Side(x, den), Q)
  }

  lemma CandidateNear(power: int, w: int, num: int, den: int, x: int)
    requires Near(num, (x * x) * den) && Near(w, Base(num, den)) && Near(power, Exp(w, E))
    ensures Near(Candidate(power, num, den), Eta(x, den) * x)
  {
    hide Near, Exp, Base, Candidate, Side;
    var n, s := (x * x) * den, Side(x, den);
    BaseNear(num, n, den);
    NearTrans(w, Base(num, den), Base(n, den));
    BaseIsSquare(x, den);
    NearExp(w, s * s, E);
    ExpOfSquare(s, E);
    NearTrans(power, Exp(w, E), Exp(s, 2 * E));
    NearCandidate(power, Exp(s, 2 * E), num, n, den);
    CandidateIs(Exp(s, 2 * E), x, den);
    Exponents();
    ExpAdd(s, 2 * E, 1);
    ExpOne(s);
  }

  lemma BaseNear(num: int, n: int, den: int)
    requires Near(num, n)
    ensures Near(Base(num, den), Base(n, den))
  {
    hide Near;
    var d6 := ((den * den) * (den * den)) * (den * den);
    NearMod(d6, d6);
    NearMod(den, den);
    NearMul(d6, num, d6, n);
    NearMul(d6 * num, den, d6 * n, den);
  }

  lemma NearCandidate(power: int, power': int, num: int, n: int, den: int)
    requires Near(power, power') && Near(num, n)
    ensures Near(Candidate(power, num, den), Candidate(power', n, den))
  {
    hide Near;
    NearMod(den, den);
    NearMul(power, num, power', n);
    NearMul(power * num, den, power' * n, den);
    NearMul((power * num) * den, den, (power' * n) * den, den);
    NearMul(((power * num) * den) * den, den, ((power' * n) * den) * den, den);
  }

  /** Eta is a fourth root of unity, so its square is 1 or -1. */
  lemma EtaSquare(x: int, den: int)
    requires Fermat() && NoZeroDivisors() && !Zero(x) && !Zero(den)
    ensures var e := Eta(x, den); Near(e * e, 1) || Near(e * e, -1)
  {
    hide Zero, Exp, Fermat, NoZeroDivisors;
    var s, e := Side(x, den), Eta(x, den);
    var d2 := den * den;
    NonZeroProduct(den, den);
    NonZeroProduct(d2, d2);
    NonZeroProduct(x, d2 * d2);
    Exponents();
    ExpAdd(s, Q, Q);
    ExpAdd(s, 2 * Q, 2 * Q);
    UnitPowerNear(s);
    var u := e * e;
    assert (u - 1) * (u - -1) == u * u - 1;
    ProductZero(u - 1, u - -1);
  }

  /** Squaring the candidate gives num back up to the sign of eta's square. */
  lemma CandidateSquared(c: int, e: int, x: int, num: int, den: int, sign: int)
    requires Near(c, e * x) && Near(num, (x * x) * den) && Near(e * e, sign)
    ensures Near((c * c) * den, sign * num)
  {
    hide Near;
    NearMod(den, den);
    NearMod(x * x, x * x);
    NearMod(sign, sign);
    NearMul(c, c, e * x, e * x);
    Rearrange(e, x, e, x);
    NearMul(e * e, x * x, sign, x * x);
    NearTrans(c * c, (e * e) * (x * x), sign * (x * x));
    NearMul(c * c, den, sign * (x * x), den);
    assert (sign * (x * x)) * den == sign * ((x * x) * den);
    NearMul(sign, num, sign, (x * x) * den);
    NearBack(sign * ((x * x) * den), sign * num);
    NearTrans((c * c) * den, sign * ((x * x) * den), sign * num);
  }

  /** Multiplying by a square root of -1 turns the sign around. */
  lemma TurnedSquare(c: int, i: int, num: int, den: int)
    requires Near((c * c) * den, -1 * num) && Near(i * i, -1)
    ensures Near(((c * i) * (c * i)) * den, num)
  {
    hide Near;
    Rearrange(c, i, c, i);
    var cc, ii := c * c, i * i;
    assert (cc * ii) * den == ii * (cc * den);
    NearMul(ii, cc * den, -1, -1 * num);
    assert -1 * (-1 * num) == num;
  }
}

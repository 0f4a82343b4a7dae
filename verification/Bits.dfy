/** Single bits of words, and what the bitwise operators and shifts do to them. */
module Bits {
  import opened Words

  predicate Bit(a: nat, k: nat)
    decreases k
  {
    if k == 0 then a % 2 == 1 else Bit(a / 2, k - 1)
  }

  function Shl(a: nat, k: nat): nat {
    a * Power2(k)
  }

  function Shr(a: nat, k: nat): nat {
    DivisionNonNegative(a, Power2(k));
    a / Power2(k)
  }

  lemma DivisionNonNegative(a: nat, p: nat)
    requires p > 0
    ensures a / p >= 0
  {
  }

  lemma {:induction false} BitOr(a: nat, b: nat, k: nat)
    ensures Bit(Or(a, b), k) <==> Bit(a, k) || Bit(b, k)
    decreases k
  {
    OrStep(a, b);
    if k > 0 {
      BitOr(a / 2, b / 2, k - 1);
    }
  }

  lemma OrStep(a: nat, b: nat)
    ensures Or(a, b) / 2 == Or(a / 2, b / 2) && (Or(a, b) % 2 == 1 <==> a % 2 == 1 || b % 2 == 1)
  {
    var q := Or(a / 2, b / 2);
    if a + b == 0 {
      assert q == 0;
    } else {
      assert Or(a, b) == (if a % 2 == 1 || b % 2 == 1 then 1 else 0) + 2 * q;
    }
  }

  lemma {:induction false} BitAnd(a: nat, b: nat, k: nat)
    ensures Bit(And(a, b), k) <==> Bit(a, k) && Bit(b, k)
    decreases k
  {
    AndStep(a, b);
    if k > 0 {
      BitAnd(a / 2, b / 2, k - 1);
    }
  }

  lemma AndStep(a: nat, b: nat)
    ensures And(a, b) / 2 == And(a / 2, b / 2) && (And(a, b) % 2 == 1 <==> a % 2 == 1 && b % 2 == 1)
  {
    var q := And(a / 2, b / 2);
    if a + b == 0 {
      assert q == 0;
    } else {
      assert And(a, b) == (if a % 2 == 1 && b % 2 == 1 then 1 else 0) + 2 * q;
    }
  }

  lemma {:induction false} BitOfZero(k: nat)
    ensures !Bit(0, k)
  {
    if k > 0 {
      BitOfZero(k - 1);
    }
  }

  /** A left shift moves bits up. */
  lemma {:induction false} BitShift(a: nat, s: nat, k: nat)
    ensures Bit(Shl(a, s), k) <==> k >= s && Bit(a, k - s)
    decreases s
  {
    if s > 0 {
      Halve(a, Power2(s - 1));
      if k > 0 {
        BitShift(a, s - 1, k - 1);
      }
    }
  }

  lemma Halve(a: nat, p: nat)
    ensures a * (2 * p) / 2 == a * p && a * (2 * p) % 2 == 0
  {
    assert a * (2 * p) == 2 * (a * p);
  }

  /** A right shift moves bits down. */
  lemma {:induction false} BitDiv(a: nat, s: nat, k: nat)
    ensures Bit(Shr(a, s), k) <==> Bit(a, k + s)
    decreases s
  {
    if s > 0 {
      DivTwice(a, Power2(s - 1));
      BitDiv(a / 2, s - 1, k);
    }
  }

  lemma DivTwice(a: nat, p: nat)
    requires p > 0
    ensures a / (2 * p) == a / 2 / p
  {
    ModHalves(a, p);
    var q := a / 2 / p;
    assert a / 2 == p * q + a / 2 % p;
    assert a == 2 * (a / 2) + a % 2;
    assert a == 2 * p * q + (2 * (a / 2 % p) + a % 2);
    QuotientOf(a, 2 * p, q);
  }

  lemma QuotientOf(a: nat, m: nat, q: nat)
    requires m > 0 && a == m * q + a % m
    ensures a / m == q
  {
    assert a == m * (a / m) + a % m;
    MultiplesApart(m, a / m, q);
    MultiplesApart(m, q, a / m);
  }

  lemma {:induction false} BitMod(a: nat, n: nat, k: nat)
    ensures Bit(a % Power2(n), k) <==> k < n && Bit(a, k)
    decreases n
  {
    if n == 0 {
      BitOfZero(k);
    } else {
      ModHalves(a, Power2(n - 1));
      var r := a / 2 % Power2(n - 1);
      assert (a % 2 + 2 * r) / 2 == r && (a % 2 + 2 * r) % 2 == a % 2;
      if k > 0 {
        BitMod(a / 2, n - 1, k - 1);
      }
    }
  }

  lemma {:induction false} BitAbove(a: nat, n: nat, k: nat)
    requires a < Power2(n) && k >= n
    ensures !Bit(a, k)
    decreases n
  {
    if n == 0 {
      BitOfZero(k);
    } else {
      BitAbove(a / 2, n - 1, k - 1);
    }
  }

  lemma {:induction false} BitOfPower(s: nat, k: nat)
    ensures Bit(Power2(s), k) <==> k == s
    decreases s
  {
    if s == 0 {
      if k > 0 {
        BitOfZero(k - 1);
      }
    } else if k > 0 {
      BitOfPower(s - 1, k - 1);
    }
  }

  lemma {:induction false} BitComplement(a: nat, n: nat, k: nat)
    requires a < Power2(n) && k < n
    ensures Bit(Power2(n) - 1 - a, k) <==> !Bit(a, k)
    decreases n
  {
    var c := Power2(n) - 1 - a;
    assert c / 2 == Power2(n - 1) - 1 - a / 2;
    if k > 0 {
      BitComplement(a / 2, n - 1, k - 1);
    }
  }

  lemma {:induction false} BitsDetermine(a: nat, b: nat, n: nat)
    requires a < Power2(n) && b < Power2(n) && forall k :: 0 <= k < n ==> (Bit(a, k) <==> Bit(b, k))
    ensures a == b
    decreases n
  {
    if n > 0 {
      assert Bit(a, 0) <==> Bit(b, 0);
      forall k | 0 <= k < n - 1
        ensures Bit(a / 2, k) <==> Bit(b / 2, k)
      {
        assert Bit(a, k + 1) <==> Bit(b, k + 1);
      }
      BitsDetermine(a / 2, b / 2, n - 1);
    }
  }

  /** A nonzero word has a bit. */
  lemma {:induction false} SomeBit(a: nat, n: nat)
    requires 0 < a < Power2(n)
    ensures exists k :: 0 <= k < n && Bit(a, k)
    decreases n
  {
    if a % 2 == 1 {
      assert Bit(a, 0);
    } else {
      SomeBit(a / 2, n - 1);
      var k :| 0 <= k < n - 1 && Bit(a / 2, k);
      assert Bit(a, k + 1);
    }
  }

  /** The top bit of an n-bit word says whether it reaches half the range. */
  lemma {:induction false} TopBit(a: nat, n: nat)
    requires n > 0 && a < Power2(n)
    ensures Bit(a, n - 1) <==> a >= Power2(n - 1)
    decreases n
  {
    if n > 1 {
      TopBit(a / 2, n - 1);
    }
  }

  lemma {:induction false} AndAtMost(a: nat, b: nat)
    ensures And(a, b) <= a
    decreases a + b
  {
    if a + b != 0 {
      AndAtMost(a / 2, b / 2);
    }
  }
}

/** Unsigned machine words and the bitwise operators the C sources apply to them. */
module Words {

  /** A C `unsigned int`.  Storing an exact sum, product or difference in one proves that it did not wrap. */
  type u32 = x: int | 0 <= x < 0x1_0000_0000

  type byte = x: int | 0 <= x < 256

  /** Subtraction of 32-bit words, wrapping below zero. */
  function Sub32(a: int, b: int): (r: u32)
    ensures 0 <= a - b < 0x1_0000_0000 ==> r == a - b
  {
    (a - b) % 0x1_0000_0000
  }

  function Min(a: int, b: int): int {
    if a < b then a else b
  }

  function Power2(n: nat): (r: nat)
    ensures r >= 1
  {
    if n == 0 then 1 else 2 * Power2(n - 1)
  }

  function Xor(a: nat, b: nat): nat
    decreases a + b
  {
    if a + b == 0 then 0 else (a + b) % 2 + 2 * Xor(a / 2, b / 2)
  }

  function And(a: nat, b: nat): nat
    decreases a + b
  {
    if a + b == 0 then 0 else (if a % 2 == 1 && b % 2 == 1 then 1 else 0) + 2 * And(a / 2, b / 2)
  }

  lemma {:induction false} XorIsZero(a: nat, b: nat)
    ensures Xor(a, b) == 0 <==> a == b
    decreases a + b
  {
    if a + b != 0 {
      XorIsZero(a / 2, b / 2);
    }
  }

  lemma {:induction false} XorBelow(a: nat, b: nat, n: nat)
    requires a < Power2(n) && b < Power2(n)
    ensures Xor(a, b) < Power2(n)
    decreases a + b
  {
    if a + b != 0 {
      XorBelow(a / 2, b / 2, n - 1);
    }
  }

  lemma XorStep(a: nat, b: nat)
    ensures Xor(a, b) == (a + b) % 2 + 2 * Xor(a / 2, b / 2)
    ensures Xor(a, b) / 2 == Xor(a / 2, b / 2) && Xor(a, b) % 2 == (a + b) % 2
  {
    if a + b == 0 {
      assert Xor(0, 0) == 0;
    } else {
      var q, r := Xor(a / 2, b / 2), (a + b) % 2;
      assert Xor(a, b) == r + 2 * q;
    }
  }

  lemma ParityTwice(a: int, b: int)
    ensures ((a + b) % 2 + b) % 2 == a % 2
  {
  }

  lemma {:induction false} XorSelfInverse(a: nat, b: nat)
    ensures Xor(Xor(a, b), b) == a
    decreases a + b
  {
    hide Xor;
    XorStep(a, b);
    XorStep(Xor(a, b), b);
    if a + b == 0 {
      XorIsZero(0, 0);
    } else {
      XorSelfInverse(a / 2, b / 2);
      SameParity(Xor(a, b), (a + b) % 2, b);
      ParityTwice(a, b);
    }
  }

  lemma SameParity(x: int, r: int, b: int)
    requires x % 2 == r
    ensures (x + b) % 2 == (r + b) % 2
  {
    assert x == 2 * (x / 2) + r;
  }

  /** Masking with n ones keeps the n low bits. */
  lemma {:induction false} AndOnes(n: nat, b: nat)
    requires b < Power2(n)
    ensures And(Power2(n) - 1, b) == b && And(0, b) == 0
    decreases n + b
  {
    if n > 0 {
      AndOnes(n - 1, b / 2);
    } 
  }

  lemma Power2At32()
    ensures Power2(32) == 0x1_0000_0000
  {
    assert Power2(8) == 256 && Power2(16) == 0x1_0000 && Power2(24) == 0x100_0000;
  }

  /** An all-ones mask selects its operand, a zero mask clears it. */
  lemma MaskSelects(b: u32)
    ensures And(0xffff_ffff, b) == b && And(0, b) == 0
  {
    Power2At32();
    AndOnes(32, b);
  }

  /** The branchless choice: an all-ones mask turns a into b, a zero mask keeps it. */
  lemma MaskedXor(a: u32, b: u32)
    ensures Xor(a, b) == Xor(b, a) < 0x1_0000_0000
    ensures Xor(a, And(0xffff_ffff, Xor(a, b))) == b && Xor(a, And(0, Xor(a, b))) == a
  {
    hide Xor, And, Power2;
    Power2At32();
    XorBelow(a, b, 32);
    MaskSelects(Xor(a, b));
    XorSymmetric(a, b);
    XorSelfInverse(b, a);
    XorSymmetric(a, Xor(a, b));
    XorZero(a);
  }

  lemma AndOfBits(a: nat, b: nat)
    requires a <= 1 && b <= 1
    ensures And(a, b) == if a == 1 && b == 1 then 1 else 0
  {
  }

  lemma {:induction false} XorSymmetric(a: nat, b: nat)
    ensures Xor(a, b) == Xor(b, a)
    decreases a + b
  {
    if a + b != 0 {
      XorSymmetric(a / 2, b / 2);
    }
  }

  lemma {:induction false} XorZero(a: nat)
    ensures Xor(a, 0) == a
  {
    if a != 0 {
      XorZero(a / 2);
    }
  }

  function Or(a: nat, b: nat): nat
    decreases a + b
  {
    if a + b == 0 then 0 else (if a % 2 == 1 || b % 2 == 1 then 1 else 0) + 2 * Or(a / 2, b / 2)
  }

  lemma {:induction false} OrIsZero(a: nat, b: nat)
    ensures Or(a, b) == 0 <==> a == 0 && b == 0
    decreases a + b
  {
    if a + b != 0 {
      OrIsZero(a / 2, b / 2);
    }
  }

  lemma {:induction false} OrBelow(a: nat, b: nat, n: nat)
    requires a < Power2(n) && b < Power2(n)
    ensures Or(a, b) < Power2(n)
    decreases a + b
  {
    if a + b != 0 {
      OrBelow(a / 2, b / 2, n - 1);
    }
  }

  lemma {:induction false} AndSymmetric(a: nat, b: nat)
    ensures And(a, b) == And(b, a)
    decreases a + b
  {
    if a + b != 0 {
      AndSymmetric(a / 2, b / 2);
    }
  }

  /** And with the n lowest ones is the remainder modulo 2^n. */
  lemma {:induction false} AndMod(a: nat, n: nat)
    ensures And(a, Power2(n) - 1) == a % Power2(n)
    decreases n
  {
    hide And;
    if n == 0 {
      AndNothing(a);
    } else {
      AndMod(a / 2, n - 1);
      ModHalves(a, Power2(n - 1));
      AndLowBit(a, Power2(n - 1));
    }
  }

  lemma AndLowBit(a: nat, m: nat)
    requires m >= 1
    ensures And(a, 2 * m - 1) == a % 2 + 2 * And(a / 2, m - 1)
  {
    assert (2 * m - 1) / 2 == m - 1 && (2 * m - 1) % 2 == 1;
  }

  lemma {:induction false} AndNothing(a: nat)
    ensures And(a, 0) == 0
  {
    if a > 0 {
      AndNothing(a / 2);
    }
  }

  lemma ModHalves(a: nat, m: nat)
    requires m > 0
    ensures a % (2 * m) == a % 2 + 2 * (a / 2 % m)
  {
    var q, r := a / 2 / m, a / 2 % m;
    assert a == 2 * m * q + (2 * r + a % 2);
    ModOf(a, 2 * m, q, 2 * r + a % 2);
  }

  lemma ModOf(a: nat, m: nat, q: nat, r: nat)
    requires 0 <= r < m && a == m * q + r
    ensures a % m == r
  {
    var d := a / m;
    assert m * d + a % m == a;
    MultiplesApart(m, d, q);
    MultiplesApart(m, q, d);
  }

  lemma MultiplesApart(m: nat, d: int, q: int)
    ensures d < q ==> m * q >= m * d + m
  {
    var gap := q - d - 1;
    if gap >= 0 {
      assert m * gap >= 0;
      assert m * q == m * (d + 1 + gap) == m * d + m + m * gap;
    }
  }

  lemma {:induction false} OrAtLeast(a: nat, b: nat)
    ensures Or(a, b) >= b
    decreases a + b
  {
    if a + b != 0 {
      OrAtLeast(a / 2, b / 2);
    }
  }

  lemma ByteXorBelow(a: nat, b: nat)
    requires a <= 255 && b <= 255
    ensures Xor(a, b) <= 255
  {
    hide Xor;
    assert Power2(8) == 256;
    XorBelow(a, b, 8);
  }

  function XorByte(a: byte, b: byte): (r: byte)
    ensures r == Xor(a, b)
  {
    ByteXorBelow(a, b);
    Xor(a, b)
  }

  lemma XorByteTwice(a: byte, b: byte)
    ensures XorByte(XorByte(a, b), b) == a
  {
    hide Xor;
    XorSelfInverse(a, b);
  }

  /** Byte by byte; positions beyond the second operand are left alone. */
  function XorBytes(a: seq<byte>, b: seq<byte>): (r: seq<byte>)
    ensures |r| == |a|
  {
    seq(|a|, i requires 0 <= i < |a| => if i < |b| then XorByte(a[i], b[i]) else a[i])
  }

  lemma XorBytesTwice(a: seq<byte>, b: seq<byte>)
    ensures XorBytes(XorBytes(a, b), b) == a
  {
    hide XorByte;
    forall i | 0 <= i < |a|
      ensures XorBytes(XorBytes(a, b), b)[i] == a[i]
    {
      if i < |b| {
        XorByteTwice(a[i], b[i]);
      }
    }
  }

  /** Setting a bit above all others adds it. */
  lemma {:induction false} XorAbove(v: nat, n: nat)
    requires v < Power2(n)
    ensures Xor(v, Power2(n)) == v + Power2(n)
    decreases n
  {
    hide Xor;
    if n == 0 {
      XorSymmetric(0, 1);
      XorZero(1);
    } else {
      XorStep(v, Power2(n));
      XorAbove(v / 2, n - 1);
    }
  }

  /** Slices that agree element by element. */
  lemma SameSlice(a: seq<int>, from: nat, b: seq<int>, lo: nat, hi: nat)
    requires lo <= hi <= |b| && from + hi <= |a| && forall k :: lo <= k < hi ==> a[from + k] == b[k]
    ensures a[from + lo..from + hi] == b[lo..hi]
  {
    forall i | 0 <= i < hi - lo
      ensures a[from + lo..from + hi][i] == b[lo..hi][i]
    {
      assert a[from + (lo + i)] == b[lo + i];
    }
  }
}

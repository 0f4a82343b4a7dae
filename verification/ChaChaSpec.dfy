/**
 The ChaCha20 block function and the stream it gives (chacha.c), on sequences: sixteen words of
 state, a 64-bit block counter in words 12 and 13, messages xored with consecutive blocks.
 */
module ChaChaSpec {
  import opened Words
  import opened Bits

  const TWO_32: int := 0x1_0000_0000
  const TWO_64: int := 0x1_0000_0000_0000_0000

  /** Sixteen 32-bit words. */
  type State = s: seq<u32> | |s| == 16 witness seq(16, _ => 0)

  function Plus(a: u32, b: u32): u32 {
    (a + b) % TWO_32
  }

  function XorWord(a: u32, b: u32): (r: u32)
    ensures r == Xor(a, b)
  {
    WordXorBelow(a, b);
    Xor(a, b)
  }

  lemma WordXorBelow(a: u32, b: u32)
    ensures Xor(a, b) < TWO_32
  {
    hide Xor;
    Power2At32();
    XorBelow(a, b, 32);
  }

  function Rotate(v: u32, n: nat): u32
    requires n <= 32
  {
    RotateBelow(v, n);
    Or(Shl(v, n) % TWO_32, Shr(v, 32 - n))
  }

  lemma RotateBelow(v: u32, n: nat)
    requires n <= 32
    ensures Shl(v, n) % TWO_32 >= 0
    ensures Or(Shl(v, n) % TWO_32, Shr(v, 32 - n)) < TWO_32
  {
    hide Or, Shl;
    Power2At32();
    ShrAtMost(v, 32 - n);
    OrBelow(Shl(v, n) % TWO_32, Shr(v, 32 - n), 32);
  }

  lemma ShrAtMost(a: nat, k: nat)
    ensures Shr(a, k) <= a
  {
    QuotientAtMost(a, Power2(k));
  }

  lemma QuotientAtMost(a: nat, p: nat)
    requires p > 0
    ensures a / p <= a
  {
    var q, r := a / p, a % p;
    assert a == p * q + r;
    MultiplesApart(q, 1, p);
    assert q >= 0;
  }

  // ----- the block function

  function QuarterRound(x: State, a: nat, b: nat, c: nat, d: nat): State
    requires a < 16 && b < 16 && c < 16 && d < 16
  {
    var x := x[a := Plus(x[a], x[b])];
    var x := x[d := Rotate(XorWord(x[d], x[a]), 16)];
    var x := x[c := Plus(x[c], x[d])];
    var x := x[b := Rotate(XorWord(x[b], x[c]), 12)];
    var x := x[a := Plus(x[a], x[b])];
    var x := x[d := Rotate(XorWord(x[d], x[a]), 8)];
    var x := x[c := Plus(x[c], x[d])];
    x[b := Rotate(XorWord(x[b], x[c]), 7)]
  }

  /** Four rounds on the columns, four on the diagonals. */
  function DoubleRound(x: State): State {
    var x := QuarterRound(x, 0, 4, 8, 12);
    var x := QuarterRound(x, 1, 5, 9, 13);
    var x := QuarterRound(x, 2, 6, 10, 14);
    var x := QuarterRound(x, 3, 7, 11, 15);
    var x := QuarterRound(x, 0, 5, 10, 15);
    var x := QuarterRound(x, 1, 6, 11, 12);
    var x := QuarterRound(x, 2, 7, 8, 13);
    QuarterRound(x, 3, 4, 9, 14)
  }

  function Rounds(x: State, n: nat): State {
    if n == 0 then x else DoubleRound(Rounds(x, n - 1))
  }

  function BlockWords(j: State): State {
    Sum(Rounds(j, 10), j)
  }

  function Sum(x: State, j: State): State {
    seq(16, k requires 0 <= k < 16 => Plus(x[k], j[k]))
  }

  function Load(b: seq<byte>, at: nat): u32
    requires at + 4 <= |b|
  {
    b[at] as int + 0x100 * b[at + 1] as int + 0x1_0000 * b[at + 2] as int + 0x100_0000 * b[at + 3] as int
  }

  function Store(v: u32): (b: seq<byte>)
    ensures |b| == 4
  {
    [v % 0x100, v / 0x100 % 0x100, v / 0x1_0000 % 0x100, v / 0x100_0000]
  }

  function Serialized(x: seq<u32>): (b: seq<byte>)
    ensures |b| == 4 * |x|
  {
    if x == [] then [] else Serialized(x[..|x| - 1]) + Store(x[|x| - 1])
  }

  /** 64 bytes of key stream. */
  function Block(j: State): (b: seq<byte>)
    ensures |b| == 64
  {
    Serialized(BlockWords(j))
  }

  // ----- key and nonce

  /** The ASCII bytes of "expand 32-byte k" or "expand 16-byte k". */
  function Constants(kbits: nat): (b: seq<byte>)
    ensures |b| == 16
  {
    if kbits == 256 then [101, 120, 112, 97, 110, 100, 32, 51, 50, 45, 98, 121, 116, 101, 32, 107]
    else [101, 120, 112, 97, 110, 100, 32, 49, 54, 45, 98, 121, 116, 101, 32, 107]
  }

  /** Words 0 to 11; a 16-byte key is used twice. */
  function KeyPart(k: seq<byte>, kbits: nat): (w: seq<u32>)
    requires |k| == if kbits == 256 then 32 else 16
    ensures |w| == 12
  {
    var s := Constants(kbits);
    var tail := if kbits == 256 then k[16..] else k;
    [Load(s, 0), Load(s, 4), Load(s, 8), Load(s, 12), Load(k, 0), Load(k, 4), Load(k, 8), Load(k, 12),
     Load(tail, 0), Load(tail, 4), Load(tail, 8), Load(tail, 12)]
  }

  function WithIv(key: seq<u32>, iv: seq<byte>, counter: seq<byte>): State
    requires |key| == 12 && |iv| == 8 && (|counter| == 8 || counter == [])
  {
    key + [if counter == [] then 0 else Load(counter, 0), if counter == [] then 0 else Load(counter, 4), Load(iv, 0), Load(iv, 4)]
  }

  // ----- the counter

  function Counter(j: State): (n: nat)
    ensures n < TWO_64
  {
    j[12] + TWO_32 * j[13]
  }

  function WithCounter(j: State, n: nat): State {
    j[12 := n % TWO_32][13 := n / TWO_32 % TWO_32]
  }

  /** The counter step of the code: a carry into the second word when the first wraps. */
  function Next(j: State): State {
    var low := Plus(j[12], 1);
    if low == 0 then j[12 := 0][13 := Plus(j[13], 1)] else j[12 := low]
  }

  function Advanced(j: State, n: nat): State {
    if n == 0 then j else Next(Advanced(j, n - 1))
  }

  lemma NextCounts(j: State)
    ensures Next(j) == WithCounter(j, (Counter(j) + 1) % TWO_64)
  {
    var n := Counter(j);
    assert n % TWO_32 == j[12] && n / TWO_32 == j[13];
  }

  lemma CounterOf(j: State, n: nat)
    requires n < TWO_64
    ensures Counter(WithCounter(j, n)) == n
  {
  }

  lemma WithCounterTwice(j: State, n: nat, m: nat)
    ensures WithCounter(WithCounter(j, n), m) == WithCounter(j, m)
  {
  }

  /** n steps add n to the 64-bit counter and touch no other word. */
  lemma {:induction false} AdvancedCounts(j: State, n: nat)
    ensures Advanced(j, n) == WithCounter(j, (Counter(j) + n) % TWO_64)
  {
    hide WithCounter, Counter, Next;
    if n == 0 {
      CounterUnchanged(j);
    } else {
      AdvancedCounts(j, n - 1);
      var c := (Counter(j) + n - 1) % TWO_64;
      NextCounts(Advanced(j, n - 1));
      CounterOf(j, c);
      WithCounterTwice(j, c, (c + 1) % TWO_64);
      AddOneMod(Counter(j) + n - 1);
    }
  }

  lemma CounterUnchanged(j: State)
    ensures WithCounter(j, Counter(j) % TWO_64) == j
  {
    var n := Counter(j);
    assert n % TWO_32 == j[12] && n / TWO_32 == j[13];
  }

  lemma AddOneMod(a: int)
    ensures (a % TWO_64 + 1) % TWO_64 == (a + 1) % TWO_64
  {
  }

  // ----- the stream cipher

  /** m xored with the blocks from state j on. */
  function Crypt(j: State, m: seq<byte>): (c: seq<byte>)
    ensures |c| == |m|
    decreases |m|
  {
    if m == [] then []
    else if |m| <= 64 then XorBytes(m, Block(j))
    else XorBytes(m[..64], Block(j)) + Crypt(Next(j), m[64..])
  }

  function Blocks(bytes: nat): nat {
    (bytes + 63) / 64
  }

  /** The same key stream takes the message back out. */
  lemma {:induction false} CryptTwice(j: State, m: seq<byte>)
    ensures Crypt(j, Crypt(j, m)) == m
    decreases |m|
  {
    hide XorBytes, Block, Next;
    if |m| <= 64 {
      XorBytesTwice(m, Block(j));
    } else {
      var c := Crypt(j, m);
      var head, tail := XorBytes(m[..64], Block(j)), Crypt(Next(j), m[64..]);
      assert c[..64] == head && c[64..] == tail;
      XorBytesTwice(m[..64], Block(j));
      CryptTwice(Next(j), m[64..]);
      assert m == m[..64] + m[64..];
    }
  }

  /** Whole blocks may be processed in a call of their own. */
  lemma {:induction false} CryptInTwoCalls(j: State, a: seq<byte>, b: seq<byte>)
    requires |a| % 64 == 0
    ensures Crypt(j, a + b) == Crypt(j, a) + Crypt(Advanced(j, |a| / 64), b)
    decreases |a|
  {
    hide XorBytes, Block, Next;
    if a == [] {
      assert a + b == b;
    } else if b == [] {
      assert a + b == a;
    } else {
      var rest := a[64..];
      assert (a + b)[..64] == a[..64] && (a + b)[64..] == rest + b;
      CryptInTwoCalls(Next(j), rest, b);
      AdvancedAfterNext(j, |rest| / 64);
      assert |a| / 64 == |rest| / 64 + 1;
      FirstBlock(j, a);
    }
  }

  lemma FirstBlock(j: State, a: seq<byte>)
    requires |a| >= 64
    ensures Crypt(j, a) == XorBytes(a[..64], Block(j)) + Crypt(Next(j), a[64..])
  {
    hide XorBytes, Block, Next;
    if |a| == 64 {
      assert a[..64] == a && a[64..] == [];
    }
  }

  lemma {:induction false} AdvancedAfterNext(j: State, n: nat)
    ensures Advanced(Next(j), n) == Advanced(j, n + 1)
  {
    hide Next;
    if n > 0 {
      AdvancedAfterNext(j, n - 1);
    } else {
      assert Advanced(j, 0) == j;
    }
  }

  /** A prefix of the message gives the prefix of the result. */
  lemma {:induction false} CryptPrefix(j: State, m: seq<byte>, n: nat)
    requires n <= |m|
    ensures Crypt(j, m[..n]) == Crypt(j, m)[..n]
    decreases n
  {
    hide Block, Next, XorByte;
    if n <= 64 {
      if |m| > 64 {
        assert m[..64][..n] == m[..n];
        XorPrefix(m[..64], Block(j), n);
      } else {
        XorPrefix(m, Block(j), n);
      }
    } else {
      assert m[..n][..64] == m[..64] && m[..n][64..] == m[64..][..n - 64];
      CryptPrefix(Next(j), m[64..], n - 64);
    }
  }

  lemma XorPrefix(a: seq<byte>, b: seq<byte>, n: nat)
    requires n <= |a|
    ensures XorBytes(a[..n], b) == XorBytes(a, b)[..n]
  {
    hide XorByte;
  }

  /** Byte i is xored with byte i mod 64 of block i / 64. */
  lemma {:induction false} CryptByte(j: State, m: seq<byte>, i: nat)
    requires i < |m|
    ensures Crypt(j, m)[i] == XorByte(m[i], Block(Advanced(j, i / 64))[i % 64])
    decreases |m|
  {
    hide Block, Next, XorByte;
    if i < 64 {
      assert Advanced(j, 0) == j;
    } else {
      CryptByte(Next(j), m[64..], i - 64);
      AdvancedAfterNext(j, (i - 64) / 64);
      assert i / 64 == (i - 64) / 64 + 1 && i % 64 == (i - 64) % 64;
    }
  }

  lemma CryptPush(j: State, m: seq<byte>, done: nat, n: nat)
    requires done + n <= |m| && done % 64 == 0
    ensures Crypt(j, m[..done + n]) == Crypt(j, m[..done]) + Crypt(Advanced(j, done / 64), m[done..done + n])
  {
    hide Crypt, Advanced;
    CryptInTwoCalls(j, m[..done], m[done..done + n]);
    assert m[..done + n] == m[..done] + m[done..done + n];
  }

  lemma OneBlock(j: State, m: seq<byte>)
    requires 0 < |m| <= 64
    ensures Crypt(j, m) == XorBytes(m, Block(j))
  {
    hide XorBytes, Block;
  }

  lemma NoSteps(j: State)
    ensures Advanced(j, 0) == j && Crypt(j, []) == [] && Blocks(0) == 0
  {
  }

  lemma StepsPush(j: State, n: nat)
    ensures Advanced(j, n + 1) == Next(Advanced(j, n))
  {
    hide Next;
  }

  /** Steps leave every word but the counter alone. */
  lemma {:induction false} OnlyCounterDiffers(j: State, n: nat)
    ensures Advanced(j, n) == j[12 := Advanced(j, n)[12]][13 := Advanced(j, n)[13]]
  {
    if n > 0 {
      OnlyCounterDiffers(j, n - 1);
    }
  }
}

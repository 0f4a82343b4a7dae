/** chacha.c on arrays: the sixteen working words, the context's counter, and output in place or apart. */
module ChaCha {
  import opened Words
  import opened Bits
  import opened ChaChaSpec

  // ----- words and bytes under xor

  function Low(a: nat, n: nat): nat {
    a % Power2(n)
  }

  lemma Halving(a: nat, n: nat)
    requires n > 0
    ensures Shr(a, n) == Shr(a / 2, n - 1) && Low(a, n) == a % 2 + 2 * Low(a / 2, n - 1)
  {
    DivTwice(a, Power2(n - 1));
    ModHalves(a, Power2(n - 1));
  }

  lemma Whole(a: nat)
    ensures Shr(a, 0) == a && Low(a, 0) == 0
  {
  }

  /** Xor works on the high and on the low part separately. */
  lemma {:induction false} XorParts(a: nat, b: nat, n: nat)
    ensures Shr(Xor(a, b), n) == Xor(Shr(a, n), Shr(b, n))
    ensures Low(Xor(a, b), n) == Xor(Low(a, n), Low(b, n))
    decreases n
  {
    hide Xor, Shr, Low;
    XorStep(a, b);
    if n == 0 {
      Whole(a);
      Whole(b);
      Whole(Xor(a, b));
      XorIsZero(0, 0);
    } else {
      XorParts(a / 2, b / 2, n - 1);
      Halving(a, n);
      Halving(b, n);
      Halving(Xor(a, b), n);
      XorJoin(a % 2, b % 2, Low(a / 2, n - 1), Low(b / 2, n - 1));
      SumParity(a, b);
    }
  }

  lemma XorJoin(r: nat, s: nat, x: nat, y: nat)
    requires r <= 1 && s <= 1
    ensures Xor(r + 2 * x, s + 2 * y) == (r + s) % 2 + 2 * Xor(x, y)
  {
    hide Xor;
    XorStep(r + 2 * x, s + 2 * y);
    assert (r + 2 * x) / 2 == x && (s + 2 * y) / 2 == y;
    assert (r + 2 * x + (s + 2 * y)) % 2 == (r + s) % 2;
  }

  lemma SumParity(a: nat, b: nat)
    ensures (a % 2 + b % 2) % 2 == (a + b) % 2
  {
  }

  /** A word xored with a loaded word stores as the bytes xored. */
  lemma StoreXor(v: u32, m: seq<byte>)
    requires |m| == 4
    ensures Store(XorWord(v, Load(m, 0))) == XorBytes(m, Store(v))
  {
    hide Xor, Shr, Low, Load, XorByte;
    var w := Load(m, 0);
    var x := XorWord(v, w);
    BytesOfWord(v);
    BytesOfWord(w);
    BytesOfWord(x);
    XorParts(v, w, 8);
    XorParts(v, w, 16);
    XorParts(v, w, 24);
    XorParts(Shr(v, 8), Shr(w, 8), 8);
    XorParts(Shr(v, 16), Shr(w, 16), 8);
    LoadParts(m);
    forall i | 0 <= i < 4
      ensures Store(x)[i] == XorBytes(m, Store(v))[i]
    {
      XorSymmetric(m[i], Store(v)[i]);
    }
  }

  lemma BytesOfWord(v: u32)
    ensures Store(v) == [Low(v, 8), Low(Shr(v, 8), 8), Low(Shr(v, 16), 8), Shr(v, 24)]
  {
    assert Power2(8) == 0x100 && Power2(16) == 0x1_0000 && Power2(24) == 0x100_0000;
  }

  lemma Peel(a: int, x: int)
    requires 0 <= a < 0x100
    ensures (a + 0x100 * x) % 0x100 == a && (a + 0x100 * x) / 0x100 == x
  {
  }

  lemma DivideAgain(w: nat)
    ensures w / 0x1_0000 == w / 0x100 / 0x100 && w / 0x100_0000 == w / 0x100 / 0x100 / 0x100
  {
  }

  /** Storing gives back the loaded bytes. */
  lemma LoadParts(m: seq<byte>)
    requires |m| == 4
    ensures Store(Load(m, 0)) == m
  {
    var a, b, c, d := m[0] as int, m[1] as int, m[2] as int, m[3] as int;
    var w := Load(m, 0);
    var high := c + 0x100 * d;
    Peel(a, b + 0x100 * high);
    Peel(b, high);
    Peel(c, d);
    assert w == a + 0x100 * (b + 0x100 * high);
    DivideAgain(w);
  }

  lemma {:induction false} SerializedXor(x: seq<u32>, m: seq<byte>, y: seq<u32>)
    requires |m| == 4 * |x| && |y| == |x|
    requires forall k :: 0 <= k < |x| ==> y[k] == XorWord(x[k], Load(m, 4 * k))
    ensures Serialized(y) == XorBytes(m, Serialized(x))
  {
    hide XorWord, XorByte, Store, Load;
    if x != [] {
      var n := |x| - 1;
      var front, last := m[..4 * n], m[4 * n..];
      LoadSlice(m, 4 * n);
      forall k | 0 <= k < n
        ensures Load(front, 4 * k) == Load(m, 4 * k)
      {
        LoadPrefix(m, 4 * n, 4 * k);
      }
      SerializedXor(x[..n], front, y[..n]);
      StoreXor(x[n], last);
      XorAppend(front, last, Serialized(x[..n]), Store(x[n]));
      assert m == front + last;
    }
  }

  lemma LoadSlice(m: seq<byte>, at: nat)
    requires at + 4 == |m|
    ensures Load(m[at..], 0) == Load(m, at)
  {
  }

  lemma LoadPrefix(m: seq<byte>, n: nat, at: nat)
    requires at + 4 <= n <= |m|
    ensures Load(m[..n], at) == Load(m, at)
  {
  }

  lemma XorAppend(a: seq<byte>, b: seq<byte>, c: seq<byte>, d: seq<byte>)
    requires |a| == |c| && |b| == |d|
    ensures XorBytes(a + b, c + d) == XorBytes(a, c) + XorBytes(b, d)
  {
    hide XorByte;
  }

  // ----- the block function in place

  method QuarterRoundInPlace(x: array<u32>, a: nat, b: nat, c: nat, d: nat)
    requires x.Length == 16 && a < 16 && b < 16 && c < 16 && d < 16
    modifies x
    ensures x[..] == QuarterRound(old(x[..]), a, b, c, d)
  {
    hide Plus, Rotate, XorWord;
    ghost var s := x[..];
    x[a] := Plus(x[a], x[b]);
    s := s[a := Plus(s[a], s[b])];
    assert x[..] == s;
    x[d] := Rotate(XorWord(x[d], x[a]), 16);
    s := s[d := Rotate(XorWord(s[d], s[a]), 16)];
    assert x[..] == s;
    x[c] := Plus(x[c], x[d]);
    s := s[c := Plus(s[c], s[d])];
    assert x[..] == s;
    x[b] := Rotate(XorWord(x[b], x[c]), 12);
    s := s[b := Rotate(XorWord(s[b], s[c]), 12)];
    assert x[..] == s;
    x[a] := Plus(x[a], x[b]);
    s := s[a := Plus(s[a], s[b])];
    assert x[..] == s;
    x[d] := Rotate(XorWord(x[d], x[a]), 8);
    s := s[d := Rotate(XorWord(s[d], s[a]), 8)];
    assert x[..] == s;
    x[c] := Plus(x[c], x[d]);
    s := s[c := Plus(s[c], s[d])];
    assert x[..] == s;
    x[b] := Rotate(XorWord(x[b], x[c]), 7);
    s := s[b := Rotate(XorWord(s[b], s[c]), 7)];
    assert x[..] == s;
  }

  method DoubleRoundInPlace(x: array<u32>)
    requires x.Length == 16
    modifies x
    ensures x[..] == DoubleRound(old(x[..]))
  {
    hide QuarterRound;
    QuarterRoundInPlace(x, 0, 4, 8, 12);
    QuarterRoundInPlace(x, 1, 5, 9, 13);
    QuarterRoundInPlace(x, 2, 6, 10, 14);
    QuarterRoundInPlace(x, 3, 7, 11, 15);
    QuarterRoundInPlace(x, 0, 5, 10, 15);
    QuarterRoundInPlace(x, 1, 6, 11, 12);
    QuarterRoundInPlace(x, 2, 7, 8, 13);
    QuarterRoundInPlace(x, 3, 4, 9, 14);
  }

  /** Twenty rounds on a copy of the state, then the state added word by word. */
  method KeyWords(j: State) returns (x: array<u32>)
    ensures fresh(x) && x.Length == 16 && x[..] == BlockWords(j)
  {
    hide DoubleRound, Plus;
    x := new u32[16](k requires 0 <= k < 16 => j[k]);
    assert x[..] == j;
    var i := 20;
    while i > 0
      invariant 0 <= i <= 20 && i % 2 == 0
      invariant x[..] == Rounds(j, (20 - i) / 2)
      modifies x
    {
      DoubleRoundInPlace(x);
      i := i - 2;
    }
    ghost var r := x[..];
    for k := 0 to 16
      modifies x
      invariant forall l :: 0 <= l < 16 ==> x[l] == if l < k then Plus(r[l], j[l]) else r[l]
    {
      x[k] := Plus(x[k], j[k]);
    }
    assert x[..] == Sum(r, j);
  }

  /** Xor 64 message bytes into the words. */
  method XorMessage(x: array<u32>, m: array<byte>, at: nat)
    requires x.Length == 16 && at + 64 <= m.Length
    modifies x
    ensures Serialized(x[..]) == XorBytes(m[at..at + 64], Serialized(old(x[..])))
  {
    hide XorWord, Load, XorBytes, Serialized;
    ghost var x0, m0 := x[..], m[at..at + 64];
    for k := 0 to 16
      invariant forall l :: 0 <= l < 16 ==> x[l] == if l < k then XorWord(x0[l], Load(m0, 4 * l)) else x0[l]
    {
      assert m[at + 4 * k..at + 4 * k + 4] == m0[4 * k..4 * k + 4];
      LoadAt(m0, 4 * k);
      x[k] := XorWord(x[k], Load(m[at + 4 * k..at + 4 * k + 4], 0));
    }
    SerializedXor(x0, m0, x[..]);
  }

  lemma LoadAt(m: seq<byte>, at: nat)
    requires at + 4 <= |m|
    ensures Load(m[at..at + 4], 0) == Load(m, at)
  {
  }

  /** Write the words out as 64 bytes. */
  method StoreWords(x: array<u32>, c: array<byte>, at: nat)
    requires x.Length == 16 && at + 64 <= c.Length
    modifies c
    ensures c[at..at + 64] == Serialized(x[..])
    ensures forall k :: 0 <= k < c.Length && !(at <= k < at + 64) ==> c[k] == old(c[k])
  {
    hide Store;
    for k := 0 to 16
      invariant c[at..at + 4 * k] == Serialized(x[..k])
      invariant forall l :: 0 <= l < c.Length && !(at <= l < at + 4 * k) ==> c[l] == old(c[l])
    {
      ghost var before := c[at..at + 4 * k];
      var p := Store(x[k]);
      var q := at + 4 * k;
      c[q], c[q + 1], c[q + 2], c[q + 3] := p[0], p[1], p[2], p[3];
      assert c[at..at + 4 * (k + 1)] == before + p;
      assert x[..k + 1][..k] == x[..k] && x[..k + 1][k] == x[k];
    }
    assert x[..16] == x[..];
  }

  // ----- the context

  class Context {
    const input: array<u32>

    ghost predicate Valid() {
      input.Length == 16
    }

    /** chacha_keysetup: 256 or 128 key bits. */
    constructor (k: seq<byte>, kbits: nat)
      requires (kbits == 256 && |k| == 32) || (kbits == 128 && |k| == 16)
      ensures Valid() && fresh(input) && input[..12] == KeyPart(k, kbits)
    {
      var j := KeyPart(k, kbits);
      input := new u32[16](i requires 0 <= i < 16 => if i < 12 then j[i] else 0);
    }

    /** chacha_ivsetup; no counter starts at block zero. */
    method IvSetup(iv: seq<byte>, counter: seq<byte>)
      requires Valid() && |iv| == 8 && (|counter| == 8 || counter == [])
      modifies input
      ensures input[..] == WithIv(old(input[..12]), iv, counter)
    {
      hide Load;
      input[12] := if counter == [] then 0 else Load(counter, 0);
      input[13] := if counter == [] then 0 else Load(counter, 4);
      input[14] := Load(iv, 0);
      input[15] := Load(iv, 4);
    }

    /**
     chacha_encrypt_bytes from m at from to c at to.  The two may be the same place; a short last
     block goes through scratch space whose tail is never defined.
     */
    method EncryptBytes(m: array<byte>, from: nat, c: array<byte>, to: nat, bytes: nat)
      requires Valid() && from + bytes <= m.Length && to + bytes <= c.Length && (m == c ==> from == to)
      modifies input, c
      ensures c[to..to + bytes] == Crypt(old(input[..]), old(m[from..from + bytes]))
      ensures forall k :: 0 <= k < c.Length && !(to <= k < to + bytes) ==> c[k] == old(c[k])
      ensures input[..] == Advanced(old(input[..]), Blocks(bytes))
    {
      hide Crypt, Next, Advanced;
      NoSteps(input[..]);
      if bytes == 0 {
        return;
      }
      ghost var m0, j0: State := m[from..from + bytes], input[..];
      var j: State := input[..];
      var done := 0;
      while bytes - done > 64
        invariant 0 <= done < bytes && done % 64 == 0
        invariant j == Advanced(j0, done / 64)
        invariant c[to..to + done] == Crypt(j0, m0[..done])
        invariant forall k :: 0 <= k < c.Length && !(to <= k < to + done) ==> c[k] == old(c[k])
        invariant forall k :: done <= k < bytes ==> m[from + k] == m0[k]
        modifies c
      {
        CryptNext(j0, j, m, from, c, to, done, 64, m0);
        j := Next(j);
        StepsPush(j0, done / 64);
        done := done + 64;
      }
      CryptNext(j0, j, m, from, c, to, done, bytes - done, m0);
      assert m0[..bytes] == m0;
      j := Next(j);
      StepsPush(j0, done / 64);
      input[12], input[13] := j[12], j[13];
      OnlyCounterDiffers(j0, done / 64 + 1);
      assert input[..] == j;
      assert Blocks(bytes) == done / 64 + 1;
    }
  }

  /** The next n bytes after done, at most a block. */
  method CryptNext(ghost j0: State, j: State, m: array<byte>, from: nat, c: array<byte>, to: nat, done: nat, n: nat, ghost m0: seq<byte>)
    requires 0 < n <= 64 && done + n <= |m0| && done % 64 == 0 && from + |m0| <= m.Length && to + |m0| <= c.Length
    requires m == c ==> from == to
    requires j == Advanced(j0, done / 64) && c[to..to + done] == Crypt(j0, m0[..done])
    requires forall k :: done <= k < |m0| ==> m[from + k] == m0[k]
    modifies c
    ensures c[to..to + (done + n)] == Crypt(j0, m0[..done + n])
    ensures forall k :: 0 <= k < c.Length && !(to + done <= k < to + done + n) ==> c[k] == old(c[k])
    ensures forall k :: done + n <= k < |m0| ==> m[from + k] == m0[k]
  {
    hide Crypt, Advanced;
    ghost var before := c[to..to + done];
    SameSlice(m[..], from, m0, done, done + n);
    assert m[from + done..from + done + n] == m[..][from + done..from + (done + n)];
    if n < 64 {
      CryptShortBlock(j, m, from + done, c, to + done, n);
    } else {
      CryptOneBlock(j, m, from + done, c, to + done);
    }
    CryptPush(j0, m0, done, n);
    assert c[to..to + (done + n)] == before + c[to + done..to + done + n];
  }

  /** One whole block; reading is over before writing starts. */
  method CryptOneBlock(j: State, m: array<byte>, from: nat, c: array<byte>, to: nat)
    requires from + 64 <= m.Length && to + 64 <= c.Length
    modifies c
    ensures c[to..to + 64] == Crypt(j, old(m[from..from + 64]))
    ensures forall k :: 0 <= k < c.Length && !(to <= k < to + 64) ==> c[k] == old(c[k])
  {
    hide XorBytes, Serialized, BlockWords, Crypt;
    OneBlock(j, m[from..from + 64]);
    var x := KeyWords(j);
    XorMessage(x, m, from);
    StoreWords(x, c, to);
  }

  /** A last block of fewer than 64 bytes, by way of scratch space. */
  method CryptShortBlock(j: State, m: array<byte>, from: nat, c: array<byte>, to: nat, bytes: nat)
    requires 0 < bytes < 64 && from + bytes <= m.Length && to + bytes <= c.Length
    modifies c
    ensures c[to..to + bytes] == Crypt(j, old(m[from..from + bytes]))
    ensures forall k :: 0 <= k < c.Length && !(to <= k < to + bytes) ==> c[k] == old(c[k])
  {
    hide Crypt;
    var tmp := new byte[64];
    for i := 0 to bytes
      modifies tmp
      invariant tmp[..i] == m[from..from + i]
    {
      tmp[i] := m[from + i];
    }
    ghost var padded := tmp[..];
    assert tmp[0..64] == padded;
    CryptOneBlock(j, tmp, 0, tmp, 0);
    CryptPrefix(j, padded, bytes);
    assert padded[..bytes] == old(m[from..from + bytes]);
    assert tmp[0..64] == tmp[..];
    for i := 0 to bytes
      invariant forall k :: 0 <= k < c.Length ==> c[k] == if to <= k < to + i then tmp[k - to] else old(c[k])
      invariant tmp[..] == Crypt(j, padded)
    {
      c[to + i] := tmp[i];
    }
    assert c[to..to + bytes] == tmp[..bytes];
  }
}

/**
 CBC mode as cipher-aes.c runs it (section 6.2 of NIST SP 800-38A): encryption front to back,
 decryption back to front so that it can work in place, with the last ciphertext block kept for
 the next call.  The block cipher is a parameter.
 */
module Cbc {
  import opened Words

  const BLOCK := 16

  datatype BlockCipher = BlockCipher(encrypt: seq<byte> -> seq<byte>, decrypt: seq<byte> -> seq<byte>)

  ghost predicate IsCipher(bc: BlockCipher) {
    && (forall b :: |bc.encrypt(b)| == BLOCK && |bc.decrypt(b)| == BLOCK)
    && (forall b :: |b| == BLOCK ==> bc.decrypt(bc.encrypt(b)) == b)
  }

  lemma CipherBlock(bc: BlockCipher, b: seq<byte>)
    requires IsCipher(bc)
    ensures |bc.encrypt(b)| == |bc.decrypt(b)| == BLOCK
  {
  }

  lemma CipherInverse(bc: BlockCipher, b: seq<byte>)
    requires IsCipher(bc) && |b| == BLOCK
    ensures bc.decrypt(bc.encrypt(b)) == b
  {
  }

  // ----- the mode on byte sequences

  function Encrypt(bc: BlockCipher, iv: seq<byte>, p: seq<byte>): seq<byte>
    decreases |p|
  {
    if |p| < BLOCK then []
    else
      var c := bc.encrypt(XorBytes(p[..BLOCK], iv));
      c + Encrypt(bc, c, p[BLOCK..])
  }

  function Decrypt(bc: BlockCipher, iv: seq<byte>, c: seq<byte>): seq<byte>
    decreases |c|
  {
    if |c| < BLOCK then []
    else XorBytes(bc.decrypt(c[..BLOCK]), iv) + Decrypt(bc, c[..BLOCK], c[BLOCK..])
  }

  /** The chaining value after the ciphertext c. */
  function Last(iv: seq<byte>, c: seq<byte>): seq<byte> {
    if |c| < BLOCK then iv else c[|c| - BLOCK..]
  }

  lemma {:induction false} EncryptLength(bc: BlockCipher, iv: seq<byte>, p: seq<byte>)
    requires IsCipher(bc) && |p| % BLOCK == 0
    ensures |Encrypt(bc, iv, p)| == |p|
    decreases |p|
  {
    hide IsCipher, XorBytes;
    if |p| >= BLOCK {
      CipherBlock(bc, XorBytes(p[..BLOCK], iv));
      EncryptLength(bc, bc.encrypt(XorBytes(p[..BLOCK], iv)), p[BLOCK..]);
    }
  }

  /** Decryption inverts encryption. */
  lemma {:induction false} DecryptInvertsEncrypt(bc: BlockCipher, iv: seq<byte>, p: seq<byte>)
    requires IsCipher(bc) && |p| % BLOCK == 0
    ensures Decrypt(bc, iv, Encrypt(bc, iv, p)) == p
    decreases |p|
  {
    hide XorBytes, IsCipher;
    if |p| >= BLOCK {
      var x := XorBytes(p[..BLOCK], iv);
      var c := bc.encrypt(x);
      var rest := Encrypt(bc, c, p[BLOCK..]);
      CipherBlock(bc, x);
      CipherInverse(bc, x);
      assert (c + rest)[..BLOCK] == c && (c + rest)[BLOCK..] == rest;
      XorBytesTwice(p[..BLOCK], iv);
      DecryptInvertsEncrypt(bc, c, p[BLOCK..]);
      assert p == p[..BLOCK] + p[BLOCK..];
    }
  }

  /** Encrypting in two calls equals one call, because the second starts from the last block. */
  lemma {:induction false} EncryptInTwoCalls(bc: BlockCipher, iv: seq<byte>, p: seq<byte>, q: seq<byte>)
    requires IsCipher(bc) && |p| % BLOCK == 0
    ensures var c := Encrypt(bc, iv, p); Encrypt(bc, iv, p + q) == c + Encrypt(bc, Last(iv, c), q)
    decreases |p|
  {
    hide XorBytes, IsCipher;
    if |p| >= BLOCK {
      CipherBlock(bc, XorBytes(p[..BLOCK], iv));
      var c := bc.encrypt(XorBytes(p[..BLOCK], iv));
      assert (p + q)[..BLOCK] == p[..BLOCK] && (p + q)[BLOCK..] == p[BLOCK..] + q;
      EncryptInTwoCalls(bc, c, p[BLOCK..], q);
      EncryptLength(bc, c, p[BLOCK..]);
      var rest := Encrypt(bc, c, p[BLOCK..]);
      assert Last(iv, c + rest) == Last(c, rest);
    } else {
      assert p + q == q;
    }
  }

  lemma {:induction false} DecryptInTwoCalls(bc: BlockCipher, iv: seq<byte>, c: seq<byte>, d: seq<byte>)
    requires |c| % BLOCK == 0
    ensures Decrypt(bc, iv, c + d) == Decrypt(bc, iv, c) + Decrypt(bc, Last(iv, c), d)
    decreases |c|
  {
    hide XorBytes;
    if |c| >= BLOCK {
      assert (c + d)[..BLOCK] == c[..BLOCK] && (c + d)[BLOCK..] == c[BLOCK..] + d;
      DecryptInTwoCalls(bc, c[..BLOCK], c[BLOCK..], d);
      assert Last(iv, c) == Last(c[..BLOCK], c[BLOCK..]);
    } else {
      assert c + d == d;
    }
  }

  // ----- one block at a time

  function BlockAt(s: seq<byte>, i: nat): seq<byte>
    requires BLOCK * (i + 1) <= |s|
  {
    s[BLOCK * i..BLOCK * (i + 1)]
  }

  /** The value chained into block i. */
  function Chained(iv: seq<byte>, c: seq<byte>, i: nat): seq<byte>
    requires BLOCK * i <= |c|
  {
    if i == 0 then iv else BlockAt(c, i - 1)
  }

  /** Encryption grows at the end by one block. */
  lemma EncryptPush(bc: BlockCipher, iv: seq<byte>, p: seq<byte>, i: nat)
    requires IsCipher(bc) && BLOCK * (i + 1) <= |p|
    ensures var c := Encrypt(bc, iv, p[..BLOCK * i]);
            Encrypt(bc, iv, p[..BLOCK * (i + 1)]) == c + bc.encrypt(XorBytes(BlockAt(p, i), Last(iv, c)))
  {
    hide XorBytes, IsCipher;
    var c := Encrypt(bc, iv, p[..BLOCK * i]);
    assert p[..BLOCK * (i + 1)] == p[..BLOCK * i] + BlockAt(p, i);
    EncryptInTwoCalls(bc, iv, p[..BLOCK * i], BlockAt(p, i));
    OneBlock(bc, Last(iv, c), BlockAt(p, i));
  }

  lemma OneBlock(bc: BlockCipher, iv: seq<byte>, b: seq<byte>)
    requires |b| == BLOCK
    ensures Encrypt(bc, iv, b) == bc.encrypt(XorBytes(b, iv))
    ensures Decrypt(bc, iv, b) == XorBytes(bc.decrypt(b), iv)
  {
    hide XorBytes;
    assert b[..BLOCK] == b && b[BLOCK..] == [];
    assert Encrypt(bc, bc.encrypt(XorBytes(b, iv)), []) == [] && Decrypt(bc, b, []) == [];
  }

  /** Decryption from block i on, by the ciphertext block before it. */
  lemma DecryptFrom(bc: BlockCipher, iv: seq<byte>, c: seq<byte>, i: nat)
    requires BLOCK * (i + 1) <= |c|
    ensures Decrypt(bc, Chained(iv, c, i), c[BLOCK * i..])
         == XorBytes(bc.decrypt(BlockAt(c, i)), Chained(iv, c, i)) + Decrypt(bc, Chained(iv, c, i + 1), c[BLOCK * (i + 1)..])
  {
    hide XorBytes;
    var rest := c[BLOCK * i..];
    assert rest[..BLOCK] == BlockAt(c, i) && rest[BLOCK..] == c[BLOCK * (i + 1)..];
  }

  // ----- the code

  class Context {
    const cipher: BlockCipher
    const encrypting: bool
    const iv: array<byte>

    ghost predicate Valid() {
      IsCipher(cipher) && iv.Length == BLOCK
    }

    constructor (cipher: BlockCipher, iv: seq<byte>, encrypting: bool)
      requires IsCipher(cipher) && |iv| == BLOCK
      ensures Valid() && this.iv[..] == iv && this.cipher == cipher && this.encrypting == encrypting && fresh(this.iv)
    {
      this.cipher, this.encrypting := cipher, encrypting;
      this.iv := new byte[BLOCK](i requires 0 <= i < |iv| => iv[i]);
    }

    /** ssh_rijndael_cbc; dest and src are one array or two.  A length that is not whole blocks is fatal. */
    method Crypt(dest: array<byte>, src: array<byte>, len: nat) returns (ok: bool)
      requires Valid() && len <= dest.Length && len <= src.Length && iv != dest && iv != src
      modifies dest, iv
      ensures ok == (len % BLOCK == 0)
      ensures !ok ==> dest[..] == old(dest[..]) && iv[..] == old(iv[..])
      ensures ok && encrypting ==> dest[..len] == Encrypt(cipher, old(iv[..]), old(src[..len])) && iv[..] == Last(old(iv[..]), dest[..len])
      ensures ok && !encrypting ==> dest[..len] == Decrypt(cipher, old(iv[..]), old(src[..len])) && iv[..] == Last(old(iv[..]), old(src[..len]))
      ensures dest[len..] == old(dest[len..])
    {
      hide XorBytes, Encrypt, Decrypt;
      if len % BLOCK != 0 {
        return false;
      }
      ok := true;
      if len == 0 {
        EmptyMessage(cipher, iv[..]);
        return;
      }
      if encrypting {
        EncryptBlocks(dest, src, len);
      } else {
        DecryptBlocks(dest, src, len);
      }
    }

    method EncryptBlocks(dest: array<byte>, src: array<byte>, len: nat)
      requires Valid() && 0 < len <= dest.Length && len <= src.Length && iv != dest && iv != src && len % BLOCK == 0
      modifies dest, iv
      ensures dest[..len] == Encrypt(cipher, old(iv[..]), old(src[..len])) && iv[..] == Last(old(iv[..]), dest[..len])
      ensures dest[len..] == old(dest[len..])
    {
      hide XorBytes, Encrypt, IsCipher;
      ghost var p, iv0 := src[..len], iv[..];
      var blocks := len / BLOCK;
      var cprev := iv[..];
      EmptyMessage(cipher, iv0);
      for i := 0 to blocks
        invariant dest[..BLOCK * i] == Encrypt(cipher, iv0, p[..BLOCK * i]) && cprev == Last(iv0, dest[..BLOCK * i])
        invariant forall k :: len <= k < dest.Length ==> dest[k] == old(dest[k])
        invariant iv[..] == iv0
        invariant forall k :: BLOCK * i <= k < len ==> src[k] == p[k]
      {
        EncryptPush(cipher, iv0, p, i);
        assert src[BLOCK * i..BLOCK * (i + 1)] == BlockAt(p, i);
        var buf := XorBytes(src[BLOCK * i..BLOCK * (i + 1)], cprev);
        CipherBlock(cipher, buf);
        ghost var before := dest[..BLOCK * i];
        WriteBlock(dest, i, cipher.encrypt(buf));
        assert dest[..BLOCK * (i + 1)] == dest[..BLOCK * i] + dest[BLOCK * i..BLOCK * (i + 1)];
        assert dest[..BLOCK * i] == before;
        cprev := dest[BLOCK * i..BLOCK * (i + 1)];
      }
      assert p[..BLOCK * blocks] == p;
      SetIv(cprev);
    }

    method DecryptBlocks(dest: array<byte>, src: array<byte>, len: nat)
      requires Valid() && 0 < len <= dest.Length && len <= src.Length && iv != dest && iv != src && len % BLOCK == 0
      modifies dest, iv
      ensures dest[..len] == Decrypt(cipher, old(iv[..]), old(src[..len])) && iv[..] == Last(old(iv[..]), old(src[..len]))
      ensures dest[len..] == old(dest[len..])
    {
      hide XorBytes, Decrypt, IsCipher;
      ghost var c := src[..len];
      var buf := src[len - BLOCK..len];
      var i := len / BLOCK;
      EmptyMessage(cipher, Chained(iv[..], c, i));
      assert c[BLOCK * i..] == [] && dest[BLOCK * i..len] == [];
      while i > 0
        invariant 0 <= BLOCK * i <= len
        invariant dest[BLOCK * i..len] == Decrypt(cipher, Chained(iv[..], c, i), c[BLOCK * i..])
        invariant forall k :: len <= k < dest.Length ==> dest[k] == old(dest[k])
        invariant iv[..] == old(iv[..])
        invariant forall k :: 0 <= k < BLOCK * i ==> src[k] == c[k]
      {
        i := i - 1;
        DecryptFrom(cipher, iv[..], c, i);
        var cnow := src[BLOCK * i..BLOCK * (i + 1)];
        var ivp := if i == 0 then iv[..] else src[BLOCK * (i - 1)..BLOCK * i];
        CipherBlock(cipher, cnow);
        assert cnow == BlockAt(c, i) && ivp == Chained(iv[..], c, i);
        ghost var after := dest[BLOCK * (i + 1)..len];
        WriteBlock(dest, i, XorBytes(cipher.decrypt(cnow), ivp));
        assert dest[BLOCK * i..len] == dest[BLOCK * i..BLOCK * (i + 1)] + dest[BLOCK * (i + 1)..len];
        assert dest[BLOCK * (i + 1)..len] == after;
      }
      SetIv(buf);
    }

    method SetIv(b: seq<byte>)
      requires iv.Length == BLOCK == |b|
      modifies iv
      ensures iv[..] == b
    {
      for j := 0 to BLOCK
        invariant forall k :: 0 <= k < j ==> iv[k] == b[k]
      {
        iv[j] := b[j];
      }
    }
  }

  lemma EmptyMessage(bc: BlockCipher, iv: seq<byte>)
    ensures Encrypt(bc, iv, []) == [] && Decrypt(bc, iv, []) == []
  {
  }

  method WriteBlock(a: array<byte>, i: nat, b: seq<byte>)
    requires |b| == BLOCK && BLOCK * (i + 1) <= a.Length
    modifies a
    ensures forall k :: 0 <= k < a.Length && !(BLOCK * i <= k < BLOCK * (i + 1)) ==> a[k] == old(a[k])
    ensures a[BLOCK * i..BLOCK * (i + 1)] == b
  {
    for j := 0 to BLOCK
      invariant forall k :: 0 <= k < a.Length ==> a[k] == if BLOCK * i <= k < BLOCK * i + j then b[k - BLOCK * i] else old(a[k])
    {
      a[BLOCK * i + j] := b[j];
    }
  }
}

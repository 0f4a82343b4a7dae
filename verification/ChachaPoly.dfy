/**
 The packet cipher of cipher-chachapoly.c: the length under a key of its own, the payload from
 block one on, and a tag over both ciphertexts keyed by block zero.  Poly1305 is a parameter.
 */
module ChachaPoly {
  import opened Words
  import opened Optional
  import opened ChaChaSpec
  import ChaCha

  const TAGLEN := 16
  const MAC_INVALID := -30
  const MESSAGE_INCOMPLETE := -3

  type Mac = (seq<byte>, seq<byte>) -> seq<byte>

  ghost predicate IsMac(mac: Mac) {
    forall m, k :: |mac(m, k)| == TAGLEN
  }

  lemma MacLength(mac: Mac, m: seq<byte>, k: seq<byte>)
    requires IsMac(mac)
    ensures |mac(m, k)| == TAGLEN
  {
  }

  /** The sequence number as eight big-endian bytes. */
  function SeqBuf(seqnr: u32): (b: seq<byte>)
    ensures |b| == 8
  {
    [0, 0, 0, 0, seqnr / 0x100_0000, seqnr / 0x1_0000 % 0x100, seqnr / 0x100 % 0x100, seqnr % 0x100]
  }

  function One(): (b: seq<byte>)
    ensures |b| == 8
  {
    [1, 0, 0, 0, 0, 0, 0, 0]
  }

  /** The two keys, as the words they set. */
  datatype Keys = Keys(main: seq<u32>, header: seq<u32>)

  predicate ProperKeys(k: Keys) {
    |k.main| == |k.header| == 12
  }

  function PolyKey(k: Keys, seqnr: u32): seq<byte>
    requires ProperKeys(k)
  {
    Crypt(WithIv(k.main, SeqBuf(seqnr), []), seq(32, _ => 0))
  }

  /** Header and payload through their streams. */
  function Streamed(k: Keys, seqnr: u32, data: seq<byte>, aadlen: nat): (r: seq<byte>)
    requires ProperKeys(k) && aadlen <= |data|
    ensures |r| == |data|
  {
    Crypt(WithIv(k.header, SeqBuf(seqnr), []), data[..aadlen]) + Crypt(WithIv(k.main, SeqBuf(seqnr), One()), data[aadlen..])
  }

  function Sealed(k: Keys, mac: Mac, seqnr: u32, data: seq<byte>, aadlen: nat): seq<byte>
    requires ProperKeys(k) && aadlen <= |data|
  {
    var c := Streamed(k, seqnr, data, aadlen);
    c + mac(c, PolyKey(k, seqnr))
  }

  function Opened(k: Keys, mac: Mac, seqnr: u32, packet: seq<byte>, aadlen: nat): Option<seq<byte>>
    requires ProperKeys(k) && aadlen + TAGLEN <= |packet|
  {
    var c := packet[..|packet| - TAGLEN];
    if mac(c, PolyKey(k, seqnr)) == packet[|packet| - TAGLEN..] then Some(Streamed(k, seqnr, c, aadlen)) else None
  }

  lemma StreamedTwice(k: Keys, seqnr: u32, data: seq<byte>, aadlen: nat)
    requires ProperKeys(k) && aadlen <= |data|
    ensures Streamed(k, seqnr, Streamed(k, seqnr, data, aadlen), aadlen) == data
  {
    hide Crypt, WithIv, SeqBuf, One;
    var h, m := WithIv(k.header, SeqBuf(seqnr), []), WithIv(k.main, SeqBuf(seqnr), One());
    var c := Streamed(k, seqnr, data, aadlen);
    assert c[..aadlen] == Crypt(h, data[..aadlen]) && c[aadlen..] == Crypt(m, data[aadlen..]);
    CryptTwice(h, data[..aadlen]);
    CryptTwice(m, data[aadlen..]);
  }

  /** Opening a sealed packet under the same keys and sequence number gives the data back. */
  lemma OpenSealed(k: Keys, mac: Mac, seqnr: u32, data: seq<byte>, aadlen: nat)
    requires ProperKeys(k) && aadlen <= |data| && IsMac(mac)
    ensures |Sealed(k, mac, seqnr, data, aadlen)| == |data| + TAGLEN
    ensures Opened(k, mac, seqnr, Sealed(k, mac, seqnr, data, aadlen), aadlen) == Some(data)
  {
    hide Streamed, PolyKey, IsMac;
    var c := Streamed(k, seqnr, data, aadlen);
    MacLength(mac, c, PolyKey(k, seqnr));
    StreamedTwice(k, seqnr, data, aadlen);
    var p := Sealed(k, mac, seqnr, data, aadlen);
    assert p[..|p| - TAGLEN] == c && p[|p| - TAGLEN..] == mac(c, PolyKey(k, seqnr));
  }

  /** Big-endian, as PEEK_U32. */
  function Peek32(b: seq<byte>): u32
    requires |b| >= 4
  {
    b[0] as int * 0x100_0000 + b[1] as int * 0x1_0000 + b[2] as int * 0x100 + b[3] as int
  }

  /** The length read ahead of the packet. */
  function PacketLength(k: Keys, seqnr: u32, packet: seq<byte>): u32
    requires ProperKeys(k) && |packet| >= 4
  {
    Peek32(Crypt(WithIv(k.header, SeqBuf(seqnr), []), packet[..4]))
  }

  /** The length read ahead is the one that opening the packet reveals. */
  lemma LengthAgrees(k: Keys, mac: Mac, seqnr: u32, packet: seq<byte>, aadlen: nat)
    requires ProperKeys(k) && 4 <= aadlen && aadlen + TAGLEN <= |packet| && Opened(k, mac, seqnr, packet, aadlen).Some?
    ensures PacketLength(k, seqnr, packet) == Peek32(Opened(k, mac, seqnr, packet, aadlen).value)
  {
    hide Crypt, WithIv, SeqBuf, PolyKey, One;
    var h := WithIv(k.header, SeqBuf(seqnr), []);
    var c := packet[..|packet| - TAGLEN];
    CryptPrefix(h, c[..aadlen], 4);
    assert c[..aadlen][..4] == packet[..4];
    assert Opened(k, mac, seqnr, packet, aadlen).value[..4] == Crypt(h, c[..aadlen])[..4];
    PeekPrefix(Opened(k, mac, seqnr, packet, aadlen).value);
  }

  lemma PeekPrefix(b: seq<byte>)
    requires |b| >= 4
    ensures Peek32(b) == Peek32(b[..4])
  {
  }

  // ----- the code

  class Context {
    const main: ChaCha.Context
    const header: ChaCha.Context
    const mac: Mac
    const keys: Keys

    ghost predicate Valid()
      reads main.input, header.input
    {
      && ProperKeys(keys) && IsMac(mac) && main.Valid() && header.Valid() && main.input != header.input
      && main.input[..12] == keys.main && header.input[..12] == keys.header
    }

    /** chachapoly_new with its 64 key bytes. */
    constructor (key: seq<byte>, mac: Mac)
      requires |key| == 64 && IsMac(mac)
      ensures Valid() && fresh(main.input) && fresh(header.input) && this.mac == mac
      ensures keys == Keys(KeyPart(key[..32], 256), KeyPart(key[32..], 256))
    {
      this.mac := mac;
      keys := Keys(KeyPart(key[..32], 256), KeyPart(key[32..], 256));
      main := new ChaCha.Context(key[..32], 256);
      header := new ChaCha.Context(key[32..], 256);
    }

    /** One stream from its first block, on arrays. */
    method Stream(c: ChaCha.Context, counter: seq<byte>, seqnr: u32, src: array<byte>, dest: array<byte>, at: nat, n: nat)
      requires Valid() && (c == main || c == header) && (|counter| == 8 || counter == [])
      requires at + n <= src.Length && at + n <= dest.Length
      modifies c.input, dest
      ensures Valid()
      ensures dest[at..at + n] == Crypt(WithIv(if c == main then keys.main else keys.header, SeqBuf(seqnr), counter), old(src[at..at + n]))
      ensures forall k :: 0 <= k < dest.Length && !(at <= k < at + n) ==> dest[k] == old(dest[k])
    {
      hide Crypt, SeqBuf, IsMac;
      ghost var key := if c == main then keys.main else keys.header;
      assert c.input[..12] == key;
      c.IvSetup(SeqBuf(seqnr), counter);
      ghost var j: State := c.input[..];
      assert j[..12] == key;
      c.EncryptBytes(src, at, dest, at, n);
      OnlyCounterDiffers(j, Blocks(n));
      assert c.input[..12] == key;
    }

    /** Block zero of the main stream, over zeros, is the key of the tag. */
    method TagKey(seqnr: u32) returns (polyKey: seq<byte>)
      requires Valid()
      modifies main.input
      ensures Valid() && polyKey == PolyKey(keys, seqnr)
    {
      hide Crypt, SeqBuf, IsMac, WithIv;
      var b := new byte[32](_ => 0);
      ghost var zeros := seq(32, _ => 0);
      assert b[..] == zeros && b[0..0 + 32] == b[..];
      Stream(main, [], seqnr, b, b, 0, 32);
      assert b[0..0 + 32] == b[..];
      polyKey := b[..];
    }

    /** Header and payload, each from its own stream. */
    method StreamBoth(seqnr: u32, dest: array<byte>, src: array<byte>, len: nat, aadlen: nat)
      requires Valid() && aadlen + len <= src.Length && aadlen + len <= dest.Length
      modifies dest, main.input, header.input
      ensures Valid() && dest[..aadlen + len] == Streamed(keys, seqnr, old(src[..aadlen + len]), aadlen)
      ensures forall k :: aadlen + len <= k < dest.Length ==> dest[k] == old(dest[k])
    {
      hide Crypt, SeqBuf, IsMac, WithIv, One;
      ghost var m := src[..aadlen + len];
      if aadlen > 0 {
        Stream(header, [], seqnr, src, dest, 0, aadlen);
      }
      EmptyHeader(keys, seqnr);
      assert m[..aadlen] == old(src[0..0 + aadlen]);
      assert m[aadlen..] == src[aadlen..aadlen + len];
      ghost var head := dest[0..0 + aadlen];
      Stream(main, One(), seqnr, src, dest, aadlen, len);
      assert dest[0..0 + aadlen] == head;
      assert dest[..aadlen + len] == dest[0..0 + aadlen] + dest[aadlen..aadlen + len];
    }

    /** chachapoly_crypt; dest may be src.  A packet with a wrong tag changes nothing. */
    method CryptPacket(seqnr: u32, dest: array<byte>, src: array<byte>, len: nat, aadlen: nat, encrypting: bool) returns (r: int)
      requires Valid()
      requires aadlen + len + (if encrypting then 0 else TAGLEN) <= src.Length
      requires aadlen + len + (if encrypting then TAGLEN else 0) <= dest.Length
      modifies dest, main.input, header.input
      ensures Valid()
      ensures encrypting ==> r == 0 && dest[..aadlen + len + TAGLEN] == Sealed(keys, mac, seqnr, old(src[..aadlen + len]), aadlen)
      ensures !encrypting ==>
                match Opened(keys, mac, seqnr, old(src[..aadlen + len + TAGLEN]), aadlen)
                case Some(data) => r == 0 && dest[..aadlen + len] == data
                case None => r == MAC_INVALID && dest[..] == old(dest[..])
      ensures forall k :: aadlen + len + (if encrypting then TAGLEN else 0) <= k < dest.Length ==> dest[k] == old(dest[k])
    {
      hide Streamed, PolyKey, IsMac;
      var n := aadlen + len;
      var polyKey := TagKey(seqnr);
      if !encrypting {
        ghost var packet := src[..n + TAGLEN];
        assert packet[..n] == src[..n] && packet[n..] == src[n..n + TAGLEN];
        if mac(src[..n], polyKey) != src[n..n + TAGLEN] {
          return MAC_INVALID;
        }
      }
      StreamBoth(seqnr, dest, src, len, aadlen);
      if encrypting {
        ghost var streamed := dest[..];
        var tag := mac(dest[..n], polyKey);
        MacLength(mac, dest[..n], polyKey);
        for i := 0 to TAGLEN
          modifies dest
          invariant forall k :: 0 <= k < dest.Length && !(n <= k < n + i) ==> dest[k] == streamed[k]
          invariant forall k :: 0 <= k < i ==> dest[n + k] == tag[k]
        {
          dest[n + i] := tag[i];
        }
      }
      r := 0;
    }

    /** chachapoly_get_length */
    method GetLength(seqnr: u32, cp: array<byte>, len: nat) returns (r: int, length: u32)
      requires Valid() && len <= cp.Length
      modifies header.input
      ensures Valid()
      ensures if len < 4 then r == MESSAGE_INCOMPLETE else r == 0 && length == PacketLength(keys, seqnr, cp[..len])
    {
      hide Crypt, SeqBuf, IsMac, WithIv;
      length := 0;
      if len < 4 {
        return MESSAGE_INCOMPLETE, 0;
      }
      var buf := new byte[4];
      assert cp[..len][..4] == cp[0..0 + 4];
      Stream(header, [], seqnr, cp, buf, 0, 4);
      r, length := 0, Peek32(buf[0..0 + 4]);
    }
  }

  /** With no header bytes its stream is not started. */
  lemma EmptyHeader(k: Keys, seqnr: u32)
    requires ProperKeys(k)
    ensures Crypt(WithIv(k.header, SeqBuf(seqnr), []), []) == []
  {
    hide WithIv, SeqBuf;
  }
}

/**
 Network addresses and prefixes (addr.c).  An address is its family, sixteen bytes in network
 order of which IPv4 uses four, and a scope id for IPv6.  Masking, comparing and prefix matching
 are stated on single bits, counted from the most significant.
 */
module Addr {
  import opened Words
  import opened Bits

  datatype Family = Inet | Inet6 | OtherFamily

  datatype Address = Address(af: Family, bytes: seq<byte>, scopeId: u32)

  type Xaddr = a: Address | |a.bytes| == 16 witness Address(Inet, seq(16, _ => 0), 0)

  /** addr_unicast_masklen, with 0 for the families that have no addresses. */
  function Width(af: Family): nat {
    match af
    case Inet => 32
    case Inet6 => 128
    case OtherFamily => 0
  }

  predicate MasklenValid(af: Family, l: nat) {
    af != OtherFamily && l <= Width(af)
  }

  /** Bit k of a byte string, the most significant bit of the first byte being bit 0. */
  predicate NetBit(b: seq<byte>, k: nat) {
    k / 8 < |b| && Bit(b[k / 8], 7 - k % 8)
  }

  /** The first n bits agree. */
  predicate Agree(a: seq<byte>, b: seq<byte>, n: nat) {
    forall k: nat :: k < n ==> (NetBit(a, k) <==> NetBit(b, k))
  }

  predicate ZeroFrom(a: seq<byte>, l: nat, n: nat) {
    forall k: nat :: l <= k < n ==> !NetBit(a, k)
  }

  /** l ones, then zeros. */
  predicate IsMask(b: seq<byte>, l: nat) {
    forall k: nat :: k < 128 ==> (NetBit(b, k) <==> k < l)
  }

  lemma BytePower()
    ensures Power2(8) == 256
  {
  }

  /** Bytes with the same bits are the same. */
  lemma BytesAgree(a: seq<byte>, b: seq<byte>, n: nat)
    requires n <= |a| && n <= |b|
    ensures a[..n] == b[..n] <==> Agree(a, b, 8 * n)
  {
    hide Bit;
    if Agree(a, b, 8 * n) {
      forall i | 0 <= i < n
        ensures a[i] == b[i]
      {
        forall k | 0 <= k < 8
          ensures Bit(a[i], k) <==> Bit(b[i], k)
        {
          var j := 8 * i + (7 - k);
          assert j / 8 == i && 7 - j % 8 == k;
          assert NetBit(a, j) <==> NetBit(b, j);
        }
        BytePower();
        BitsDetermine(a[i], b[i], 8);
      }
    }
    if a[..n] == b[..n] {
      forall k: nat | k < 8 * n
        ensures NetBit(a, k) <==> NetBit(b, k)
      {
        assert a[k / 8] == a[..n][k / 8] && b[k / 8] == b[..n][k / 8];
      }
    }
  }

  lemma ZeroBytes(a: seq<byte>, n: nat)
    requires n <= |a|
    ensures (forall i :: 0 <= i < n ==> a[i] == 0) <==> ZeroFrom(a, 0, 8 * n)
  {
    hide Bit;
    var zeros: seq<byte> := seq(n, _ => 0);
    forall k: nat
      ensures !NetBit(zeros, k)
    {
      BitOfZero(7 - k % 8);
    }
    BytesAgree(a, zeros, n);
    assert zeros[..n] == zeros;
    assert (forall i :: 0 <= i < n ==> a[i] == 0) <==> a[..n] == zeros;
  }

  // ----- one byte, one word

  function AndByte(a: byte, b: byte): (r: byte)
    ensures forall k: nat :: Bit(r, k) <==> Bit(a, k) && Bit(b, k)
  {
    AndByteBits(a, b);
    And(a, b)
  }

  lemma AndByteBits(a: byte, b: byte)
    ensures And(a, b) <= 255 && forall k: nat :: Bit(And(a, b), k) <==> Bit(a, k) && Bit(b, k)
  {
    hide And, Bit;
    AndAtMost(a, b);
    forall k: nat
      ensures Bit(And(a, b), k) <==> Bit(a, k) && Bit(b, k)
    {
      BitAnd(a, b, k);
    }
  }

  function NotByte(a: byte): (r: byte)
    ensures forall k: nat :: k < 8 ==> (Bit(r, k) <==> !Bit(a, k))
  {
    NotByteBits(a);
    255 - a
  }

  lemma NotByteBits(a: byte)
    ensures forall k: nat :: k < 8 ==> (Bit(255 - a, k) <==> !Bit(a, k))
  {
    hide Bit;
    BytePower();
    forall k: nat | k < 8
      ensures Bit(255 - a, k) <==> !Bit(a, k)
    {
      BitComplement(a, 8, k);
    }
  }

  /** htonl, as the four bytes that land in memory. */
  function BigEndian(v: u32): (b: seq<byte>)
    ensures |b| == 4
  {
    [v / 0x100_0000, v / 0x1_0000 % 0x100, v / 0x100 % 0x100, v % 0x100]
  }

  lemma BigEndianBits(v: u32, k: nat)
    requires k < 32
    ensures NetBit(BigEndian(v), k) <==> Bit(v, 31 - k)
  {
    hide Bit;
    assert Power2(8) == 0x100 && Power2(16) == 0x1_0000 && Power2(24) == 0x100_0000;
    var i, b := k / 8, 7 - k % 8;
    if i == 0 {
      BitDiv(v, 24, b);
    } else if i == 1 {
      BitMod(v / 0x1_0000, 8, b);
      BitDiv(v, 16, b);
    } else if i == 2 {
      BitMod(v / 0x100, 8, b);
      BitDiv(v, 8, b);
    } else {
      BitMod(v, 8, b);
    }
  }

  /** 0xffffffff << s in 32 bits: ones from bit s up. */
  function OnesFrom(s: nat): u32
    requires s < 32
  {
    Shl(0xffff_ffff, s) % 0x1_0000_0000
  }

  lemma OnesFromBits(s: nat, k: nat)
    requires s < 32 && k < 32
    ensures Bit(OnesFrom(s), k) <==> k >= s
  {
    hide Bit, Shl;
    Power2At32();
    BitMod(Shl(0xffff_ffff, s), 32, k);
    BitShift(0xffff_ffff, s, k);
    if k >= s {
      BitComplement(0, 32, k - s);
      BitOfZero(k - s);
    }
  }

  // ----- addresses updated in place

  class AddressCell {
    var af: Family
    const bytes: array<byte>
    var scopeId: u32

    constructor ()
      ensures bytes.Length == 16 && fresh(bytes)
    {
      af, scopeId := OtherFamily, 0;
      bytes := new byte[16](_ => 0);
    }

    function Value(): Xaddr
      requires bytes.Length == 16
      reads this, bytes
    {
      Address(af, bytes[..], scopeId)
    }

    /** memset to zero, then a family */
    method Clear(af': Family)
      requires bytes.Length == 16
      modifies this, bytes
      ensures af == af' && scopeId == 0 && forall i :: 0 <= i < 16 ==> bytes[i] == 0
    {
      for i := 0 to 16
        invariant forall k :: 0 <= k < i ==> bytes[k] == 0
      {
        bytes[i] := 0;
      }
      af, scopeId := af', 0;
    }

    /** Store a word in network order. */
    method SetWord(i: nat, v: u32)
      requires bytes.Length == 16 && i < 4
      modifies bytes
      ensures bytes[4 * i..4 * i + 4] == BigEndian(v)
      ensures forall k :: 0 <= k < 16 && !(4 * i <= k < 4 * i + 4) ==> bytes[k] == old(bytes[k])
    {
      var b := BigEndian(v);
      bytes[4 * i], bytes[4 * i + 1], bytes[4 * i + 2], bytes[4 * i + 3] := b[0], b[1], b[2], b[3];
    }

    /** addr_netmask: l ones in an address of the family. */
    method Netmask(af': Family, l: nat) returns (ok: bool)
      requires bytes.Length == 16
      modifies this, bytes
      ensures ok == MasklenValid(af', l)
      ensures ok ==> af == af' && IsMask(bytes[..], l)
    {
      hide NetBit;
      if !MasklenValid(af', l) {
        return false;
      }
      Clear(af');
      ok := true;
      NoOnes(bytes[..]);
      var i, left := 0, l;
      if af' == Inet {
        if l == 0 {
          return;
        }
      } else {
        while i < 4 && left >= 32
          invariant i <= 4 && left == l - 32 * i && IsMask(bytes[..], 32 * i)
          invariant forall k :: 4 * i <= k < 16 ==> bytes[k] == 0
          modifies bytes
        {
          ghost var before := bytes[..];
          SetWord(i, OnesFrom(0));
          MaskWord(before, bytes[..], i, 0);
          i, left := i + 1, left - 32;
        }
        if i == 4 || left == 0 {
          return;
        }
      }
      ghost var before := bytes[..];
      SetWord(i, OnesFrom(32 - left));
      MaskWord(before, bytes[..], i, 32 - left);
    }

    /** addr_invert */
    method Invert() returns (ok: bool)
      requires bytes.Length == 16
      modifies bytes
      ensures ok == (af != OtherFamily)
      ensures ok ==> forall k: nat :: k < Width(af) ==> (NetBit(bytes[..], k) <==> !NetBit(old(bytes[..]), k))
    {
      if af == OtherFamily {
        return false;
      }
      var n := if af == Inet then 4 else 16;
      for i := 0 to n
        invariant forall k :: 0 <= k < 16 ==> bytes[k] == if k < i then NotByte(old(bytes[k])) else old(bytes[k])
      {
        bytes[i] := NotByte(bytes[i]);
      }
      ok := true;
    }

    /** addr_hostmask */
    method Hostmask(af': Family, l: nat) returns (ok: bool)
      requires bytes.Length == 16
      modifies this, bytes
      ensures ok == MasklenValid(af', l)
      ensures ok ==> af == af' && forall k: nat :: k < Width(af) ==> (NetBit(bytes[..], k) <==> k >= l)
    {
      hide NetBit;
      ok := Netmask(af', l);
      if ok {
        ok := Invert();
      }
    }

    /** addr_and */
    method AndInto(a: Xaddr, b: Xaddr) returns (ok: bool)
      requires bytes.Length == 16
      modifies this, bytes
      ensures ok == (a.af == b.af && a.af != OtherFamily)
      ensures ok ==> af == a.af && scopeId == a.scopeId
      ensures ok ==> forall k: nat :: k < Width(a.af) ==> (NetBit(bytes[..], k) <==> NetBit(a.bytes, k) && NetBit(b.bytes, k))
    {
      if a.af != b.af {
        return false;
      }
      for i := 0 to 16
        invariant forall k :: 0 <= k < i ==> bytes[k] == a.bytes[k]
      {
        bytes[i] := a.bytes[i];
      }
      af, scopeId := a.af, a.scopeId;
      if af == OtherFamily {
        return false;
      }
      var n := if af == Inet then 4 else 16;
      for i := 0 to n
        modifies bytes
        invariant forall k :: 0 <= k < 16 ==> bytes[k] == if k < i then AndByte(a.bytes[k], b.bytes[k]) else a.bytes[k]
      {
        bytes[i] := AndByte(bytes[i], b.bytes[i]);
      }
      ok := true;
    }
  }

  lemma NoOnes(b: seq<byte>)
    requires |b| == 16 && forall i :: 0 <= i < 16 ==> b[i] == 0
    ensures IsMask(b, 0)
  {
    forall k: nat
      ensures !NetBit(b, k)
    {
      BitOfZero(7 - k % 8);
    }
  }

  /** A mask of whole words grows by ones in the top bits of the next. */
  lemma MaskWord(before: seq<byte>, after: seq<byte>, i: nat, s: nat)
    requires |before| == |after| == 16 && i < 4 && s < 32 && IsMask(before, 32 * i)
    requires after[4 * i..4 * i + 4] == BigEndian(OnesFrom(s))
    requires forall k :: 0 <= k < 16 && !(4 * i <= k < 4 * i + 4) ==> after[k] == before[k]
    ensures IsMask(after, 32 * i + (32 - s))
  {
    hide Bit, BigEndian, OnesFrom;
    forall k: nat | k < 128
      ensures NetBit(after, k) <==> k < 32 * i + (32 - s)
    {
      if 32 * i <= k < 32 * i + 32 {
        BigEndianBits(OnesFrom(s), k - 32 * i);
        OnesFromBits(s, 31 - (k - 32 * i));
        assert after[4 * i..4 * i + 4][k / 8 - 4 * i] == after[k / 8] && (k - 32 * i) / 8 == k / 8 - 4 * i;
      } else {
        assert NetBit(after, k) <==> NetBit(before, k);
      }
    }
  }

  // ----- order

  /** The number a big-endian byte string stands for. */
  function Number(b: seq<byte>): (n: nat) {
    if b == [] then 0 else 256 * Number(b[..|b| - 1]) + b[|b| - 1]
  }

  /** The first difference decides. */
  lemma {:induction false} FirstDifference(a: seq<byte>, b: seq<byte>, i: nat)
    requires |a| == |b| && i < |a| && a[..i] == b[..i] && a[i] < b[i]
    ensures Number(a) < Number(b)
  {
    var n := |a| - 1;
    if i < n {
      assert a[..n][..i] == a[..i] && b[..n][..i] == b[..i];
      FirstDifference(a[..n], b[..n], i);
    } else {
      assert a[..n] == b[..n];
    }
  }

  lemma {:induction false} NumberInjective(a: seq<byte>, b: seq<byte>)
    requires |a| == |b| && Number(a) == Number(b)
    ensures a == b
  {
    if a != [] {
      var n := |a| - 1;
      NumberInjective(a[..n], b[..n]);
      assert a == a[..n] + [a[n]] && b == b[..n] + [b[n]];
    }
  }

  /** Addresses ordered by family, then number, then scope. */
  datatype Key = Key(family: int, number: nat, scope: nat)

  function KeyOf(a: Xaddr): Key {
    match a.af
    case Inet => Key(0, Number(a.bytes[..4]), 0)
    case Inet6 => Key(1, Number(a.bytes), a.scopeId)
    case OtherFamily => Key(2, 0, 0)
  }

  predicate Less(k: Key, l: Key) {
    k.family < l.family || (k.family == l.family && (k.number < l.number || (k.number == l.number && k.scope < l.scope)))
  }

  /** The same family and, in the part that family uses, the same address. */
  predicate SameAddress(a: Xaddr, b: Xaddr) {
    && a.af == b.af
    && (a.af == Inet ==> a.bytes[..4] == b.bytes[..4])
    && (a.af == Inet6 ==> a.bytes == b.bytes && a.scopeId == b.scopeId)
  }

  lemma KeysAreAddresses(a: Xaddr, b: Xaddr)
    ensures KeyOf(a) == KeyOf(b) <==> SameAddress(a, b)
  {
    if a.af == b.af && KeyOf(a) == KeyOf(b) {
      if a.af == Inet {
        NumberInjective(a.bytes[..4], b.bytes[..4]);
      } else if a.af == Inet6 {
        NumberInjective(a.bytes, b.bytes);
      }
    }
  }

  /** addr_cmp: negative, zero or positive as the first address comes before, with or after the second. */
  method Compare(a: Xaddr, b: Xaddr) returns (r: int)
    ensures a.af != OtherFamily && b.af != OtherFamily ==>
              (r < 0 <==> Less(KeyOf(a), KeyOf(b))) && (r > 0 <==> Less(KeyOf(b), KeyOf(a))) && (r == 0 <==> SameAddress(a, b))
    ensures a.af == b.af == OtherFamily ==> r == -1
    ensures a.af != b.af && a.af == OtherFamily ==> r == -1
    ensures a.af != b.af && b.af == OtherFamily ==> r == if a.af == Inet6 then 1 else -1
  {
    KeysAreAddresses(a, b);
    if a.af != b.af {
      return if a.af == Inet6 then 1 else -1;
    }
    match a.af {
      case Inet =>
        if a.bytes[..4] == b.bytes[..4] {
          return 0;
        }
        r := if Number(a.bytes[..4]) > Number(b.bytes[..4]) then 1 else -1;
      case Inet6 =>
        for i := 0 to 16
          invariant a.bytes[..i] == b.bytes[..i]
        {
          if a.bytes[i] as int - b.bytes[i] as int != 0 {
            if a.bytes[i] < b.bytes[i] {
              FirstDifference(a.bytes, b.bytes, i);
            } else {
              FirstDifference(b.bytes, a.bytes, i);
            }
            return a.bytes[i] as int - b.bytes[i] as int;
          }
        }
        assert a.bytes[..16] == a.bytes && b.bytes[..16] == b.bytes;
        if a.scopeId == b.scopeId {
          return 0;
        }
        r := if a.scopeId > b.scopeId then 1 else -1;
      case OtherFamily =>
        r := -1;
    }
  }

  // ----- prefixes

  /** addr_is_all0s */
  method IsAll0s(a: Xaddr) returns (r: int)
    ensures r == if a.af != OtherFamily && ZeroFrom(a.bytes, 0, Width(a.af)) then 0 else -1
  {
    ZeroBytes(a.bytes, 4);
    ZeroBytes(a.bytes, 16);
    match a.af {
      case Inet =>
        r := if a.bytes[..4] == [0, 0, 0, 0] then 0 else -1;
      case Inet6 =>
        for i := 0 to 4
          invariant forall k :: 0 <= k < 4 * i ==> a.bytes[k] == 0
        {
          if a.bytes[4 * i..4 * i + 4] != [0, 0, 0, 0] {
            assert a.bytes[4 * i..4 * i + 4][..] == [a.bytes[4 * i], a.bytes[4 * i + 1], a.bytes[4 * i + 2], a.bytes[4 * i + 3]];
            return -1;
          }
          assert a.bytes[4 * i..4 * i + 4][0] == a.bytes[4 * i] && a.bytes[4 * i..4 * i + 4][1] == a.bytes[4 * i + 1]
              && a.bytes[4 * i..4 * i + 4][2] == a.bytes[4 * i + 2] && a.bytes[4 * i..4 * i + 4][3] == a.bytes[4 * i + 3];
        }
        r := 0;
      case OtherFamily =>
        r := -1;
    }
  }

  /** addr_host_is_all0s: 0 exactly when no bit from masklen on is set. */
  method HostIsAll0s(a: Xaddr, masklen: nat) returns (r: int)
    ensures r == if MasklenValid(a.af, masklen) && ZeroFrom(a.bytes, masklen, Width(a.af)) then 0 else -1
  {
    hide NetBit;
    var mask := new AddressCell();
    var result := new AddressCell();
    var ok := mask.Hostmask(a.af, masklen);
    if !ok {
      return -1;
    }
    ok := result.AndInto(a, mask.Value());
    if !ok {
      return -1;
    }
    r := IsAll0s(result.Value());
  }

  /** The host's first masklen bits are the network's, whose other bits are zero; IPv6 scopes agree. */
  predicate InNetwork(host: Xaddr, net: Xaddr, masklen: nat) {
    && host.af == net.af && MasklenValid(host.af, masklen)
    && Agree(host.bytes, net.bytes, masklen) && ZeroFrom(net.bytes, masklen, Width(net.af))
    && (host.af == Inet6 ==> host.scopeId == net.scopeId)
  }

  /** addr_netmatch */
  method NetMatch(host: Xaddr, net: Xaddr, masklen: nat) returns (r: int)
    ensures r == 0 <==> InNetwork(host, net, masklen)
  {
    hide NetBit;
    if host.af != net.af {
      return -1;
    }
    var mask := new AddressCell();
    var result := new AddressCell();
    var ok := mask.Netmask(host.af, masklen);
    if !ok {
      return -1;
    }
    ok := result.AndInto(host, mask.Value());
    if !ok {
      return -1;
    }
    MaskedAgrees(host.bytes, net.bytes, result.bytes[..], masklen, Width(host.af));
    r := Compare(result.Value(), net);
  }

  lemma MaskedAgrees(host: seq<byte>, net: seq<byte>, masked: seq<byte>, l: nat, width: nat)
    requires |host| == |net| == |masked| == 16 && l <= width && (width == 32 || width == 128)
    requires forall k: nat :: k < width ==> (NetBit(masked, k) <==> NetBit(host, k) && k < l)
    ensures masked[..width / 8] == net[..width / 8] <==> Agree(host, net, l) && ZeroFrom(net, l, width)
    ensures width == 128 ==> (masked == net <==> masked[..16] == net[..16])
  {
    hide NetBit;
    BytesAgree(masked, net, width / 8);
    assert masked[..16] == masked && net[..16] == net;
    assert Agree(masked, net, width) <==> Agree(host, net, l) && ZeroFrom(net, l, width) by {
      if Agree(host, net, l) && ZeroFrom(net, l, width) {
        forall k: nat | k < width
          ensures NetBit(masked, k) <==> NetBit(net, k)
        {
        }
      }
    }
  }
}

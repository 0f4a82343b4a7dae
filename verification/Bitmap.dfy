/**
 The bit vector of bitmap.c: an array of words with an index of the top one in use, refined to
 the finite set of bit numbers it holds, and its conversions to and from big-endian strings.
 */
module Bitmaps {
  import opened Words
  import opened Bits

  const MAX: int := 0x100_0000

  // ----- the set that words, and strings, stand for

  predicate Has(d: seq<u32>, i: nat) {
    i / 32 < |d| && Bit(d[i / 32], i % 32)
  }

  function SetOf(d: seq<u32>): (s: set<nat>)
    ensures forall i: nat :: i in s <==> Has(d, i)
  {
    set i: nat | 0 <= i < 32 * |d| && Has(d, i)
  }

  /** Bit i of a big-endian byte string, counted from its last byte. */
  predicate StringHas(s: seq<byte>, i: nat) {
    i / 8 < |s| && Bit(s[|s| - 1 - i / 8], i % 8)
  }

  function SetOfString(s: seq<byte>): (r: set<nat>)
    ensures forall i: nat :: i in r <==> StringHas(s, i)
  {
    set i: nat | 0 <= i < 8 * |s| && StringHas(s, i)
  }

  predicate Canonical(s: seq<byte>) {
    s == [] || s[0] != 0
  }

  function StripZeros(s: seq<byte>): (r: seq<byte>)
    ensures Canonical(r)
  {
    if s != [] && s[0] == 0 then StripZeros(s[1..]) else s
  }

  lemma {:induction false} StripKeepsSet(s: seq<byte>)
    ensures SetOfString(StripZeros(s)) == SetOfString(s)
  {
    if s != [] && s[0] == 0 {
      StripKeepsSet(s[1..]);
      forall i: nat
        ensures StringHas(s, i) <==> StringHas(s[1..], i)
      {
        BitOfZero(i % 8);
      }
    }
  }

  lemma PowersOfBytes()
    ensures Power2(8) == 256 && Power2(32) == 0x1_0000_0000
  {
    Power2At32();
  }

  /** The first byte of a canonical string has a bit, so the set fixes its length. */
  lemma FirstByteHas(s: seq<byte>)
    requires s != [] && s[0] != 0
    ensures exists i: nat :: i / 8 == |s| - 1 && StringHas(s, i)
  {
    PowersOfBytes();
    SomeBit(s[0], 8);
    var k :| 0 <= k < 8 && Bit(s[0], k);
    var i := 8 * (|s| - 1) + k;
    assert i / 8 == |s| - 1 && i % 8 == k;
    assert StringHas(s, i);
  }

  lemma NotLonger(s: seq<byte>, t: seq<byte>)
    requires Canonical(s) && SetOfString(s) == SetOfString(t)
    ensures |s| <= |t|
  {
    if s != [] {
      FirstByteHas(s);
      var i: nat :| i / 8 == |s| - 1 && StringHas(s, i);
      assert i in SetOfString(t);
    }
  }

  lemma SameBytes(s: seq<byte>, t: seq<byte>, j: nat)
    requires |s| == |t| && SetOfString(s) == SetOfString(t) && j < |s|
    ensures s[j] == t[j]
  {
    forall k | 0 <= k < 8
      ensures Bit(s[j], k) <==> Bit(t[j], k)
    {
      var i := 8 * (|s| - 1 - j) + k;
      assert i / 8 == |s| - 1 - j && i % 8 == k;
      assert i in SetOfString(s) <==> i in SetOfString(t);
    }
    PowersOfBytes();
    BitsDetermine(s[j], t[j], 8);
  }

  /** Without leading zero bytes, a set has one string. */
  lemma CanonicalUnique(s: seq<byte>, t: seq<byte>)
    requires Canonical(s) && Canonical(t) && SetOfString(s) == SetOfString(t)
    ensures s == t
  {
    NotLonger(s, t);
    NotLonger(t, s);
    forall j | 0 <= j < |s|
      ensures s[j] == t[j]
    {
      SameBytes(s, t, j);
    }
  }

  /** A string read from t and written back is t without its leading zero bytes. */
  lemma ReadThenWrite(t: seq<byte>, written: seq<byte>)
    requires Canonical(written) && SetOfString(written) == SetOfString(t)
    ensures written == StripZeros(t)
  {
    StripKeepsSet(t);
    CanonicalUnique(written, StripZeros(t));
  }

  /** A written string can be read back exactly when its highest bit is below the limit. */
  lemma ReadableIff(s: set<nat>, written: seq<byte>)
    requires Canonical(written) && SetOfString(written) == s
    ensures |written| <= MAX / 8 <==> forall i :: i in s ==> i < MAX
  {
    if written != [] {
      FirstByteHas(written);
      var i: nat :| i / 8 == |written| - 1 && StringHas(written, i);
      assert i in s;
    }
  }

  // ----- single words

  lemma SetWord(d: seq<u32>, off: nat, w: u32)
    requires off < |d|
    ensures forall i: nat :: Has(d[off := w], i) <==> if i / 32 == off then Bit(w, i % 32) else Has(d, i)
  {
  }

  lemma {:induction false} PowerBelow(k: nat, n: nat)
    requires k < n
    ensures Power2(k) < Power2(n)
    decreases n - k
  {
    if k + 1 < n {
      PowerBelow(k + 1, n);
    }
  }

  lemma OneBit(k: nat)
    requires k < 32
    ensures Shl(1, k) < 0x1_0000_0000 && forall i: nat :: Bit(Shl(1, k), i) <==> i == k
  {
    PowersOfBytes();
    PowerBelow(k, 32);
    forall i: nat
      ensures Bit(Shl(1, k), i) <==> i == k
    {
      BitOfPower(k, i);
    }
  }

  lemma OrWord(a: u32, b: u32)
    ensures Or(a, b) < 0x1_0000_0000 && forall i: nat :: Bit(Or(a, b), i) <==> Bit(a, i) || Bit(b, i)
  {
    hide Or, Bit;
    PowersOfBytes();
    OrBelow(a, b, 32);
    forall i: nat
      ensures Bit(Or(a, b), i) <==> Bit(a, i) || Bit(b, i)
    {
      BitOr(a, b, i);
    }
  }

  function Not(a: u32): u32 {
    0xffff_ffff - a
  }

  lemma AndNotWord(a: u32, b: u32)
    ensures And(a, Not(b)) < 0x1_0000_0000 && forall i: nat :: i < 32 ==> (Bit(And(a, Not(b)), i) <==> Bit(a, i) && !Bit(b, i))
  {
    hide And, Bit;
    PowersOfBytes();
    AndAtMost(a, Not(b));
    forall i: nat | i < 32
      ensures Bit(And(a, Not(b)), i) <==> Bit(a, i) && !Bit(b, i)
    {
      BitAnd(a, Not(b), i);
      BitComplement(b, 32, i);
    }
  }

  /** Testing a bit as the code does: shift down, look at the lowest. */
  lemma ShiftedLowBit(a: u32, k: nat)
    ensures Shr(a, k) % 2 == 1 <==> Bit(a, k)
  {
    BitDiv(a, k, 0);
  }

  lemma ByteOfWord(w: u32, j: nat)
    requires j < 4
    ensures forall k: nat :: k < 8 ==> (Bit(Shr(w, 8 * j) % 256, k) <==> Bit(w, 8 * j + k))
  {
    hide Bit;
    PowersOfBytes();
    forall k: nat | k < 8
      ensures Bit(Shr(w, 8 * j) % 256, k) <==> Bit(w, 8 * j + k)
    {
      BitMod(Shr(w, 8 * j), 8, k);
      BitDiv(w, 8 * j, k);
    }
  }

  lemma ByteInWord(b: byte, shift: nat)
    requires shift == 0 || shift == 8 || shift == 16 || shift == 24
    ensures Shl(b, shift) < 0x1_0000_0000
    ensures forall i: nat :: Bit(Shl(b, shift), i) <==> shift <= i < shift + 8 && Bit(b, i - shift)
  {
    hide Bit;
    PowersOfBytes();
    assert Power2(16) == 0x1_0000 && Power2(24) == 0x100_0000 && Power2(0) == 1;
    forall i: nat
      ensures Bit(Shl(b, shift), i) <==> shift <= i < shift + 8 && Bit(b, i - shift)
    {
      BitShift(b, shift, i);
      if i >= shift + 8 {
        BitAbove(b, 8, i - shift);
      }
    }
  }

  lemma NoMembers(d: seq<u32>)
    requires forall k :: 0 <= k < |d| ==> d[k] == 0
    ensures SetOf(d) == {}
  {
    forall i: nat
      ensures !Has(d, i)
    {
      BitOfZero(i % 32);
    }
  }

  const SIZE_MAX: int := 0xffff_ffff_ffff_ffff

  class Bitmap {
    var d: array<u32>
    var len: nat
    var top: nat

    /** The code's own guards against top >= len never fire in such states. */
    ghost predicate Valid()
      reads this, d
    {
      && 1 <= len == d.Length && top < len
      && (forall k :: top < k < len ==> d[k] == 0)
      && (forall i: nat :: Has(d[..], i) ==> i <= MAX)
    }

    ghost function Contents(): set<nat>
      reads this, d
    {
      SetOf(d[..])
    }

    constructor ()
      ensures Valid() && Contents() == {} && fresh(d)
    {
      d := new u32[1](_ => 0);
      len, top := 1, 0;
      new;
      NoMembers(d[..]);
    }

    /** bitmap_zero */
    method Zero()
      requires Valid()
      modifies this`top, d
      ensures Valid() && Contents() == {} && top == 0 && forall k :: 0 <= k < len ==> d[k] == 0
    {
      for i := 0 to len
        invariant forall k :: 0 <= k < i ==> d[k] == 0
      {
        d[i] := 0;
      }
      top := 0;
      NoMembers(d[..]);
    }

    /** bitmap_test_bit */
    method TestBit(n: u32) returns (bit: bool)
      requires Valid()
      ensures bit <==> n in Contents()
    {
      if n / 32 > top {
        BitOfZero(n % 32);
        return false;
      }
      ShiftedLowBit(d[n / 32], n % 32);
      bit := Shr(d[n / 32], n % 32) % 2 == 1;
    }

    /** reserve: grow the word array to hold bit n, unless n is beyond the limit. */
    method Reserve(n: nat) returns (ok: bool)
      requires Valid()
      modifies this`d, this`len
      ensures Valid() && ok == (n <= MAX)
      ensures Contents() == old(Contents()) && (ok ==> n / 32 < len) && len >= old(len)
      ensures d == old(d) || fresh(d)
    {
      if n > MAX {
        return false;
      }
      var nlen := n / 32 + 1;
      if len < nlen {
        ghost var before := d[..];
        var tmp := new u32[nlen](_ => 0);
        for i := 0 to len
          modifies tmp
          invariant forall k :: 0 <= k < i ==> tmp[k] == d[k]
          invariant forall k :: i <= k < nlen ==> tmp[k] == 0
        {
          tmp[i] := d[i];
        }
        d, len := tmp, nlen;
        forall i: nat
          ensures Has(d[..], i) <==> Has(before, i)
        {
          BitOfZero(i % 32);
        }
      }
      ok := true;
    }

    /** bitmap_set_bit */
    method SetBit(n: u32) returns (ok: bool)
      requires Valid()
      modifies this, d
      ensures Valid() && ok == (n <= MAX)
      ensures Contents() == if ok then old(Contents()) + {n as nat} else old(Contents())
      ensures d == old(d) || fresh(d)
    {
      ok := Reserve(n);
      if !ok {
        return;
      }
      var offset := n / 32;
      if offset > top {
        top := offset;
      }
      OneBit(n % 32);
      var bit: u32 := Shl(1, n % 32);
      OrWord(d[offset], bit);
      ghost var before := d[..];
      WordWithBit(before, n, Or(d[offset], bit));
      d[offset] := Or(d[offset], bit);
      assert d[..] == before[offset := Or(before[offset], bit)];
    }

    /** retop: lower top to the highest word that is not zero. */
    method Retop()
      requires Valid()
      modifies this`top
      ensures Valid() && top <= old(top) && (top == 0 || d[top] != 0)
    {
      while top > 0 && d[top] == 0
        invariant Valid() && top <= old(top)
        decreases top
      {
        top := top - 1;
      }
    }

    /** bitmap_clear_bit */
    method ClearBit(n: u32)
      requires Valid()
      modifies this`top, d
      ensures Valid() && Contents() == old(Contents()) - {n as nat}
    {
      var offset := n / 32;
      if n > MAX || offset > top {
        BitOfZero(n % 32);
        return;
      }
      OneBit(n % 32);
      var bit: u32 := Shl(1, n % 32);
      AndNotWord(d[offset], bit);
      ghost var before := d[..];
      WordWithoutBit(before, n, And(d[offset], Not(bit)));
      d[offset] := And(d[offset], Not(bit));
      assert d[..] == before[offset := And(before[offset], Not(bit))];
      Retop();
    }

    /** bitmap_nbits: one more than the highest member, or zero. */
    method NBits() returns (bits: nat)
      requires Valid()
      modifies this`top
      ensures Valid() && Contents() == old(Contents()) && (top == 0 || d[top] != 0)
      ensures bits <= 32 * (top + 1) && forall i :: i in Contents() ==> i < bits
      ensures if Contents() == {} then bits == 0 else bits > 0 && bits - 1 in Contents()
    {
      hide Has, SetOf, Bit;
      Retop();
      if top == 0 && d[0] == 0 {
        NoMembers(d[..]);
        return 0;
      }
      bits := BelowTopBit(d[top], (top + 1) * 32);
      HighestMember(d[..], top, bits);
    }

    /** bitmap_nbytes */
    method NBytes() returns (bytes: nat)
      requires Valid()
      modifies this`top
      ensures Valid() && Contents() == old(Contents()) && (top == 0 || d[top] != 0)
      ensures forall i :: i in Contents() ==> i / 8 < bytes
      ensures bytes > 0 ==> exists i :: i in Contents() && i / 8 == bytes - 1
      ensures bytes <= 4 * (top + 1)
    {
      var bits := NBits();
      bytes := (bits + 7) / 8;
    }

    /**
     bitmap_to_string: the canonical big-endian string, at the front of p; refused when even that
     does not fit.
     */
    method ToString(p: array<byte>, l: nat) returns (ok: bool, ghost n: nat)
      requires Valid() && l <= p.Length
      modifies this`top, p
      ensures Valid() && Contents() == old(Contents())
      ensures ok ==> n <= l && Canonical(p[..n]) && SetOfString(p[..n]) == Contents() && p[n..] == old(p[n..])
      ensures !ok ==> p[..] == old(p[..])
                      && forall s: seq<byte> :: SetOfString(s) == Contents() ==> |s| > l
    {
      var need := NBytes();
      n := need;
      if l < need {
        forall s: seq<byte> | SetOfString(s) == Contents()
          ensures |s| > l
        {
          var i :| i in Contents() && i / 8 == need - 1;
          assert i in SetOfString(s);
        }
        return false, n;
      }
      ghost var words := d[..];
      WriteBytes(p, need);
      assert d[..] == words;
      WrittenSet(words, p[..need]);
      ok := true;
    }

    /** Put the bytes from the lowest backwards. */
    method WriteBytes(p: array<byte>, need: nat)
      requires Valid() && need <= p.Length && need <= 4 * (top + 1)
      modifies p
      ensures forall j :: 0 <= j < need ==> p[j] == ByteAt(d[..], need - 1 - j)
      ensures p[need..] == old(p[need..])
    {
      hide ByteAt;
      var k := 0;
      for i := 0 to top + 1
        invariant k == if 4 * i <= need then 4 * i else need
        invariant forall j :: need - k <= j < need ==> p[j] == ByteAt(d[..], need - 1 - j)
        invariant p[need..] == old(p[need..])
      {
        for byteOf := 0 to 4
          invariant k == if 4 * i + byteOf <= need then 4 * i + byteOf else need
          invariant forall j :: need - k <= j < need ==> p[j] == ByteAt(d[..], need - 1 - j)
          invariant p[need..] == old(p[need..])
        {
          if k >= need {
            break;
          }
          ByteAtIs(d[..], i, byteOf);
          p[need - 1 - k] := Shr(d[i], 8 * byteOf) % 256;
          k := k + 1;
        }
      }
    }

    /** bitmap_from_string; the offset wraps below zero after the last byte, and is not used again. */
    method FromString(s: seq<byte>) returns (ok: bool)
      requires Valid()
      modifies this, d
      ensures Valid() && ok == (|s| <= MAX / 8)
      ensures Contents() == if ok then SetOfString(s) else old(Contents())
    {
      var l := |s|;
      if l > MAX / 8 {
        return false;
      }
      ok := Reserve(l * 8);
      Zero();
      if l == 0 {
        return;
      }
      top := (l + 3) / 4 - 1;
      LoadBytes(s);
      Retop();
    }

    /** Put the bytes of the string into the words, from the highest on. */
    method LoadBytes(s: seq<byte>)
      requires 0 < |s| <= MAX / 8 && top == (|s| - 1) / 4 < len == d.Length && forall k :: 0 <= k < len ==> d[k] == 0
      modifies d
      ensures forall k :: top < k < len ==> d[k] == 0
      ensures SetOf(d[..]) == SetOfString(s)
    {
      hide Bit, Or, Shl, Has, StringHas;
      var l := |s|;
      var offset := (l + 3) / 4 - 1;
      var shift := (l + 3) % 4 * 8;
      NothingLoaded(d[..], s);
      for i := 0 to l
        invariant forall k :: top < k < len ==> d[k] == 0
        invariant i < l ==> offset == (l - 1 - i) / 4 && shift == (l - 1 - i) % 4 * 8
        invariant i == l ==> offset == SIZE_MAX && shift == 24
        invariant Loaded(d[..], s, i)
      {
        ghost var before := d[..];
        ByteInWord(s[i], shift);
        OrWord(d[offset], Shl(s[i], shift));
        d[offset] := Or(d[offset], Shl(s[i], shift));
        WordWithByte(before, d[..], s, i, offset, shift);
        if shift == 0 {
          offset := (offset - 1) % (SIZE_MAX + 1);
          shift := 24;
        } else {
          shift := shift - 8;
        }
      }
      AllLoaded(d[..], s);
    }
  }

  /** The words hold the bits of the first i bytes, which are the highest. */
  predicate Loaded(d: seq<u32>, s: seq<byte>, i: nat) {
    SetOf(d) == set b | b in SetOfString(s) && b / 8 >= |s| - i
  }

  lemma NothingLoaded(d: seq<u32>, s: seq<byte>)
    requires forall k :: 0 <= k < |d| ==> d[k] == 0
    ensures Loaded(d, s, 0)
  {
    forall b: nat
      ensures !Has(d, b)
    {
      BitOfZero(b % 32);
    }
  }

  lemma AllLoaded(d: seq<u32>, s: seq<byte>)
    requires Loaded(d, s, |s|)
    ensures SetOf(d) == SetOfString(s)
  {
  }

  function ByteAt(d: seq<u32>, q: nat): byte {
    if q / 4 < |d| then Shr(d[q / 4], 8 * (q % 4)) % 256 else 0
  }

  lemma ByteAtIs(d: seq<u32>, i: nat, j: nat)
    requires i < |d| && j < 4
    ensures ByteAt(d, 4 * i + j) == Shr(d[i], 8 * j) % 256
  {
    hide Shr;
  }

  lemma ByteHas(d: seq<u32>, i: nat)
    ensures Bit(ByteAt(d, i / 8), i % 8) <==> Has(d, i)
  {
    hide Bit, Shr;
    BitOfZero(i % 8);
    var q := i / 8;
    assert q / 4 == i / 32 && 8 * (q % 4) + i % 8 == i % 32;
    if q / 4 < |d| {
      ByteOfWord(d[q / 4], q % 4);
    }
  }

  lemma WrittenSet(d: seq<u32>, s: seq<byte>)
    requires forall j :: 0 <= j < |s| ==> s[j] == ByteAt(d, |s| - 1 - j)
    requires forall i :: i in SetOf(d) ==> i / 8 < |s|
    requires |s| > 0 ==> exists i :: i in SetOf(d) && i / 8 == |s| - 1
    ensures SetOfString(s) == SetOf(d) && Canonical(s)
  {
    hide Bit, ByteAt;
    forall i: nat
      ensures StringHas(s, i) <==> Has(d, i)
    {
      ByteHas(d, i);
    }
    if |s| > 0 {
      var i :| i in SetOf(d) && i / 8 == |s| - 1;
      assert StringHas(s, i);
      BitOfZero(i % 8);
    }
  }

  /** One byte of the string has gone into its word. */
  lemma WordWithByte(before: seq<u32>, after: seq<u32>, s: seq<byte>, i: nat, offset: nat, shift: nat)
    requires i < |s| && offset < |before|
    requires offset == (|s| - 1 - i) / 4 && shift == (|s| - 1 - i) % 4 * 8
    requires Or(before[offset], Shl(s[i], shift)) < 0x1_0000_0000 && after == before[offset := Or(before[offset], Shl(s[i], shift))]
    requires forall b: nat :: Bit(Or(before[offset], Shl(s[i], shift)), b) <==> Bit(before[offset], b) || Bit(Shl(s[i], shift), b)
    requires forall b: nat :: Bit(Shl(s[i], shift), b) <==> shift <= b < shift + 8 && Bit(s[i], b - shift)
    requires Loaded(before, s, i)
    ensures Loaded(after, s, i + 1)
  {
    hide Bit, Or, Shl;
    var q := |s| - 1 - i;
    forall b: nat
      ensures Has(after, b) <==> Has(before, b) || (b / 8 == q && Bit(s[i], b % 8))
    {
      assert b / 8 == q <==> b / 32 == offset && shift <= b % 32 < shift + 8;
      assert b / 8 == q ==> b % 8 == b % 32 - shift;
    }
  }

  /** Shift the word up until its top bit is set, counting down from the bit number above it. */
  method BelowTopBit(word: u32, above: nat) returns (bits: nat)
    requires word > 0 && above >= 32
    ensures above - 32 < bits <= above && Bit(word, 32 + bits - above - 1)
    ensures forall k: nat :: k < 32 && Bit(word, k) ==> k < 32 + bits - above
  {
    hide Bit, Shl;
    var w := word;
    bits := above;
    ShiftNone(word);
    while w < 0x8000_0000
      invariant 0 < w < 0x1_0000_0000 && above - 32 < bits <= above
      invariant w == Shl(word, above - bits)
      decreases 0x1_0000_0000 - w
    {
      w := 2 * w;
      ShiftOnce(word, above - bits);
      ShiftBounded(word, above - bits + 1, w);
      bits := bits - 1;
    }
    TopWordBits(word, above - bits);
  }

  lemma HighestMember(d: seq<u32>, top: nat, bits: nat)
    requires top < |d| && 32 * top < bits <= 32 * (top + 1) && forall k :: top < k < |d| ==> d[k] == 0
    requires Bit(d[top], bits - 32 * top - 1) && forall k: nat :: k < 32 && Bit(d[top], k) ==> k < bits - 32 * top
    ensures bits - 1 in SetOf(d) && forall i :: i in SetOf(d) ==> i < bits
  {
    hide Bit;
    assert Has(d, bits - 1);
    forall i: nat | Has(d, i)
      ensures i < bits
    {
      BitOfZero(i % 32);
    }
  }

  lemma ShiftNone(a: nat)
    ensures Shl(a, 0) == a
  {
  }

  lemma WordWithBit(d: seq<u32>, n: nat, w: u32)
    requires n / 32 < |d| && forall k: nat :: k < 32 ==> (Bit(w, k) <==> Bit(d[n / 32], k) || k == n % 32)
    ensures SetOf(d[n / 32 := w]) == SetOf(d) + {n}
  {
    hide Bit;
    SetWord(d, n / 32, w);
    SameIndex(n);
  }

  lemma WordWithoutBit(d: seq<u32>, n: nat, w: u32)
    requires n / 32 < |d| && forall k: nat :: k < 32 ==> (Bit(w, k) <==> Bit(d[n / 32], k) && k != n % 32)
    ensures SetOf(d[n / 32 := w]) == SetOf(d) - {n}
  {
    hide Bit;
    SetWord(d, n / 32, w);
    SameIndex(n);
  }

  lemma SameIndex(n: nat)
    ensures forall i: nat :: i == n <==> i / 32 == n / 32 && i % 32 == n % 32
  {
  }

  lemma ShiftOnce(a: nat, k: nat)
    ensures Shl(a, k + 1) == 2 * Shl(a, k)
  {
    assert a * (2 * Power2(k)) == 2 * (a * Power2(k));
  }

  /** A nonzero word shifted by 32 leaves the range. */
  lemma ShiftBounded(a: nat, k: nat, w: nat)
    requires a > 0 && w == Shl(a, k) && w < 0x1_0000_0000
    ensures k < 32
  {
    PowersOfBytes();
    if k > 32 {
      PowerBelow(32, k);
    }
    AtLeastPower(a, Power2(k));
  }

  lemma AtLeastPower(a: nat, p: nat)
    requires a > 0
    ensures a * p >= p
  {
  }

  /** Shifting a word up to its top bit finds that bit. */
  lemma TopWordBits(a: u32, s: nat)
    requires s < 32 && 0x8000_0000 <= Shl(a, s) < 0x1_0000_0000
    ensures Bit(a, 31 - s) && forall k: nat :: k < 32 && Bit(a, k) ==> k <= 31 - s
  {
    PowersOfBytes();
    assert Power2(31) == 0x8000_0000;
    TopBit(Shl(a, s), 32);
    BitShift(a, s, 31);
    forall k: nat | k < 32 && Bit(a, k)
      ensures k <= 31 - s
    {
      BitShift(a, s, k + s);
      if k + s >= 32 {
        BitAbove(Shl(a, s), 32, k + s);
      }
    }
  }
}

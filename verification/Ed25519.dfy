/**
 Signing and opening (ed25519.c; sections 5.1.6 and 5.1.7 of RFC 8032), on byte arrays whose
 spare room doubles as hash input.  Scalars, points and point encodings go through the code of
 Sc25519, BaseMult, Ge25519 and PointCodec; the hash is a parameter.
 */
module Ed25519 {
  import opened Words
  import opened Bits
  import opened Optional
  import opened Field
  import opened Residues
  import opened Edwards
  import opened MulBound
  import opened PointSpec
  import opened PointGroup
  import opened CurveGroup
  import opened PointCodec
  import opened Ge25519
  import opened BaseMult
  import opened Sc25519

  type Hash = seq<byte> -> seq<byte>

  /** Any function to 64 bytes, standing for SHA-512. */
  function Digest(hash: Hash, x: seq<byte>): (d: seq<byte>)
    ensures |d| == 64
  {
    if |hash(x)| == 64 then hash(x) else seq(64, _ => 0)
  }

  // ----- the base point

  const BASE_X: nat := 0x216936d3cd6e53fec0a4e231fdd6dc5c692cc7609525a7b2c9562d608f25d51a
  const BASE_Y: nat := 0x6666666666666666666666666666666666666666666666666666666666666658
  const BASE_T: nat := 0x67875f0fd78b766566ea4e8e64abe37d20f09f80775152f56dde8ab3a5b7dda3

  /** ge25519_base */
  function BasePoint(): (p: P3)
    ensures ExtOf(p) == Ext(BASE_X, BASE_Y, 1, BASE_T)
  {
    OneLimbVal(1);
    P3(Limbs(BASE_X, 0x21), Limbs(BASE_Y, 0x66), OneLimb(1), Limbs(BASE_T, 0x67))
  }

  ghost function Generator(): (a: CurvePoint)
    ensures a == Pt(BASE_X, BASE_Y)
  {
    GeneratorSolves();
    Pt(BASE_X, BASE_Y)
  }

  lemma GeneratorSolves()
    ensures AffineCurve.Solves(BASE_X, BASE_Y)
  {
    hide Zero;
    ZeroIff(AffineCurve.Affine(BASE_X, BASE_Y));
  }

  lemma BaseOnCurve()
    ensures OnCurve(Ext(BASE_X, BASE_Y, 1, BASE_T)) && !Zero(1)
  {
    hide Zero;
    var p := Ext(BASE_X, BASE_Y, 1, BASE_T);
    ZeroIff(Segre(p));
    ZeroIff(Curve(p, D));
    ZeroIff(1);
  }

  /** The constant in the source names the generator. */
  lemma BaseNamesGenerator()
    requires CurveFacts()
    ensures Represents(CurveModel(), BasePoint(), Generator())
  {
    hide Zero, Val, BasePoint, OnCurve, Fermat, NoZeroDivisors, DIsNonSquare, Associative, Rep;
    BaseOnCurve();
    NearMod(BASE_X, BASE_X);
    RepItself(Generator(), BASE_X, BASE_Y);
  }

  ghost function Multiple(k: nat): CurvePoint {
    Times(CurveModel(), k, Generator())
  }

  /** What the results assume: facts about the curve, the order of the generator, the table of its multiples. */
  ghost predicate Assumptions(table: seq<Aff>) {
    CurveFacts() && Multiple(L) == NeutralPt() && TableOk(CurveModel(), table, Generator())
  }

  // ----- what a signature is

  /** Clear the low three bits and the top bit, set the next one. */
  function Clamp(h: seq<byte>): (r: seq<byte>)
    requires |h| == 64
    ensures |r| == 64 && r[32..] == h[32..]
    ensures Val(r[..32]) % 8 == 0 && Pow256(32) / 4 <= Val(r[..32]) < Pow256(32) / 2
  {
    ClampedRange(h, ClampLow(h[0]), ClampHigh(h[31]));
    h[0 := ClampLow(h[0])][31 := ClampHigh(h[31])]
  }

  function ClampLow(a: byte): (r: byte)
    ensures r % 8 == 0
  {
    ClampedBytes(a, 0);
    And(a, 248)
  }

  function ClampHigh(b: byte): (r: byte)
    ensures 64 <= r < 128
  {
    ClampedBytes(0, b);
    Or(And(b, 127), 64)
  }

  lemma ClampedBytes(a: byte, b: byte)
    ensures 0 <= And(a, 248) <= 255 && And(a, 248) % 8 == 0
    ensures 64 <= Or(And(b, 127), 64) < 128
  {
    PowersFiveAndSeven();
    hide And, Or, Power2;
    AndHigh(a);
    AndMod(a / 8, 5);
    MultipleOfEight(a / 8);
    AndMod(b, 7);
    OrAtLeast(And(b, 127), 64);
    OrBelow(And(b, 127), 64, 7);
  }

  lemma PowersFiveAndSeven()
    ensures Power2(5) == 32 && Power2(7) == 128
  {
  }

  lemma AndHigh(a: byte)
    ensures And(a, 248) == 8 * And(a / 8, 31)
  {
    hide And;
    AndEven(a, 124);
    AndEven(a / 2, 62);
    AndEven(a / 4, 31);
  }

  lemma AndEven(a: nat, b: nat)
    ensures And(a, 2 * b) == 2 * And(a / 2, b)
  {
    hide And;
    AndStep(a, 2 * b);
    assert 2 * b / 2 == b && 2 * b % 2 == 0;
    assert And(a, 2 * b) == 2 * (And(a, 2 * b) / 2) + And(a, 2 * b) % 2;
  }

  lemma EightDivides(a: int, b: int)
    requires a % 8 == 0
    ensures (a + 256 * b) % 8 == 0
  {
    assert a + 256 * b == 8 * (a / 8 + 32 * b);
    MultipleOfEight(a / 8 + 32 * b);
  }

  lemma MultipleOfEight(k: int)
    ensures 8 * k % 8 == 0
  {
  }

  lemma ClampedRange(h: seq<byte>, first: byte, last: byte)
    requires |h| == 64 && first % 8 == 0 && 64 <= last < 128
    ensures var r := h[0 := first][31 := last];
            Val(r[..32]) % 8 == 0 && Pow256(32) / 4 <= Val(r[..32]) < Pow256(32) / 2
  {
    var r := h[0 := first][31 := last][..32];
    hide Val, Pow256;
    HeadVal(r, 0);
    assert r[0..] == r && r[0] == first;
    EightDivides(first, Val(r[1..]));
    ValSplit(r, 31);
    assert r[31..] == [last];
    OneDigit(last);
    ValOfBytes(r[..31]);
    Powers();
  }

  /** A 64-byte hash, or 32 bytes, as a scalar modulo the group order. */
  function Residue(b: seq<byte>): (n: nat)
    ensures n < L && n == Val(b) % L
  {
    Val(b) % L
  }

  ghost function SecretScalar(hash: Hash, seed: seq<byte>): nat {
    Residue(Clamp(Digest(hash, seed))[..32])
  }

  /** Section 5.1.5: the public key of a seed, as a point and as bytes. */
  ghost function PublicPoint(hash: Hash, seed: seq<byte>): CurvePoint {
    Multiple(SecretScalar(hash, seed))
  }

  ghost function PublicKey(hash: Hash, seed: seq<byte>): seq<byte> {
    Enc(PublicPoint(hash, seed))
  }

  ghost function Nonce(hash: Hash, seed: seq<byte>, m: seq<byte>): nat {
    Residue(Digest(hash, Digest(hash, seed)[32..] + m))
  }

  ghost function NoncePoint(hash: Hash, seed: seq<byte>, m: seq<byte>): CurvePoint {
    Multiple(Nonce(hash, seed, m))
  }

  ghost function Challenge(hash: Hash, r: seq<byte>, pk: seq<byte>, m: seq<byte>): nat {
    Residue(Digest(hash, r + pk + m))
  }

  /** S = h x + k modulo the group order. */
  function Proof(h: nat, x: nat, k: nat): (n: nat)
    ensures n < L
  {
    (h * x + k) % L
  }

  /** The signed message under a 64-byte secret key, given the bytes of R. */
  ghost function SignedWith(hash: Hash, r: seq<byte>, m: seq<byte>, sk: seq<byte>): seq<byte>
    requires |sk| == 64
  {
    var k, x := Nonce(hash, sk[..32], m), SecretScalar(hash, sk[..32]);
    r + LittleEndian(Proof(Challenge(hash, r, sk[32..], m), x, k), 32) + m
  }

  /** Section 5.1.6: R encodes the nonce's multiple of the base point. */
  ghost function Signed25519(hash: Hash, m: seq<byte>, sk: seq<byte>): seq<byte>
    requires |sk| == 64
  {
    SignedWith(hash, Enc(NoncePoint(hash, sk[..32], m)), m, sk)
  }

  /** The point the verifier compares with R, from the negative of the key's point. */
  ghost function Recomputed(hash: Hash, negative: CurvePoint, sm: seq<byte>, pk: seq<byte>): CurvePoint
    requires |sm| >= 64
  {
    Combo(CurveModel(), Challenge(hash, sm[..32], pk, sm[64..]), negative, Residue(sm[32..64]), Generator())
  }

  /** Section 5.1.7, for the key that encodes a. */
  ghost function Opened25519(hash: Hash, sm: seq<byte>, a: CurvePoint): Option<seq<byte>> {
    if |sm| >= 64 && Enc(Recomputed(hash, Minus(a), sm, Enc(a))) == sm[..32] then Some(sm[64..]) else None
  }

  // ----- the verification equation

  lemma {:induction false} TimesTimes<G(!new)>(m: Model<G>, i: nat, j: nat, a: G)
    requires AbelianGroup(m)
    ensures Times(m, i, Times(m, j, a)) == Times(m, i * j, a)
  {
    hide AbelianGroup;
    if i > 0 {
      TimesTimes(m, i - 1, j, a);
      TimesAdd(m, j, (i - 1) * j, a);
      assert j + (i - 1) * j == i * j;
    } else {
      assert i * j == 0;
    }
  }

  lemma {:induction false} TimesZero<G(!new)>(m: Model<G>, i: nat)
    requires AbelianGroup(m)
    ensures Times(m, i, m.zero) == m.zero
  {
    hide AbelianGroup;
    if i > 0 {
      TimesZero(m, i - 1);
      Units(m, m.zero);
    }
  }

  /** Multiples depend only on the factor modulo the order. */
  lemma TimesResidue<G(!new)>(m: Model<G>, n: nat, a: G)
    requires AbelianGroup(m) && Times(m, L, a) == m.zero
    ensures Times(m, n % L, a) == Times(m, n, a)
  {
    hide AbelianGroup, Times;
    var q := n / L;
    TimesTimes(m, q, L, a);
    TimesZero(m, q);
    TimesAdd(m, q * L, n % L, a);
    Units(m, Times(m, n % L, a));
    assert q * L + n % L == n;
  }

  /** h(-A) + hA = 0 */
  lemma {:induction false} TimesOpposite<G(!new)>(m: Model<G>, h: nat, a: G)
    requires AbelianGroup(m)
    ensures m.plus(Times(m, h, m.minus(a)), Times(m, h, a)) == m.zero
  {
    hide AbelianGroup;
    Units(m, m.zero);
    if h > 0 {
      TimesOpposite(m, h - 1, a);
      Interchange(m, m.minus(a), Times(m, h - 1, m.minus(a)), a, Times(m, h - 1, a));
      Commutes(m, m.minus(a), a);
      Units(m, a);
    }
  }

  /** h(-A) + (h a + k)B = kB for A = aB. */
  lemma EquationHolds<G(!new)>(m: Model<G>, h: nat, x: nat, k: nat, gen: G)
    requires AbelianGroup(m) && Times(m, L, gen) == m.zero
    ensures Combo(m, h, m.minus(Times(m, x, gen)), (h * x + k) % L, gen) == Times(m, k, gen)
  {
    hide AbelianGroup, Times, L, Combo;
    TimesTimes(m, h, x, gen);
    Cancelled(m, h, Times(m, x, gen), h * x, k, gen);
  }

  lemma Cancelled<G(!new)>(m: Model<G>, h: nat, a: G, hx: nat, k: nat, gen: G)
    requires AbelianGroup(m) && Times(m, L, gen) == m.zero && Times(m, h, a) == Times(m, hx, gen)
    ensures Combo(m, h, m.minus(a), (hx + k) % L, gen) == Times(m, k, gen)
  {
    hide AbelianGroup, Times;
    TimesResidue(m, hx + k, gen);
    TimesAdd(m, hx, k, gen);
    TimesOpposite(m, h, a);
    Associates(m, Times(m, h, m.minus(a)), Times(m, h, a), Times(m, k, gen));
    Units(m, Times(m, k, gen));
  }

  // ----- main results

  lemma GroupOfPoints()
    requires CurveFacts()
    ensures AbelianGroup(CurveModel())
  {
    hide CurveFacts, Homomorphic, NoZeroDivisors, DIsNonSquare;
    CurveIsModel();
  }

  lemma ModelParts(a: CurvePoint)
    ensures CurveModel().zero == NeutralPt() && CurveModel().minus(a) == Minus(a)
  {
    hide Minus;
  }

  /**
   What is recomputed from a signed message is the signer's nonce point, whatever 32 bytes stand
   in it for R and whatever bytes the signer hashed as its public key.
   */
  lemma RecomputedIsNonce(hash: Hash, seed: seq<byte>, pk: seq<byte>, r: seq<byte>, m: seq<byte>)
    requires CurveFacts() && Multiple(L) == NeutralPt() && |seed| == |pk| == |r| == 32
    ensures var sm := SignedWith(hash, r, m, seed + pk);
            && |sm| == |m| + 64 && sm[64..] == m && sm[..32] == r
            && Recomputed(hash, Minus(PublicPoint(hash, seed)), sm, pk) == NoncePoint(hash, seed, m)
  {
    hide CurveFacts, Multiple, Challenge, Nonce, SecretScalar, Minus, Proof, Combo, CurveModel, Generator, LittleEndian, Residue;
    var x, k := SecretScalar(hash, seed), Nonce(hash, seed, m);
    SignedParts(hash, seed, pk, r, m);
    var h := Challenge(hash, r, pk, m);
    ResidueOfProof(h, x, k);
    SignatureEquation(h, x, k);
  }

  lemma SignedParts(hash: Hash, seed: seq<byte>, pk: seq<byte>, r: seq<byte>, m: seq<byte>)
    requires |seed| == |pk| == |r| == 32
    ensures var sm := SignedWith(hash, r, m, seed + pk);
            && |sm| == |m| + 64 && sm[..32] == r && sm[64..] == m
            && sm[32..64] == LittleEndian(Proof(Challenge(hash, r, pk, m), SecretScalar(hash, seed), Nonce(hash, seed, m)), 32)
  {
    hide Challenge, Nonce, SecretScalar, Proof, LittleEndian;
    assert (seed + pk)[..32] == seed && (seed + pk)[32..] == pk;
  }

  lemma ResidueOfProof(h: nat, x: nat, k: nat)
    ensures Residue(LittleEndian(Proof(h, x, k), 32)) == Proof(h, x, k)
  {
    hide Val, LittleEndian, Proof, Pow256;
    Powers();
  }

  lemma SignatureEquation(h: nat, x: nat, k: nat)
    requires CurveFacts() && Multiple(L) == NeutralPt()
    ensures Combo(CurveModel(), h, Minus(Multiple(x)), Proof(h, x, k), Generator()) == Multiple(k)
  {
    hide CurveFacts, Times, Combo, AbelianGroup, CurveModel, Minus, Generator, L;
    GroupOfPoints();
    ModelParts(Multiple(x));
    EquationHolds(CurveModel(), h, x, k, Generator());
  }

  /** The signature of section 5.1.6 is accepted by section 5.1.7, which gives exactly the message back. */
  lemma SignThenOpen(hash: Hash, seed: seq<byte>, m: seq<byte>)
    requires CurveFacts() && Multiple(L) == NeutralPt() && |seed| == 32
    ensures Opened25519(hash, Signed25519(hash, m, seed + PublicKey(hash, seed)), PublicPoint(hash, seed)) == Some(m)
  {
    hide CurveFacts, Multiple, Recomputed, NoncePoint, PublicPoint, Enc, SignedWith;
    var pk := PublicKey(hash, seed);
    assert (seed + pk)[..32] == seed;
    RecomputedIsNonce(hash, seed, pk, Enc(NoncePoint(hash, seed, m)), m);
  }

  lemma ResidueTwice(b: seq<byte>)
    ensures Residue(LittleEndian(Residue(b), 32)) == Residue(b)
  {
    hide Val, LittleEndian, Pow256;
    Powers();
  }

  /** Opening looks at the second half of the signature only modulo the group order. */
  lemma OpeningReducesS(hash: Hash, r: seq<byte>, b: seq<byte>, m: seq<byte>, a: CurvePoint)
    requires |r| == |b| == 32
    ensures Opened25519(hash, r + b + m, a) == Opened25519(hash, r + LittleEndian(Residue(b), 32) + m, a)
  {
    hide LittleEndian, Challenge, Combo, Val, Enc, Digest, CurveModel, Minus, Generator, Residue, Pow256;
    var c := LittleEndian(Residue(b), 32);
    ResidueTwice(b);
    assert (r + b + m)[..32] == r && (r + b + m)[32..64] == b && (r + b + m)[64..] == m;
    assert (r + c + m)[..32] == r && (r + c + m)[32..64] == c && (r + c + m)[64..] == m;
  }

  // ----- the code

  /** A reduced scalar is small enough for both multiplications. */
  lemma ReducedTop(v: seq<u32>)
    requires Reduced(v)
    ensures v[31] < 48
  {
    hide Val, Pow256;
    ValSplit(v, 31);
    assert v[31..] == [v[31]];
    OneDigit(v[31]);
    ValOfBytes(v[..31]);
    Powers();
  }

  /** The number a scalar stands for. */
  function ScalarVal(v: seq<u32>): (n: nat)
    requires Bytes(v)
    ensures n == Val(v)
  {
    ValOfBytes(v);
    Val(v)
  }

  /** ge25519_scalarmult_base followed by ge25519_pack. */
  method PackedMultiple(table: seq<Aff>, k: array<u32>) returns (r: seq<byte>)
    requires k.Length == 32 && Reduced(k[..])
    requires Assumptions(table)
    ensures |r| == 32 && (Packable(Multiple(ScalarVal(k[..]))) ==> r == Enc(Multiple(ScalarVal(k[..]))))
  {
    hide CurveFacts, IsModel, TableOk, Represents, Times, Val, Packed, Enc, Packable, IsInverse, CurveModel;
    ReducedTop(k[..]);
    var digits: seq<byte> := k[..];
    CurveIsModel();
    var ger := new Point();
    ScalarMultBase(ger, table, digits, CurveModel(), Generator());
    SignedScalar(CurveModel(), digits, Generator());
    ghost var zi;
    r, zi := PackPoint(ger.Value());
    if Packable(Multiple(Scalar(digits))) {
      PackedNames(ger.Value(), zi, Multiple(Scalar(digits)));
    }
  }

  /** crypto_sign_ed25519_keypair, from given random bytes. */
  method KeyPair(hash: Hash, table: seq<Aff>, seed: seq<byte>) returns (pk: seq<byte>, sk: seq<byte>)
    requires Assumptions(table) && |seed| == 32
    ensures |pk| == 32 && sk == seed + pk
    ensures Packable(PublicPoint(hash, seed)) ==> pk == PublicKey(hash, seed)
  {
    hide Assumptions, Multiple, Val, Enc, Packable, Clamp;
    var extsk := Clamp(Digest(hash, seed));
    var scsk := ScalarFrom32(extsk[..32]);
    pk := PackedMultiple(table, scsk);
    sk := seed + pk;
  }

  method ScalarFrom64(x: seq<byte>) returns (r: array<u32>)
    requires |x| == 64
    ensures fresh(r) && r.Length == 32 && Reduced(r[..]) && ScalarVal(r[..]) == Residue(x)
  {
    hide Val, L;
    r := new u32[32];
    From64Bytes(r, x);
  }

  method ScalarFrom32(x: seq<byte>) returns (r: array<u32>)
    requires |x| == 32
    ensures fresh(r) && r.Length == 32 && Reduced(r[..]) && ScalarVal(r[..]) == Residue(x)
  {
    hide Val, L;
    r := new u32[32];
    From32Bytes(r, x);
  }

  function HashInput(sm: seq<byte>, pk: seq<byte>): seq<byte>
    requires |sm| >= 64
  {
    sm[..32] + pk + sm[64..]
  }

  lemma ThreeParts(s: seq<byte>, i: nat, j: nat)
    requires i <= j <= |s|
    ensures s == s[0 + 0..0 + i] + s[i + 0..i + (j - i)] + s[0 + j..0 + |s|]
  {
  }

  /** get_hram: build the hash input in playground, which may be sm itself. */
  method GetHram(hash: Hash, sm: array<byte>, pk: seq<byte>, playground: array<byte>, smlen: nat) returns (hram: seq<byte>)
    requires 64 <= smlen <= sm.Length && smlen <= playground.Length && |pk| == 32
    modifies playground
    ensures playground[..smlen] == HashInput(old(sm[..smlen]), pk)
    ensures playground[smlen..] == old(playground[smlen..])
    ensures hram == Digest(hash, playground[..smlen])
  {
    for i := 0 to 32
      invariant forall k :: 0 <= k < i ==> playground[k] == old(sm[k])
      invariant forall k :: i <= k < playground.Length ==> playground[k] == old(playground[k])
    {
      playground[i] := sm[i];
    }
    for i := 32 to 64
      invariant forall k :: 0 <= k < 32 ==> playground[k] == old(sm[k])
      invariant forall k :: 32 <= k < i ==> playground[k] == pk[k - 32]
      invariant forall k :: i <= k < playground.Length ==> playground[k] == old(playground[k])
    {
      playground[i] := pk[i - 32];
    }
    for i := 64 to smlen
      invariant forall k :: 0 <= k < 32 ==> playground[k] == old(sm[k])
      invariant forall k :: 32 <= k < 64 ==> playground[k] == pk[k - 32]
      invariant forall k :: 64 <= k < i ==> playground[k] == old(sm[k])
      invariant forall k :: i <= k < playground.Length ==> playground[k] == old(playground[k])
    {
      playground[i] := sm[i];
    }
    ghost var sm0 := old(sm[..smlen]);
    var now := playground[..smlen];
    SameSlice(now, 0, sm0, 0, 32);
    SameSlice(now, 0, sm0, 64, smlen);
    SameSlice(now, 32, pk, 0, 32);
    ThreeParts(now, 32, 64);
    hram := Digest(hash, now);
  }

  /** The challenge, hashed out of playground, which may be sm itself. */
  method ChallengeScalar(hash: Hash, sm: array<byte>, pk: seq<byte>, playground: array<byte>, smlen: nat) returns (r: array<u32>)
    requires 64 <= smlen <= sm.Length && smlen <= playground.Length && |pk| == 32
    modifies playground
    ensures fresh(r) && r.Length == 32 && Reduced(r[..])
    ensures ScalarVal(r[..]) == Challenge(hash, old(sm[..32]), pk, old(sm[64..smlen]))
    ensures playground[smlen..] == old(playground[smlen..])
    ensures playground == sm ==> sm[..32] == old(sm[..32]) && sm[64..] == old(sm[64..])
  {
    hide Val, L, Residue, ScalarVal, Reduced;
    ghost var sm0 := sm[..smlen];
    var hram := GetHram(hash, sm, pk, playground, smlen);
    assert sm0[..32] == old(sm[..32]) && sm0[64..] == old(sm[64..smlen]);
    assert playground[..smlen] == old(sm[..32]) + pk + old(sm[64..smlen]);
    r := ScalarFrom64(hram);
  }

  /** Copy bytes into place from position at on. */
  method CopyInto(a: array<byte>, at: nat, b: seq<byte>)
    requires at + |b| <= a.Length
    modifies a
    ensures a[..at] == old(a[..at]) && a[at..at + |b|] == b && a[at + |b|..] == old(a[at + |b|..])
  {
    for i := 0 to |b|
      invariant forall k :: at <= k < at + i ==> a[k] == b[k - at]
      invariant forall k :: 0 <= k < a.Length && !(at <= k < at + i) ==> a[k] == old(a[k])
    {
      a[at + i] := b[i];
    }
  }

  /** s = h x + k modulo the group order, as bytes. */
  method Response(scs: array<u32>, scsk: array<u32>, sck: array<u32>) returns (r: seq<byte>)
    requires scs.Length == scsk.Length == sck.Length == 32 && scs != scsk && scs != sck
    requires Reduced(scs[..]) && Reduced(scsk[..]) && Reduced(sck[..])
    modifies scs
    ensures r == LittleEndian(Proof(ScalarVal(old(scs[..])), ScalarVal(scsk[..]), ScalarVal(sck[..])), 32)
  {
    hide Val, LittleEndian, L;
    ValOfBytes(sck[..]);
    ValOfBytes(scsk[..]);
    ValOfBytes(scs[..]);
    ghost var product := Val(scs[..]) * Val(scsk[..]);
    Mul(scs, scs, scsk);
    Sc25519.Add(scs, scs, sck);
    SumOfResidues(product, Val(sck[..]));
    var b := To32Bytes(scs);
    DigitsAre(b[..]);
    r := b[..];
  }

  lemma SumOfResidues(a: int, b: int)
    ensures (a % L + b) % L == (a + b) % L
  {
    var q := a / L;
    var r := (a % L + b) % L;
    assert a % L + b == L * ((a % L + b) / L) + r;
    QuotientUnique(a + b, q + (a % L + b) / L, r);
  }

  /** The first half of the signature: R = kB for the nonce k, over the nonce's hash input in sm + 32. */
  method SignNonce(hash: Hash, table: seq<Aff>, sm: array<byte>, m: seq<byte>, seed: seq<byte>, extsk: seq<byte>, smlen: nat)
    returns (sck: array<u32>, ghost r: seq<byte>)
    requires extsk == Clamp(Digest(hash, seed)) && smlen == |m| + 64 && sm.Length >= smlen
    requires sm[64..smlen] == m
    requires Assumptions(table)
    modifies sm
    ensures fresh(sck) && sck.Length == 32 && Reduced(sck[..]) && ScalarVal(sck[..]) == Nonce(hash, seed, m)
    ensures |r| == 32 && (Packable(NoncePoint(hash, seed, m)) ==> r == Enc(NoncePoint(hash, seed, m)))
    ensures sm[..32] == r && sm[64..] == old(sm[64..])
  {
    hide Assumptions, Multiple, Val, L, Clamp, Pow256, LittleEndian, Enc, Packable;
    CopyInto(sm, 32, extsk[32..]);
    assert sm[64..smlen] == sm[64..][..|m|] && old(sm[64..smlen]) == old(sm[64..])[..|m|];
    assert sm[32..smlen] == sm[32..64] + sm[64..smlen];
    var hmg := Digest(hash, sm[32..smlen]);
    sck := ScalarFrom64(hmg);
    var packed := PackedMultiple(table, sck);
    CopyInto(sm, 0, packed);
    assert sm[64..] == sm[32..][32..];
    r := packed;
  }

  /** The second half: S = h a + k, over the challenge's hash input in sm itself. */
  method SignScalar(hash: Hash, sm: array<byte>, sk: seq<byte>, extsk: seq<byte>, sck: array<u32>, smlen: nat)
    requires |sk| == 64 && extsk == Clamp(Digest(hash, sk[..32])) && 64 <= smlen <= sm.Length
    requires sck.Length == 32 && Reduced(sck[..])
    modifies sm
    ensures var h := Challenge(hash, old(sm[..32]), sk[32..], old(sm[64..smlen]));
            sm[32..64] == LittleEndian(Proof(h, SecretScalar(hash, sk[..32]), ScalarVal(sck[..])), 32)
    ensures sm[..32] == old(sm[..32]) && sm[64..] == old(sm[64..])
  {
    hide Val, LittleEndian, L, Clamp, Pow256, Residue, ScalarVal, Challenge, Proof, Reduced;
    var scs := ChallengeScalar(hash, sm, sk[32..], sm, smlen);
    var scsk := ScalarFrom32(extsk[..32]);
    var tail := Response(scs, scsk, sck);
    CopyInto(sm, 32, tail);
  }

  /** crypto_sign_ed25519; R encodes the nonce point if that point is packable. */
  method Sign(hash: Hash, table: seq<Aff>, sm: array<byte>, m: array<byte>, sk: seq<byte>) returns (smlen: nat, ghost r: seq<byte>)
    requires Assumptions(table) && |sk| == 64 && sm != m && sm.Length >= m.Length + 64
    modifies sm
    ensures smlen == m.Length + 64 && |r| == 32 && sm[..smlen] == SignedWith(hash, r, m[..], sk)
    ensures Packable(NoncePoint(hash, sk[..32], m[..])) ==> sm[..smlen] == Signed25519(hash, m[..], sk)
    ensures sm[smlen..] == old(sm[smlen..])
  {
    hide Assumptions, Val, LittleEndian, L, Clamp, Pow256, Nonce, Challenge, SecretScalar, NoncePoint, Packable, Enc;
    var extsk := Clamp(Digest(hash, sk[..32]));
    smlen := m.Length + 64;
    CopyInto(sm, 64, m[..]);
    ghost var rest := sm[64..];
    assert rest == m[..] + old(sm[smlen..]);
    assert sm[64..smlen] == rest[..smlen - 64] == m[..];
    var sck;
    sck, r := SignNonce(hash, table, sm, m[..], sk[..32], extsk, smlen);
    assert sm[64..smlen] == rest[..smlen - 64];
    SignScalar(hash, sm, sk, extsk, sck, smlen);
    assert sm[64..smlen] == rest[..smlen - 64] && sm[smlen..] == rest[smlen - 64..];
    assert sm[..smlen] == sm[..32] + sm[32..64] + m[..];
  }

  /** crypto_verify_32: gather differing bits without a branch. */
  method CryptoVerify32(x: seq<byte>, y: seq<byte>) returns (r: int)
    requires |x| == |y| == 32
    ensures r == if x == y then 0 else -1
  {
    hide Xor, Or, Sub32;
    var differentbits: u32 := 0;
    for i := 0 to 32
      invariant differentbits <= 255 && (differentbits == 0 <==> x[..i] == y[..i])
    {
      ByteXorBelow(x[i], y[i]);
      XorIsZero(x[i], y[i]);
      OrIsZero(differentbits, Xor(x[i], y[i]));
      ByteOrBelow(differentbits, Xor(x[i], y[i]));
      assert x[..i + 1] == x[..i] + [x[i]] && y[..i + 1] == y[..i] + [y[i]];
      differentbits := Or(differentbits, Xor(x[i], y[i]));
    }
    assert x[..32] == x && y[..32] == y;
    LowBitOfBorrow(differentbits);
    r := Sub32(differentbits, 1) / 256 % 2 - 1;
  }

  lemma ByteOrBelow(a: nat, b: nat)
    requires a <= 255 && b <= 255
    ensures Or(a, b) <= 255
  {
    hide Or;
    assert Power2(8) == 256;
    OrBelow(a, b, 8);
  }

  lemma LowBitOfBorrow(d: u32)
    requires d <= 255
    ensures Sub32(d, 1) / 256 % 2 == if d == 0 then 1 else 0
  {
  }

  /** Acceptance is agreement with R, if the recomputed point is packable. */
  ghost predicate Decides(hash: Hash, sm: seq<byte>, pk: seq<byte>, key: CurvePoint, ret: int)
    requires |sm| >= 64
  {
    var q := Recomputed(hash, key, sm, pk);
    Packable(q) ==> (ret == 0 <==> Enc(q) == sm[..32])
  }

  /** The return value of opening, given the point that the key bytes turned out to name, if any. */
  ghost predicate OpenOutcome(hash: Hash, sm: seq<byte>, pk: seq<byte>, key: Option<CurvePoint>, ret: int)
    requires |pk| == 32
  {
    && (ret == 0 || ret == -1)
    && (|sm| < 64 || key.None? ==> ret == -1)
    && (key.Some? ==> KeyNames(pk, key.value))
    && (|sm| >= 64 && (exists a: CurvePoint :: pk == Enc(a) && Unpackable(a)) ==> key.Some?)
    && (|sm| >= 64 && key.Some? ==> Decides(hash, sm, pk, key.value, ret))
  }

  /** For the key of an unpackable point and a packable recomputed point, opening is section 5.1.7. */
  lemma OutcomeIsOpening(hash: Hash, sm: seq<byte>, a: CurvePoint, key: Option<CurvePoint>, ret: int)
    requires |sm| >= 64 && OpenOutcome(hash, sm, Enc(a), key, ret)
    requires Unpackable(a) && Packable(Recomputed(hash, Minus(a), sm, Enc(a)))
    ensures ret == 0 <==> Opened25519(hash, sm, a).Some?
  {
    hide Recomputed, Packable, Unpackable, Enc, Minus;
  }

  const NO_LENGTH := 0xffff_ffff_ffff_ffff

  /** The point that accepted key bytes name: always one of the curve, and the negative of an unpackable encoded point. */
  ghost predicate KeyNames(pk: seq<byte>, key: CurvePoint)
    requires |pk| == 32
  {
    key.y == Val(Unpack(pk)) % P && forall a: CurvePoint :: pk == Enc(a) && Unpackable(a) ==> key == Minus(a)
  }

  /** ge25519_unpackneg_vartime, with the curve point that comes out. */
  method UnpackKey(r: Point, pk: seq<byte>) returns (ok: bool, ghost key: CurvePoint)
    requires |pk| == 32 && CurveFacts()
    modifies r
    ensures ok ==> Represents(CurveModel(), r.Value(), key) && KeyNames(pk, key)
    ensures (exists a: CurvePoint :: pk == Enc(a) && Unpackable(a)) ==> ok
  {
    hide CurveFacts, Represents, Val, Unpack, Unpackable, Enc, IsRootPower, CurveModel, Minus, UnpackedNeg;
    ghost var power;
    var ret;
    ret, power := UnpackNegVartime(r, pk);
    ok := ret == 0;
    key := Generator();
    ghost var q := UnpackedNeg(pk, power);
    if ok {
      UnpackedRepresents(pk, power);
      key := Rep(Val(q.value.x), Val(q.value.y), Val(q.value.z));
    }
    forall a: CurvePoint | pk == Enc(a) && Unpackable(a)
      ensures q.Some? && (Represents(CurveModel(), q.value, key) ==> key == Minus(a))
    {
      UnpacksToNegative(a, power);
      if Represents(CurveModel(), q.value, key) {
        NamesOnePoint(q.value, key, Minus(a));
      }
    }
  }

  lemma NamesOnePoint(p: P3, a: CurvePoint, b: CurvePoint)
    requires Represents(CurveModel(), p, a) && Represents(CurveModel(), p, b)
    ensures a == b
  {
    hide OnCurve, Zero, Val;
  }

  lemma UnpackedRepresents(pk: seq<byte>, power: Fe)
    requires |pk| == 32 && CurveFacts() && UnpackedNeg(pk, power).Some?
    ensures var q := UnpackedNeg(pk, power).value; var key := Rep(Val(q.x), Val(q.y), Val(q.z));
            Represents(CurveModel(), q, key) && key.y == Val(Unpack(pk)) % P
  {
    hide Val, Zero, OnCurve, NoZeroDivisors, DIsNonSquare, Fermat, Associative, Unpack, UnpackedNeg, Inv, ProjCurve;
    var q := UnpackedNeg(pk, power).value;
    UnpackedOnCurve(pk, power);
    ZeroIff(1);
    ProperOnCurve(ExtOf(q));
    QuotientOnCurve(Val(q.x), Val(q.y), 1);
    RepOne(Val(q.x), Val(q.y));
  }

  /**
   crypto_sign_ed25519_open; its copying loops count in 32 bits and end only for shorter messages.
   A key that names a point is used as that point; if what is recomputed is packable, acceptance is
   exactly agreement of its encoding with R.
   */
  method SignOpen(hash: Hash, m: array<byte>, sm: array<byte>, smlen: nat, pk: seq<byte>)
    returns (ret: int, mlen: nat, ghost key: Option<CurvePoint>)
    requires CurveFacts() && |pk| == 32 && m != sm && smlen <= sm.Length && smlen <= m.Length
    requires smlen < 0x1_0000_0000 + 64
    modifies m
    ensures OpenOutcome(hash, sm[..smlen], pk, key, ret)
    ensures smlen < 64 || key.None? ==> m[..] == old(m[..])
    ensures ret == 0 ==> mlen == smlen - 64 && m[..mlen] == sm[64..smlen]
    ensures ret != 0 ==> mlen == NO_LENGTH
                         && (m[..] == old(m[..]) || (smlen >= 64 && forall k :: 0 <= k < smlen - 64 ==> m[k] == 0))
    ensures m[smlen..] == old(m[smlen..])
  {
    hide CurveFacts, Val, Represents, Decides, KeyNames, Unpackable, Enc, CurveModel, NeutralPt, Generator, OnCurvePt;
    mlen, ret, key := NO_LENGTH, -1, None;
    if smlen < 64 {
      return;
    }
    var get1 := new Point();
    var ok;
    ghost var named;
    ok, named := UnpackKey(get1, pk);
    if !ok {
      return;
    }
    key := Some(named);
    ret := CheckSignature(hash, m, sm, smlen, pk, get1.Value(), named);
    assert sm[..smlen][..32] == sm[..32] && sm[..smlen][64..] == sm[64..smlen];
    if ret == 0 {
      CopyMessage(m, sm, smlen);
      mlen := smlen - 64;
    } else {
      ClearMessage(m, smlen);
    }
  }

  /** Recompute R from the message and compare; m is scratch space. */
  method CheckSignature(hash: Hash, m: array<byte>, sm: array<byte>, smlen: nat, pk: seq<byte>, get1: P3, ghost key: CurvePoint) returns (ret: int)
    requires |pk| == 32 && m != sm && 64 <= smlen <= sm.Length && smlen <= m.Length
    requires CurveFacts() && Represents(CurveModel(), get1, key)
    modifies m
    ensures ret == 0 || ret == -1
    ensures Decides(hash, sm[..smlen], pk, key, ret)
    ensures m[smlen..] == old(m[smlen..])
  {
    hide CurveFacts, Times, Val, Represents, L, Combo, Residue, ScalarVal, Challenge, Reduced, CurveModel, Enc, Packable;
    var schram := ChallengeScalar(hash, sm, pk, m, smlen);
    var scs := ScalarFrom32(sm[32..64]);
    var t2 := PackedCombination(get1, schram, scs, key);
    assert sm[..smlen][..32] == sm[..32] && sm[..smlen][32..64] == sm[32..64] && sm[..smlen][64..] == sm[64..smlen];
    ret := CryptoVerify32(sm[..32], t2);
  }

  method CopyMessage(m: array<byte>, sm: array<byte>, smlen: nat)
    requires m != sm && 64 <= smlen <= sm.Length && smlen <= m.Length
    modifies m
    ensures m[..smlen - 64] == sm[64..smlen] && m[smlen..] == old(m[smlen..])
  {
    for i := 0 to smlen - 64
      invariant forall k :: 0 <= k < i ==> m[k] == sm[k + 64]
      invariant m[smlen..] == old(m[smlen..])
    {
      m[i] := sm[i + 64];
    }
  }

  method ClearMessage(m: array<byte>, smlen: nat)
    requires 64 <= smlen <= m.Length
    modifies m
    ensures (forall k :: 0 <= k < smlen - 64 ==> m[k] == 0) && m[smlen..] == old(m[smlen..])
  {
    for i := 0 to smlen - 64
      invariant forall k :: 0 <= k < i ==> m[k] == 0
      invariant m[smlen..] == old(m[smlen..])
    {
      m[i] := 0;
    }
  }

  /** ge25519_double_scalarmult_vartime followed by ge25519_pack. */
  method PackedCombination(p: P3, h: array<u32>, k: array<u32>, ghost g: CurvePoint) returns (r: seq<byte>)
    requires CurveFacts() && Represents(CurveModel(), p, g)
    requires h.Length == k.Length == 32 && Reduced(h[..]) && Reduced(k[..])
    ensures var q := Combo(CurveModel(), ScalarVal(h[..]), g, ScalarVal(k[..]), Generator());
            |r| == 32 && (Packable(q) ==> r == Enc(q))
  {
    hide CurveFacts, IsModel, Represents, Times, Val, Combo, Packed, Enc, Packable, IsInverse, CurveModel;
    ReducedTop(h[..]);
    ReducedTop(k[..]);
    var hs: seq<byte>, ks: seq<byte> := h[..], k[..];
    SmallScalar(hs);
    SmallScalar(ks);
    CurveIsModel();
    BaseNamesGenerator();
    var get2 := new Point();
    DoubleScalarMultVartime(get2, p, hs, BasePoint(), ks, CurveModel(), g, Generator());
    ghost var zi;
    r, zi := PackPoint(get2.Value());
    ghost var q := Combo(CurveModel(), Scalar(hs), g, Scalar(ks), Generator());
    if Packable(q) {
      PackedNames(get2.Value(), zi, q);
    }
  }

  // ----- what the code opens is what the code signed

  /** The points of a key and of one signature that the code encodes and decodes as RFC 8032 says. */
  ghost predicate Codable(hash: Hash, seed: seq<byte>, m: seq<byte>) {
    var a := PublicPoint(hash, seed);
    Packable(a) && Unpackable(a) && Packable(NoncePoint(hash, seed, m))
  }

  /** A fresh key pair, a message signed with it into sm and opened from there into back. */
  method SignAndOpen(hash: Hash, table: seq<Aff>, seed: seq<byte>, m: array<byte>, sm: array<byte>, back: array<byte>)
    returns (ret: int, mlen: nat)
    requires Assumptions(table) && |seed| == 32 && m.Length < 0x1_0000_0000
    requires sm != m && back != sm && sm.Length >= m.Length + 64 && back.Length >= m.Length + 64
    modifies sm, back
    ensures Codable(hash, seed, old(m[..])) ==> ret == 0 && mlen == m.Length && back[..mlen] == old(m[..])
  {
    hide Val, Enc, Packable, Unpackable, Recomputed, OpenOutcome, NoncePoint, PublicPoint, Signed25519, Opened25519, SignedWith, CurveFacts, Multiple;
    var pk, sk := KeyPair(hash, table, seed);
    assert sk[..32] == seed && sk[32..] == pk;
    var smlen, r := Sign(hash, table, sm, m, sk);
    ghost var key;
    ret, mlen, key := SignOpen(hash, back, sm, smlen, pk);
    if Codable(hash, seed, old(m[..])) {
      OpensWhatWasSigned(hash, seed, old(m[..]), sm[..smlen], key, ret);
    }
  }

  /** The verdict on a signature of section 5.1.6, under its key. */
  lemma OpensWhatWasSigned(hash: Hash, seed: seq<byte>, m: seq<byte>, sm: seq<byte>, key: Option<CurvePoint>, ret: int)
    requires CurveFacts() && Multiple(L) == NeutralPt() && |seed| == 32 && Codable(hash, seed, m)
    requires sm == Signed25519(hash, m, seed + PublicKey(hash, seed))
    requires OpenOutcome(hash, sm, PublicKey(hash, seed), key, ret)
    ensures ret == 0 && |sm| == |m| + 64 && sm[64..] == m
  {
    hide CurveFacts, Multiple, Recomputed, NoncePoint, PublicPoint, Enc, SignedWith, Packable, Unpackable, OpenOutcome, Opened25519;
    var pk, a := PublicKey(hash, seed), PublicPoint(hash, seed);
    assert (seed + pk)[..32] == seed;
    RecomputedIsNonce(hash, seed, pk, Enc(NoncePoint(hash, seed, m)), m);
    SignThenOpen(hash, seed, m);
    OutcomeIsOpening(hash, sm, a, key, ret);
  }
}

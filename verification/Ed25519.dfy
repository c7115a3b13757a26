/** Key pairs, signatures and their verification: keypair.c, sign.c and verify.c. */
module Ed25519 {
  import opened Arith
  import opened Bits
  import opened Sc
  import opened Curve
  import opened Ge
  import opened PointCodec
  import opened DoubleScalarMult
  import opened ScalarMultBase
  import opened Sha512Spec
  import opened Sha512
  import ScCode
  import FeBytes

  // -------------------------------------------------------------------------
  // Scalars of 32 bytes
  // -------------------------------------------------------------------------

  lemma TopByteSplit(s: seq<byte>)
    requires |s| == 32
    ensures LE(s) == LE(s[..31]) + s[31] * Pow2(248) && 0 <= LE(s[..31]) < Pow2(248)
  {
    LESnoc(s, 31);
    assert s[..32] == s;
    LEBound(s[..31]);
  }

  lemma SmallTop(s: seq<byte>)
    requires |s| == 32
    ensures s[31] < 32 <==> LE(s) < Pow2(253)
    ensures LE(s) < Pow2(255) ==> s[31] <= 127
  {
    TopByteSplit(s);
    hide LE, Pow2;
    Pow2Small();
    Pow2Add(248, 5);
    Pow2Add(248, 7);
    var w := Pow2(248);
    if s[31] < 32 {
      MulMono(s[31], 31, w);
    } else {
      MulMono(32, s[31], w);
    }
    if s[31] > 127 {
      MulMono(128, s[31], w);
    }
  }

  lemma BelowL(n: int)
    requires n < L
    ensures n < Pow2(253) && n < Pow2(255)
  {
    Pow2Large();
    Pow2Add(252, 1);
  }

  lemma ReducedRange(n: int)
    ensures L > 0 && 0 <= n % L < L
  {
  }

  /** Clamping clears the bits 0, 1, 2 and 255, and sets bit 254. */
  lemma ClampValue(s: seq<byte>)
    requires |s| == 32
    ensures LE(s[0 := ClearLow(s[0])][31 := SetTop(s[31])]) == Pow2(254) + LE(s) % Pow2(254) - LE(s) % 8
  {
    hide LE, Pow2;
    var t := s[0 := ClearLow(s[0])];
    var u := t[31 := SetTop(s[31])];
    FirstByte(s, t);
    TopByteSplit(s);
    TopByteSplit(t);
    TopByteSplit(u);
    assert u[..31] == t[..31];
    Pow2Small();
    Pow2Add(248, 6);
    ClampSum(LE(s[..31]), s[31], Pow2(248), LE(s));
  }

  lemma FirstByte(s: seq<byte>, t: seq<byte>)
    requires |s| > 0 && t == s[0 := ClearLow(s[0])]
    ensures LE(t) == LE(s) - LE(s) % 8
  {
    assert t[1..] == s[1..];
    LowThreeBits(s);
  }

  lemma LowThreeBits(e: seq<byte>)
    requires |e| > 0
    ensures LE(e) % 8 == e[0] % 8
  {
    var low: nat, rest := e[0], LE(e[1..]);
    assert LE(e) == low + 256 * rest;
    hide LE;
    assert (low + 8 * (32 * rest)) % 8 == low % 8;
  }

  lemma ClampSum(low: nat, x: nat, w: nat, n: nat)
    requires low < w && n == low + x * w
    ensures n % (64 * w) == low + (x % 64) * w && (x % 64 + 64) * w == (x % 64) * w + 64 * w
  {
    assert x * w == (x / 64) * (64 * w) + (x % 64) * w;
    MulMono(x % 64, 63, w);
    DivModUnique(n, 64 * w, x / 64, low + (x % 64) * w);
  }

  // -------------------------------------------------------------------------
  // Key pairs
  // -------------------------------------------------------------------------

  /** The hash of the seed, with its first half made a multiple of 8 between 2^254 and 2^255. */
  ghost predicate IsPrivateKey(sk: seq<byte>, seed: seq<byte>) {
    && |sk| == 64
    && sk == StreamDigest(seed)[0 := ClearLow(StreamDigest(seed)[0])][31 := SetTop(StreamDigest(seed)[31])]
  }

  /** The public key encodes a times the base point. */
  ghost predicate IsPublicKey(pk: seq<byte>, sk: seq<byte>, q: Point)
    requires |sk| == 64
  {
    IsEncoding(pk, Times(LE(sk[..32]), q))
  }

  /** ed25519_derive_pub. */
  method DerivePub(public_key: array<byte>, private_key: seq<byte>, base: seq<seq<Precomp>>, ghost q: Point)
    requires public_key.Length >= 32 && |private_key| == 64 && private_key[31] <= 127
    requires CurveLaw() && OnCurve(q) && IsBaseTable(base, q)
    modifies public_key
    ensures IsPublicKey(public_key[..32], private_key, q) && public_key[32..] == old(public_key[32..])
  {
    hide CurveLaw, OnCurve, Times, IsP3, IsBaseTable, LE, IsEncoding;
    var A := GeScalarMultBase(private_key[..32], base, q);
    TimesOnCurve(LE(private_key[..32]), q);
    GeP3ToBytes(public_key, A, Times(LE(private_key[..32]), q));
  }

  /** ed25519_create_keypair. */
  method CreateKeypair(public_key: array<byte>, private_key: array<byte>, seed: seq<byte>, base: seq<seq<Precomp>>, ghost q: Point)
    requires public_key.Length == 32 && private_key.Length == 64 && |seed| == 32 && public_key != private_key
    requires CurveLaw() && OnCurve(q) && IsBaseTable(base, q)
    modifies public_key, private_key
    ensures IsPrivateKey(private_key[..], seed) && IsPublicKey(public_key[..], private_key[..], q)
  {
    hide CurveLaw, OnCurve, Times, IsP3, IsBaseTable, LE, IsEncoding, StreamDigest, ClearLow, SetTop;
    var _ := Sha512.Hash(seed, private_key);
    assert private_key[..64] == private_key[..];
    private_key[0] := ClearLow(private_key[0]);
    private_key[31] := SetTop(private_key[31]);
    ghost var sk := private_key[..];
    var A := GeScalarMultBase(private_key[..32], base, q);
    TimesOnCurve(LE(private_key[..32]), q);
    GeP3ToBytes(public_key, A, Times(LE(private_key[..32]), q));
    assert public_key[..32] == public_key[..] && private_key[..] == sk && private_key[..32] == sk[..32];
  }

  // -------------------------------------------------------------------------
  // Signing
  // -------------------------------------------------------------------------

  /** r: the hash of the second half of the private key and the message, reduced. */
  ghost function Nonce(sk: seq<byte>, m: seq<byte>): nat
    requires |sk| == 64
  {
    LE(StreamDigest(sk[32..] + m)) % L
  }

  /** k: the hash of R, the public key and the message, reduced. */
  ghost function Challenge(R: seq<byte>, pk: seq<byte>, m: seq<byte>): nat {
    LE(StreamDigest(R + pk + m)) % L
  }

  /** The signature that section 5.1.6 of RFC 8032 defines. */
  ghost predicate IsSignature(sig: seq<byte>, m: seq<byte>, pk: seq<byte>, sk: seq<byte>, q: Point)
    requires |sk| == 64
  {
    && |sig| == 64
    && IsEncoding(sig[..32], Times(Nonce(sk, m), q))
    && LE(sig[32..]) == (Challenge(sig[..32], pk, m) * LE(sk[..32]) + Nonce(sk, m)) % L
  }

  ghost function Joined(parts: seq<seq<byte>>): seq<byte> {
    if |parts| == 0 then [] else Joined(parts[..|parts| - 1]) + parts[|parts| - 1]
  }

  lemma JoinedMore(parts: seq<seq<byte>>, i: nat)
    requires i < |parts|
    ensures Joined(parts[..0]) == [] && Joined(parts[..i + 1]) == Joined(parts[..i]) + parts[i]
  {
    assert parts[..i + 1][..i] == parts[..i];
  }

  lemma JoinedFew(a: seq<byte>, b: seq<byte>, c: seq<byte>)
    ensures Joined([a, b]) == a + b && Joined([a, b, c]) == a + b + c
  {
    assert [a, b, c][..2] == [a, b] && [a, b][..1] == [a] && [a][..0] == [];
    assert Joined([a]) == [] + a == a;
  }

  /** A hash of several strings, fed one after the other, and reduced modulo L. */
  method HashToScalar(parts: seq<seq<byte>>) returns (h: array<byte>)
    requires |parts| > 0
    ensures fresh(h) && h.Length == 64 && LE(h[..32]) == LE(StreamDigest(Joined(parts))) % L
  {
    hide Sha512Spec.K, LE, StreamDigest, Fed, View, Chain, Joined;
    h := new byte[64];
    var hash := new Context();
    hash.Init();
    JoinedMore(parts, 0);
    for i := 0 to |parts|
      invariant hash.Valid() && hash.stream == Joined(parts[..i])
      invariant fresh(hash) && fresh(hash.state) && fresh(hash.buf)
    {
      JoinedMore(parts, i);
      var _ := hash.Update(parts[i]);
    }
    assert parts[..|parts|] == parts;
    var _ := hash.Final(h);
    assert h[..64] == h[..];
    ScCode.ScReduce(h);
  }

  /** ed25519_sign. */
  method Sign(signature: array<byte>, message: seq<byte>, public_key: seq<byte>, private_key: seq<byte>,
              base: seq<seq<Precomp>>, ghost q: Point)
    requires signature.Length == 64 && |public_key| == 32 && |private_key| == 64
    requires CurveLaw() && OnCurve(q) && IsBaseTable(base, q)
    modifies signature
    ensures IsSignature(signature[..], message, public_key, private_key, q)
  {
    hide CurveLaw, OnCurve, Times, IsP3, IsBaseTable, LE, IsEncoding, StreamDigest, Pow2, Joined;
    var r := HashToScalar([private_key[32..], message]);
    JoinedFew(private_key[32..], message, []);
    ghost var n := Nonce(private_key, message);
    SmallTop(r[..32]);
    ReducedRange(LE(StreamDigest(private_key[32..] + message)));
    BelowL(n);
    var R := GeScalarMultBase(r[..32], base, q);
    TimesOnCurve(n, q);
    GeP3ToBytes(signature, R, Times(n, q));
    ghost var e := signature[..32];
    var hram := HashToScalar([signature[..32], public_key, message]);
    JoinedFew(e, public_key, message);
    ScCode.ScMulAdd(signature, 32, hram[..32], private_key[..32], r[..32]);
    assert signature[..][..32] == e && signature[..][32..] == signature[32..32 + 32];
  }

  // -------------------------------------------------------------------------
  // Verification
  // -------------------------------------------------------------------------

  /** S B - k A for the decoded public key A. */
  ghost function Checked(sig: seq<byte>, m: seq<byte>, pk: seq<byte>, p: Point, q: Point): Point
    requires |sig| == 64
  {
    Curve.Sum(Times(Challenge(sig[..32], pk, m), Opposite(p)), Times(LE(sig[32..]), q))
  }

  /** The three top bits of S are clear, the public key decodes, and R is the encoding of S B - k A. */
  ghost predicate Accepts(sig: seq<byte>, m: seq<byte>, pk: seq<byte>, q: Point)
    requires |sig| == 64
  {
    && LE(sig[32..]) < Pow2(253)
    && exists p :: IsDecoding(pk, p) && IsEncoding(sig[..32], Checked(sig, m, pk, p, q))
  }

  /** consttime_equal. */
  method ConsttimeEqual(x: seq<byte>, y: seq<byte>) returns (equal: bool)
    requires |x| == |y| == 32
    ensures equal <==> x == y
  {
    hide Or, Xor;
    var r := Xor(x[0], y[0]);
    XorZero(x[0], y[0]);
    for i := 1 to 32
      invariant r >= 0 && (r == 0 <==> forall j :: 0 <= j < i ==> x[j] == y[j])
    {
      XorZero(x[i], y[i]);
      OrZero(r, Xor(x[i], y[i]));
      r := Or(r, Xor(x[i], y[i]));
    }
    equal := r == 0;
  }

  /** ed25519_verify: 1 for the signatures that the predicate accepts, 0 for all others. */
  method Verify(signature: seq<byte>, message: seq<byte>, public_key: seq<byte>, Bi: seq<Precomp>, ghost q: Point) returns (r: int)
    requires |signature| == 64 && |public_key| == 32
    requires CurveLaw() && OnCurve(q) && |Bi| == 8 && OddPrecomp(Bi, q)
    ensures r == if Accepts(signature, message, public_key, q) then 1 else 0
  {
    hide CurveLaw, OnCurve, Times, IsP3, IsP2, OddPrecomp, LE, IsEncoding, IsDecoding, StreamDigest, Pow2, And, Opposite, Curve.Sum, YOf, Joined;
    var S := signature[32..];
    TopBits(S[31]);
    SmallTop(S);
    if And(signature[63], 224) != 0 {
      return 0;
    }
    LawPrime();
    var found, A, p := GeFromBytesNegateVartime(public_key);
    if found != 0 {
      NoDecoding(public_key);
      return 0;
    }
    DecodingOnCurve(public_key, p);
    NegOnCurve(p);
    var h := HashToScalar([signature[..32], public_key, message]);
    JoinedFew(signature[..32], public_key, message);
    ghost var k := Challenge(signature[..32], public_key, message);
    ReducedRange(LE(StreamDigest(signature[..32] + public_key + message)));
    BelowL(k);
    var R, _, _ := DoubleScalarMultVartime(h[..32], A, signature[32..], Bi, Opposite(p), q);
    ghost var c := Checked(signature, message, public_key, p, q);
    CheckedOnCurve(k, LE(S), p, q);
    var checker := new byte[32];
    GeToBytes(checker, R, c);
    assert checker[..32] == checker[..];
    var same := ConsttimeEqual(checker[..], signature[..32]);
    AcceptsExactly(signature, message, public_key, p, q, checker[..]);
    r := if same then 1 else 0;
  }

  lemma NoDecoding(pk: seq<byte>)
    requires forall x :: !OnCurve(Point(x, YOf(pk)))
    ensures forall p :: !IsDecoding(pk, p)
  {
    hide OnCurve, YOf;
    forall p
      ensures !IsDecoding(pk, p)
    {
      assert p == Point(p.x, p.y);
    }
  }

  lemma DecodingOnCurve(pk: seq<byte>, p: Point)
    requires IsDecoding(pk, p)
    ensures OnCurve(p)
  {
    hide OnCurve, YOf;
  }

  lemma CheckedOnCurve(k: nat, s: nat, p: Point, q: Point)
    requires CurveLaw() && OnCurve(p) && OnCurve(q)
    ensures OnCurve(Curve.Sum(Times(k, Opposite(p)), Times(s, q)))
  {
    hide *;
    NegOnCurve(p);
    TimesOnCurve(k, Opposite(p));
    TimesOnCurve(s, q);
    LawClosed(Times(k, Opposite(p)), Times(s, q));
  }

  /** Comparing bytes decides acceptance: decoding and encoding are both unique. */
  lemma AcceptsExactly(sig: seq<byte>, m: seq<byte>, pk: seq<byte>, p: Point, q: Point, checker: seq<byte>)
    requires CurveLaw() && |sig| == 64 && LE(sig[32..]) < Pow2(253) && IsDecoding(pk, p)
    requires IsEncoding(checker, Checked(sig, m, pk, p, q))
    ensures checker == sig[..32] <==> Accepts(sig, m, pk, q)
  {
    hide CurveLaw, IsEncoding, IsDecoding, Checked, LE, Pow2;
    LawPrime();
    if Accepts(sig, m, pk, q) {
      var p' :| IsDecoding(pk, p') && IsEncoding(sig[..32], Checked(sig, m, pk, p', q));
      DecodingUnique(pk, p, p');
      EncodingUnique(checker, sig[..32], Checked(sig, m, pk, p, q));
    }
  }

  // -------------------------------------------------------------------------
  // Verification accepts what signing makes
  // -------------------------------------------------------------------------

  lemma TimesL(k: nat, q: Point)
    requires CurveLaw() && OnCurve(q) && Times(L, q) == O
    ensures k * L >= 0 && Times(k * L, q) == O
  {
    hide CurveLaw, OnCurve, Times, Curve.Sum;
    TimesTimes(k, L, q);
    TimesOfZero(k);
  }

  lemma {:induction false} TimesOfZero(k: nat)
    requires CurveLaw()
    ensures Times(k, O) == O
  {
    hide *;
    ZeroOnCurve();
    if k == 0 {
      TimesStep(0, O);
    } else {
      TimesOfZero(k - 1);
      TimesStep(k - 1, O);
      SumZero(O);
    }
  }

  /** Scalars count modulo the order. */
  lemma TimesMod(n: nat, q: Point)
    requires CurveLaw() && OnCurve(q) && Times(L, q) == O
    ensures Times(n % L, q) == Times(n, q)
  {
    ReducedRange(n);
    hide *;
    Parts(n, L);
    var k, r := n / L, n % L;
    TimesL(k, q);
    TimesAdd(k * L, r, q);
    TimesOnCurve(r, q);
    SumZero(Times(r, q));
  }

  lemma Parts(n: nat, m: nat)
    requires m > 0
    ensures n == (n / m) * m + n % m && n / m >= 0 && (n / m) * m >= 0
  {
  }

  /** k (-(a q)) + (k a + r) q = r q. */
  lemma Cancelling(k: nat, a: nat, r: nat, s: nat, q: Point)
    requires CurveLaw() && OnCurve(q) && s == k * a + r
    ensures Curve.Sum(Times(k, Opposite(Times(a, q))), Times(s, q)) == Times(r, q)
  {
    hide *;
    MultipleDef(a, q);
    MultipleNeg(a, q);
    var b: int := 0 - a;
    MultipleTimes(k, b, q);
    assert k * b == -(k * a);
    MultipleDef(s, q);
    MultipleAdd(-(k * a), s, q);
    assert -(k * a) + s == r;
    MultipleDef(r, q);
  }

  /** For every key and message, the signature made with the derived public key is accepted. */
  lemma VerifyAcceptsSigned(sig: seq<byte>, m: seq<byte>, pk: seq<byte>, sk: seq<byte>, q: Point)
    requires CurveLaw() && OnCurve(q) && Times(L, q) == O
    requires |sk| == 64 && IsPublicKey(pk, sk, q) && IsSignature(sig, m, pk, sk, q)
    ensures Accepts(sig, m, pk, q)
  {
    hide CurveLaw, OnCurve, Times, LE, IsEncoding, IsDecoding, Pow2, Opposite, Curve.Sum, Challenge, Nonce;
    var a, r, k := LE(sk[..32]), Nonce(sk, m), Challenge(sig[..32], pk, m);
    MulMono(0, k, a);
    var p := Times(a, q);
    TimesOnCurve(a, q);
    EncodingDecodes(pk, p);
    ReducedRange(k * a + r);
    BelowL(LE(sig[32..]));
    var s: nat := k * a + r;
    TimesMod(s, q);
    Cancelling(k, a, r, s, q);
  }

  /** S counts only modulo the order. */
  lemma AcceptsModuloOrder(sig: seq<byte>, sig': seq<byte>, m: seq<byte>, pk: seq<byte>, q: Point)
    requires CurveLaw() && OnCurve(q) && Times(L, q) == O
    requires |sig| == |sig'| == 64 && sig[..32] == sig'[..32] && LE(sig[32..]) % L == LE(sig'[32..]) % L
    requires LE(sig[32..]) < Pow2(253) && LE(sig'[32..]) < Pow2(253)
    ensures Accepts(sig, m, pk, q) <==> Accepts(sig', m, pk, q)
  {
    hide CurveLaw, OnCurve, Times, LE, IsEncoding, IsDecoding, Pow2, Opposite, Curve.Sum, Challenge;
    TimesMod(LE(sig[32..]), q);
    TimesMod(LE(sig'[32..]), q);
    assert forall p :: Checked(sig, m, pk, p, q) == Checked(sig', m, pk, p, q);
  }

  /** Section 5.1.7 of RFC 8032, with the group equation without the cofactor. */
  ghost predicate StandardAccepts(sig: seq<byte>, m: seq<byte>, pk: seq<byte>, q: Point)
    requires |sig| == 64
  {
    var k := LE(Digest(sig[..32] + pk + m)) % L;
    && LE(sig[32..]) < L
    && exists p, r :: IsStandardDecoding(pk, p) && IsStandardDecoding(sig[..32], r)
                      && Times(LE(sig[32..]), q) == Curve.Sum(r, Times(k, p))
  }

  lemma StandardChallenge(R: seq<byte>, pk: seq<byte>, m: seq<byte>)
    requires 8 * (|R| + |pk| + |m|) < Pow2(64)
    ensures Challenge(R, pk, m) == LE(Digest(R + pk + m)) % L
  {
    hide Pow2, StreamDigest, Digest, LE;
    StreamDigestIsDigest(R + pk + m);
  }

  lemma OppositeTimes(k: nat, p: Point)
    requires CurveLaw() && OnCurve(p)
    ensures Times(k, Opposite(p)) == Opposite(Times(k, p))
  {
    hide *;
    TimesStep(0, p);
    SumComm(O, p);
    ZeroOnCurve();
    SumZero(p);
    MultipleDef(-1, p);
    MultipleTimes(k, -1, p);
    var n: int := 0 - k;
    assert k * -1 == n;
    MultipleDef(n, p);
    if k == 0 {
      NegZero();
    }
  }

  /** R = S B - k A is the equation S B = R + k A. */
  lemma SameEquation(k: nat, p: Point, r: Point, t: Point)
    requires CurveLaw() && OnCurve(p) && OnCurve(r) && OnCurve(t)
    ensures r == Curve.Sum(Times(k, Opposite(p)), t) <==> t == Curve.Sum(r, Times(k, p))
  {
    hide *;
    var a := Times(k, p);
    TimesOnCurve(k, p);
    OppositeTimes(k, p);
    NegOnCurve(a);
    var n := Opposite(a);
    SumNeg(a);
    SumComm(a, n);
    NegUnique(n, a);
    SumComm(n, t);
    SumCancel(t, n);
    SumCancel(r, a);
  }

  /** A solution of the equation makes the code accept. */
  lemma StandardIsAccepted(sig: seq<byte>, m: seq<byte>, pk: seq<byte>, p: Point, r: Point, q: Point)
    requires CurveLaw() && OnCurve(q) && |sig| == 64 && |pk| == 32 && LE(sig[32..]) < L
    requires IsStandardDecoding(pk, p) && IsStandardDecoding(sig[..32], r)
    requires Times(LE(sig[32..]), q) == Curve.Sum(r, Times(Challenge(sig[..32], pk, m), p))
    ensures Accepts(sig, m, pk, q)
  {
    hide CurveLaw, OnCurve, Times, LE, IsEncoding, IsDecoding, IsStandardDecoding, Pow2, Opposite, Curve.Sum, Challenge;
    DecodesMore(pk, p);
    DecodingOnCurve(pk, p);
    StandardIsEncoding(sig[..32], r);
    TimesOnCurve(LE(sig[32..]), q);
    SameEquation(Challenge(sig[..32], pk, m), p, r, Times(LE(sig[32..]), q));
    BelowL(LE(sig[32..]));
    assert r == Checked(sig, m, pk, p, q);
  }

  /** If the code accepts, the equation has a solution. */
  lemma AcceptedIsStandard(sig: seq<byte>, m: seq<byte>, pk: seq<byte>, p: Point, q: Point) returns (r: Point)
    requires CurveLaw() && OnCurve(q) && |sig| == 64 && |pk| == 32 && LE(sig[32..]) < L
    requires IsStandardDecoding(pk, p) && Accepts(sig, m, pk, q)
    ensures IsStandardDecoding(sig[..32], r)
    ensures Times(LE(sig[32..]), q) == Curve.Sum(r, Times(Challenge(sig[..32], pk, m), p))
  {
    hide CurveLaw, OnCurve, Times, LE, IsEncoding, IsDecoding, IsStandardDecoding, Pow2, Opposite, Curve.Sum, Challenge;
    LawPrime();
    DecodesMore(pk, p);
    DecodingOnCurve(pk, p);
    var p' :| IsDecoding(pk, p') && IsEncoding(sig[..32], Checked(sig, m, pk, p', q));
    DecodingUnique(pk, p, p');
    var k, t := Challenge(sig[..32], pk, m), Times(LE(sig[32..]), q);
    r := Checked(sig, m, pk, p, q);
    CheckedOnCurve(k, LE(sig[32..]), p, q);
    StandardIsEncoding(sig[..32], r);
    TimesOnCurve(LE(sig[32..]), q);
    SameEquation(k, p, r, t);
  }

  /** The standard accepts exactly what the code accepts with an S below l and a key that the standard decodes. */
  lemma StandardExactly(sig: seq<byte>, m: seq<byte>, pk: seq<byte>, q: Point)
    requires CurveLaw() && OnCurve(q) && |sig| == 64 && |pk| == 32 && 8 * (64 + |m|) < Pow2(64)
    ensures StandardAccepts(sig, m, pk, q) <==>
            Accepts(sig, m, pk, q) && LE(sig[32..]) < L && exists p :: IsStandardDecoding(pk, p)
  {
    StandardChallenge(sig[..32], pk, m);
    hide CurveLaw, OnCurve, Times, LE, Accepts, IsStandardDecoding, Curve.Sum, Challenge, Digest, Pow2;
    var k := Challenge(sig[..32], pk, m);
    if StandardAccepts(sig, m, pk, q) {
      var p, r :| IsStandardDecoding(pk, p) && IsStandardDecoding(sig[..32], r)
                  && Times(LE(sig[32..]), q) == Curve.Sum(r, Times(k, p));
      StandardIsAccepted(sig, m, pk, p, r, q);
    }
    if LE(sig[32..]) < L && Accepts(sig, m, pk, q) {
      forall p | IsStandardDecoding(pk, p)
        ensures StandardAccepts(sig, m, pk, q)
      {
        var r := AcceptedIsStandard(sig, m, pk, p, q);
      }
    }
  }

  /** Adding l to S leaves an accepted signature accepted by the code, as far as it stays below 2^253, and not by the standard. */
  lemma LargeScalarIsAccepted(sig: seq<byte>, sig': seq<byte>, m: seq<byte>, pk: seq<byte>, q: Point)
    requires CurveLaw() && OnCurve(q) && Times(L, q) == O
    requires |sig| == |sig'| == 64 && sig[..32] == sig'[..32] && LE(sig'[32..]) == LE(sig[32..]) + L < Pow2(253)
    requires Accepts(sig, m, pk, q)
    ensures Accepts(sig', m, pk, q) && !StandardAccepts(sig', m, pk, q)
  {
    hide CurveLaw, OnCurve, Times, LE, Accepts, Pow2, Curve.Sum;
    SameResidue(LE(sig[32..]), L);
    AcceptsModuloOrder(sig, sig', m, pk, q);
  }

  lemma SameResidue(n: nat, m: nat)
    requires m > 0
    ensures (n + m) % m == n % m
  {
    assert n + m == (n / m + 1) * m + n % m;
    DivModUnique(n + m, m, n / m + 1, n % m);
  }

  /** One such signature: the neutral point as key and as R, and S = l. */
  lemma OrderIsAccepted(sig: seq<byte>, m: seq<byte>, pk: seq<byte>, q: Point)
    requires CurveLaw() && OnCurve(q) && Times(L, q) == O
    requires |sig| == 64 && IsEncoding(pk, O) && IsEncoding(sig[..32], O) && LE(sig[32..]) == L
    ensures Accepts(sig, m, pk, q) && !StandardAccepts(sig, m, pk, q)
  {
    hide CurveLaw, OnCurve, Times, LE, IsEncoding, IsDecoding, Pow2, Curve.Sum, Challenge;
    ZeroOnCurve();
    EncodingDecodes(pk, O);
    NegZero();
    TimesOfZero(Challenge(sig[..32], pk, m));
    SumZero(O);
    OrderFits();
    assert Checked(sig, m, pk, O, q) == O;
  }

  lemma OrderFits()
    ensures L < Pow2(253)
  {
    Pow2Large();
  }

  /** A signature below 2^253 is accepted exactly when the one with S reduced is. */
  lemma AcceptsReduced(sig: seq<byte>, sig': seq<byte>, m: seq<byte>, pk: seq<byte>, q: Point)
    requires CurveLaw() && OnCurve(q) && Times(L, q) == O
    requires |sig| == |sig'| == 64 && |pk| == 32 && sig[..32] == sig'[..32]
    requires LE(sig'[32..]) == LE(sig[32..]) % L && LE(sig[32..]) < Pow2(253)
    ensures Accepts(sig, m, pk, q) <==> Accepts(sig', m, pk, q)
    ensures 8 * (64 + |m|) < Pow2(64) ==>
              (StandardAccepts(sig', m, pk, q) <==> Accepts(sig, m, pk, q) && exists p :: IsStandardDecoding(pk, p))
  {
    hide CurveLaw, OnCurve, Times, LE, Accepts, StandardAccepts, IsStandardDecoding, Pow2, Curve.Sum;
    ReducedRange(LE(sig[32..]));
    BelowL(LE(sig'[32..]));
    ModMod(LE(sig[32..]), L, 1);
    AcceptsModuloOrder(sig, sig', m, pk, q);
    if 8 * (64 + |m|) < Pow2(64) {
      StandardExactly(sig', m, pk, q);
    }
  }

  // -------------------------------------------------------------------------
  // Key pairs and signatures of the standard
  // -------------------------------------------------------------------------

  /** Section 5.1.5 of RFC 8032: the scalar of a seed, the first half of its hash with bits 0, 1, 2 and 255 cleared and bit 254 set. */
  ghost function StandardScalar(seed: seq<byte>): nat {
    var n := LE(Digest(seed)[..32]);
    Pow2Small();
    Pow2Add(251, 3);
    Pow2(254) + n % Pow2(254) - n % 8
  }

  ghost predicate StandardPublicKey(pk: seq<byte>, seed: seq<byte>, q: Point) {
    IsEncoding(pk, Times(StandardScalar(seed), q))
  }

  /** Section 5.1.6 of RFC 8032. */
  ghost predicate StandardSignature(sig: seq<byte>, m: seq<byte>, pk: seq<byte>, seed: seq<byte>, q: Point) {
    |sig| == 64
    && var r, k := LE(Digest(Digest(seed)[32..] + m)) % L, LE(Digest(sig[..32] + pk + m)) % L;
       IsEncoding(sig[..32], Times(r, q)) && LE(sig[32..]) == (r + k * StandardScalar(seed)) % L
  }

  /** The scalar of a private key made from a seed is that of the standard, and so is its second half. */
  lemma ScalarOfSeed(sk: seq<byte>, seed: seq<byte>)
    requires |seed| == 32 && IsPrivateKey(sk, seed)
    ensures LE(sk[..32]) == StandardScalar(seed) && sk[32..] == Digest(seed)[32..]
  {
    SmallMessage();
    hide LE, Pow2, StreamDigest, Digest, ClearLow, SetTop, StandardScalar;
    StreamDigestIsDigest(seed);
    var d := Digest(seed);
    ClampedHalves(d, sk, ClearLow(d[0]), SetTop(d[31]));
    ClampValue(d[..32]);
    StandardScalarDef(seed);
  }

  lemma SmallMessage()
    ensures 8 * 32 < Pow2(64)
  {
    Pow2Small();
    Pow2Add(9, 55);
  }

  lemma StandardScalarDef(seed: seq<byte>)
    ensures StandardScalar(seed) == Pow2(254) + LE(Digest(seed)[..32]) % Pow2(254) - LE(Digest(seed)[..32]) % 8
  {
    hide LE, Pow2, Digest;
  }

  lemma ClampedHalves(d: seq<byte>, sk: seq<byte>, x: byte, y: byte)
    requires |d| == 64 && sk == d[0 := x][31 := y]
    ensures sk[..32] == d[..32][0 := x][31 := y] && sk[32..] == d[32..] && d[..32][0] == d[0] && d[..32][31] == d[31]
  {
  }

  /** Public keys are those of the standard. */
  lemma KeysAreStandard(pk: seq<byte>, sk: seq<byte>, seed: seq<byte>, q: Point)
    requires |seed| == 32 && IsPrivateKey(sk, seed)
    ensures IsPublicKey(pk, sk, q) <==> StandardPublicKey(pk, seed, q)
  {
    ScalarOfSeed(sk, seed);
    hide LE, IsEncoding, Times, StandardScalar, IsPrivateKey;
  }

  /** So are signatures, of messages that SHA-512 is defined for. */
  lemma SignaturesAreStandard(sig: seq<byte>, m: seq<byte>, pk: seq<byte>, sk: seq<byte>, seed: seq<byte>, q: Point)
    requires |seed| == |pk| == 32 && IsPrivateKey(sk, seed) && 8 * (64 + |m|) < Pow2(64)
    ensures IsSignature(sig, m, pk, sk, q) <==> StandardSignature(sig, m, pk, seed, q)
  {
    SmallMessage();
    ScalarOfSeed(sk, seed);
    StandardNonce(sk, seed, m);
    hide *;
    if |sig| == 64 {
      StandardChallenge(sig[..32], pk, m);
    }
    SignatureDef(sig, m, pk, sk, q);
    StandardSignatureDef(sig, m, pk, seed, q);
  }

  ghost function Response(k: nat, a: nat, r: nat): int {
    (r + k * a) % L
  }

  lemma SignatureDef(sig: seq<byte>, m: seq<byte>, pk: seq<byte>, sk: seq<byte>, q: Point)
    requires |sk| == 64
    ensures IsSignature(sig, m, pk, sk, q) <==>
            |sig| == 64 && IsEncoding(sig[..32], Times(Nonce(sk, m), q))
            && LE(sig[32..]) == Response(Challenge(sig[..32], pk, m), LE(sk[..32]), Nonce(sk, m))
  {
    hide LE, IsEncoding, Times, Challenge, Nonce, StreamDigest;
    if |sig| == 64 {
      ResponseForm(Challenge(sig[..32], pk, m), LE(sk[..32]), Nonce(sk, m));
    }
    hide Response;
  }

  lemma ResponseForm(k: nat, a: nat, r: nat)
    ensures (k * a + r) % L == Response(k, a, r)
  {
    assert k * a + r == r + k * a;
  }

  lemma StandardSignatureDef(sig: seq<byte>, m: seq<byte>, pk: seq<byte>, seed: seq<byte>, q: Point)
    ensures StandardSignature(sig, m, pk, seed, q) <==>
            |sig| == 64 && IsEncoding(sig[..32], Times(LE(Digest(Digest(seed)[32..] + m)) % L, q))
            && LE(sig[32..]) == Response(LE(Digest(sig[..32] + pk + m)) % L, StandardScalar(seed), LE(Digest(Digest(seed)[32..] + m)) % L)
  {
    hide LE, IsEncoding, Times, StandardScalar, Digest;
  }

  lemma StandardNonce(sk: seq<byte>, seed: seq<byte>, m: seq<byte>)
    requires |sk| == 64 && sk[32..] == Digest(seed)[32..] && 8 * (32 + |m|) < Pow2(64)
    ensures Nonce(sk, m) == LE(Digest(Digest(seed)[32..] + m)) % L
  {
    hide LE, Pow2, StreamDigest, Digest;
    StreamDigestIsDigest(sk[32..] + m);
  }

  /** A key pair from a seed, and a signature with it: keys and signature are those of the standard. */
  method SignFromSeed(public_key: array<byte>, private_key: array<byte>, signature: array<byte>, seed: seq<byte>, message: seq<byte>,
                      base: seq<seq<Precomp>>, ghost q: Point)
    requires public_key.Length == 32 && private_key.Length == 64 && signature.Length == 64 && |seed| == 32
    requires public_key != private_key && signature != private_key && signature != public_key && 8 * (64 + |message|) < Pow2(64)
    requires CurveLaw() && OnCurve(q) && IsBaseTable(base, q)
    modifies public_key, private_key, signature
    ensures StandardPublicKey(public_key[..], seed, q)
    ensures StandardSignature(signature[..], message, public_key[..], seed, q)
  {
    hide *;
    CreateKeypair(public_key, private_key, seed, base, q);
    ghost var sk := private_key[..];
    KeysAreStandard(public_key[..], sk, seed, q);
    Sign(signature, message, public_key[..], private_key[..], base, q);
    SignaturesAreStandard(signature[..], message, public_key[..], sk, seed, q);
  }
}

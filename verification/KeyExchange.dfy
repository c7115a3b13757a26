/** The X25519 exchange on Edwards keys: ed25519_key_exchange of key_exchange.c. */
module KeyExchange {
  import opened Arith
  import opened Bits
  import opened Fe
  import opened FeOps
  import opened FePow
  import opened Prime
  import opened Curve
  import opened PointCodec
  import opened Montgomery
  import opened Ed25519
  import opened Sha512
  import FeBytes
  import Ge

  /** The private key with bits 0, 1, 2 and 255 cleared and bit 254 set. */
  function Clamped(key: seq<byte>): (e: seq<byte>)
    requires |key| >= 32
    ensures |e| == 32
  {
    key[..32][0 := ClearLow(key[0])][31 := SetTop(key[31])]
  }

  /** The u of a y coordinate. */
  ghost function UOf(y: int): int {
    MontgomeryU(Point(0, y))
  }

  lemma UOfDef(y: int)
    ensures UOf(y) == ((1 + y) * Inv(1 - y)) % P
  {
    hide Inv;
  }

  // -------------------------------------------------------------------------
  // The base u
  // -------------------------------------------------------------------------

  /** u = (1 + y)/(1 - y), by an inversion. */
  method UnpackU(public_key: seq<byte>) returns (x1: Fe)
    requires |public_key| == 32
    ensures Bounded(x1, TIGHT) && Cong(Val(x1), UOf(YOf(public_key)), P)
  {
    PointCodec.Limits();
    YOfDef(public_key);
    hide *;
    x1 := FeBytes.FromBytes(public_key);
    ghost var n, y := LE(public_key) % Pow2(255), YOf(public_key);
    CongMod(n, P);
    CongTrans(Val(x1), n, y, P);
    ghost var v := Val(x1);
    var tmp1 := One();
    var tmp0 := FeAdd(x1, tmp1, NARROW, 1);
    tmp1 := FeSub(tmp1, x1, 1, NARROW);
    ghost var d := Val(tmp1);
    Widen(tmp1, 1 + NARROW, WIDE);
    ghost var diff := tmp1;
    tmp1 := Invert(tmp1);
    InverseIsPower(tmp1, diff);
    x1 := FeMul(tmp0, tmp1, NARROW + 1, TIGHT);
    CongRefl(1, P);
    CongAdd(1, 1, v, y, P);
    PowCong(d, 1 - y, P - 2, P);
    CongTrans(Val(tmp1), Pow(d, P - 2), Pow(1 - y, P - 2), P);
    CongMod(Pow(1 - y, P - 2), P);
    InvDef(1 - y);
    CongTrans(Val(tmp1), Pow(1 - y, P - 2), Inv(1 - y), P);
    CongMul(Val(tmp0), 1 + y, Val(tmp1), Inv(1 - y), P);
    CongMod((1 + y) * Inv(1 - y), P);
    UOfDef(y);
    CongTrans(Val(x1), Val(tmp0) * Val(tmp1), (1 + y) * Inv(1 - y), P);
    CongTrans(Val(x1), (1 + y) * Inv(1 - y), UOf(y), P);
  }

  lemma InverseIsPower(t: Fe, z: Fe)
    requires IsPow(t, z, 0x7fffffffffffffffffffffffffffffffffffffffffffffffffffffffffffffeb)
    ensures P >= 2 && Cong(Val(t), Pow(Val(z), P - 2), P)
  {
    hide Val, Pow, Bounded;
    InverseExponent();
  }

  lemma InvDef(a: int)
    ensures P >= 2 && Inv(a) == Pow(a, P - 2) % P
  {
    hide Pow;
  }

  // -------------------------------------------------------------------------
  // One step
  // -------------------------------------------------------------------------

  ghost predicate Tight4(x2: Fe, z2: Fe, x3: Fe, z3: Fe) {
    Bounded(x2, TIGHT) && Bounded(z2, TIGHT) && Bounded(x3, TIGHT) && Bounded(z3, TIGHT)
  }

  /** The four elements are the four residues of a rung. */
  ghost predicate Holds(x2: Fe, z2: Fe, x3: Fe, z3: Fe, r: Rung) {
    && Tight4(x2, z2, x3, z3)
    && Cong(Val(x2), r.x2, P) && Cong(Val(z2), r.z2, P) && Cong(Val(x3), r.x3, P) && Cong(Val(z3), r.z3, P)
  }

  lemma HoldsDef(x2: Fe, z2: Fe, x3: Fe, z3: Fe, r: Rung)
    ensures Holds(x2, z2, x3, z3, r) <==>
            && Tight4(x2, z2, x3, z3)
            && Cong(Val(x2), r.x2, P) && Cong(Val(z2), r.z2, P) && Cong(Val(x3), r.x3, P) && Cong(Val(z3), r.z3, P)
  {
    hide Cong, Val, Bounded;
  }

  /** BB + 121666 E = AA + 121665 E: the step of the code is the step of section 5 of RFC 7748. */
  lemma SameConstant(AA: int, BB: int)
    ensures BB + 121666 * (AA - BB) == AA + 121665 * (AA - BB)
  {
  }

  /** The products of the x2 and z2 half. */
  lemma FirstHalf(A: int, a: int, B: int, b: int, AA: int, BB: int, f: int, x: int, z: int)
    requires Cong(A, a, P) && Cong(B, b, P) && Cong(AA, A * A, P) && Cong(BB, B * B, P)
    requires Cong(x, AA * BB, P) && Cong(f, 121666 * (AA - BB), P) && Cong(z, (AA - BB) * (BB + f), P)
    ensures Cong(x, (a * a) * (b * b), P)
    ensures Cong(z, (a * a - b * b) * (a * a + 121665 * (a * a - b * b)), P)
  {
    Curve.PPositive();
    hide *;
    var p, q := a * a, b * b;
    CongMul(A, a, A, a, P);
    CongTrans(AA, A * A, p, P);
    CongMul(B, b, B, b, P);
    CongTrans(BB, B * B, q, P);
    CongMul(AA, p, BB, q, P);
    CongTrans(x, AA * BB, p * q, P);
    CongAdd(AA, p, BB, q, P);
    CongScale(AA - BB, p - q, 121666, P);
    CongTrans(f, 121666 * (AA - BB), 121666 * (p - q), P);
    CongAdd(BB, q, f, 121666 * (p - q), P);
    SameConstant(p, q);
    CongMul(AA - BB, p - q, BB + f, q + 121666 * (p - q), P);
    CongTrans(z, (AA - BB) * (BB + f), (p - q) * (p + 121665 * (p - q)), P);
  }

  /** The products of the x3 and z3 half. */
  lemma SecondHalf(DA: int, e: int, CB: int, c: int, x: int, s: int, z: int, u1: int, u: int)
    requires Cong(DA, e, P) && Cong(CB, c, P) && Cong(u1, u, P)
    requires Cong(x, (DA + CB) * (DA + CB), P) && Cong(s, (DA - CB) * (DA - CB), P) && Cong(z, u1 * s, P)
    ensures Cong(x, (e + c) * (e + c), P) && Cong(z, u * ((e - c) * (e - c)), P)
  {
    Curve.PPositive();
    hide *;
    CongAdd(DA, e, CB, c, P);
    CongMul(DA + CB, e + c, DA + CB, e + c, P);
    CongTrans(x, (DA + CB) * (DA + CB), (e + c) * (e + c), P);
    CongMul(DA - CB, e - c, DA - CB, e - c, P);
    CongTrans(s, (DA - CB) * (DA - CB), (e - c) * (e - c), P);
    CongMul(u1, u, s, (e - c) * (e - c), P);
    CongTrans(z, u1 * s, u * ((e - c) * (e - c)), P);
  }

  lemma CrossProduct(r: int, D: int, e: int, A: int, a: int)
    requires Cong(D, e, P) && Cong(A, a, P) && Cong(r, D * A, P)
    ensures Cong(r, e * a, P)
  {
    Curve.PPositive();
    hide *;
    CongMul(D, e, A, a, P);
    CongTrans(r, D * A, e * a, P);
  }

  /** The body of the ladder's loop after the swap. */
  method LadderStepLimbs(x1: Fe, x20: Fe, z20: Fe, x30: Fe, z30: Fe, ghost r: Rung, ghost u: int)
    returns (x2: Fe, z2: Fe, x3: Fe, z3: Fe)
    requires Bounded(x1, TIGHT) && Cong(Val(x1), u, P) && Holds(x20, z20, x30, z30, r)
    ensures Holds(x2, z2, x3, z3, Step(r, u))
  {
    PointCodec.Limits();
    Tight4Def(x20, z20, x30, z30);
    hide *;
    HoldsDef(x20, z20, x30, z30, r);
    x2, z2, x3, z3 := x20, z20, x30, z30;
    CongAdd(Val(x3), r.x3, Val(z3), r.z3, P);
    CongAdd(Val(x2), r.x2, Val(z2), r.z2, P);
    var tmp0 := FeSub(x3, z3, TIGHT, TIGHT);
    var tmp1 := FeSub(x2, z2, TIGHT, TIGHT);
    x2 := FeAdd(x2, z2, TIGHT, TIGHT);
    z2 := FeAdd(x3, z3, TIGHT, TIGHT);
    ghost var A, B := Val(x2), Val(tmp1);
    z3 := FeMul(tmp0, x2, 2 * TIGHT, 2 * TIGHT);
    CrossProduct(Val(z3), Val(tmp0), r.x3 - r.z3, A, r.x2 + r.z2);
    var cb := FeMul(z2, tmp1, 2 * TIGHT, 2 * TIGHT);
    CrossProduct(Val(cb), Val(z2), r.x3 + r.z3, B, r.x2 - r.z2);
    z2 := cb;
    tmp0 := FeSq(tmp1, 2 * TIGHT);
    tmp1 := FeSq(x2, 2 * TIGHT);
    ghost var AA, BB, DA, CB := Val(tmp1), Val(tmp0), Val(z3), Val(z2);
    x3 := FeAdd(z3, z2, TIGHT, TIGHT);
    z2 := FeSub(z3, z2, TIGHT, TIGHT);
    x2 := FeMul(tmp1, tmp0, TIGHT, TIGHT);
    tmp1 := FeSub(tmp1, tmp0, TIGHT, TIGHT);
    z2 := FeSq(z2, 2 * TIGHT);
    z3 := FeMul121666(tmp1, 2 * TIGHT);
    ghost var f := Val(z3);
    x3 := FeSq(x3, 2 * TIGHT);
    tmp0 := FeAdd(tmp0, z3, TIGHT, NARROW);
    ghost var s := Val(z2);
    z3 := FeMul(x1, z2, TIGHT, TIGHT);
    z2 := FeMul(tmp1, tmp0, 2 * TIGHT, TIGHT + NARROW);
    StepDef(r, u);
    FirstHalf(A, r.x2 + r.z2, B, r.x2 - r.z2, AA, BB, f, Val(x2), Val(z2));
    SecondHalf(DA, (r.x3 - r.z3) * (r.x2 + r.z2), CB, (r.x3 + r.z3) * (r.x2 - r.z2), Val(x3), s, Val(z3), Val(x1), u);
    Tight4Def(x2, z2, x3, z3);
    HoldsDef(x2, z2, x3, z3, Step(r, u));
  }

  lemma Tight4Def(x2: Fe, z2: Fe, x3: Fe, z3: Fe)
    ensures Tight4(x2, z2, x3, z3) <==> Bounded(x2, TIGHT) && Bounded(z2, TIGHT) && Bounded(x3, TIGHT) && Bounded(z3, TIGHT)
  {
    hide Bounded;
  }

  lemma TightAddable(f: Fe)
    requires Bounded(f, TIGHT)
    ensures Addable(f)
  {
  }

  /** fe_cswap on both coordinates. */
  method SwapRungs(x20: Fe, z20: Fe, x30: Fe, z30: Fe, b: nat, ghost r: Rung) returns (x2: Fe, z2: Fe, x3: Fe, z3: Fe)
    requires b <= 1 && Holds(x20, z20, x30, z30, r)
    ensures Holds(x2, z2, x3, z3, Swap(r, b))
  {
    hide *;
    HoldsDef(x20, z20, x30, z30, r);
    Tight4Def(x20, z20, x30, z30);
    TightAddable(x20);
    TightAddable(z20);
    TightAddable(x30);
    TightAddable(z30);
    var xs := CSwap(x20, x30, b);
    var zs := CSwap(z20, z30, b);
    x2, x3 := xs.0, xs.1;
    z2, z3 := zs.0, zs.1;
    SwapBoth(r, b);
    Tight4Def(x2, z2, x3, z3);
    HoldsDef(x2, z2, x3, z3, Swap(r, b));
  }

  lemma SwapBoth(r: Rung, b: int)
    ensures Swap(r, b) == if b == 1 then Rung(r.x3, r.z3, r.x2, r.z2) else r
  {
  }

  /** A pending swap a and the next bit b: swapping by a ^ b leaves the rung swapped by b. */
  lemma DeferredSwap(r: Rung, a: int, b: int)
    requires 0 <= a <= 1 && 0 <= b <= 1
    ensures Swap(Swap(r, a), if a == b then 0 else 1) == Swap(r, b)
    ensures Swap(Swap(r, b), b) == r && Swap(r, 0) == r
  {
  }

  function XorBit(a: nat, b: nat): (c: nat)
    requires a <= 1 && b <= 1
    ensures c == if a == b then 0 else 1
  {
    Xor(a, b)
  }

  /** The bit of the key at a position. */
  function KeyBit(e: seq<byte>, pos: nat): (b: nat)
    requires |e| == 32 && pos < 256
    ensures b == BitOf(LE(e), pos) && b <= 1
  {
    hide LE, Pow2, Shr, And;
    BitAtValue(e, pos);
    And(Shr(e[pos / 8], And(pos, 7)), 1)
  }

  lemma BitAtValue(e: seq<byte>, pos: nat)
    requires |e| == 32 && pos < 256
    ensures And(pos, 7) == pos % 8 && Shr(e[pos / 8], pos % 8) >= 0
    ensures And(Shr(e[pos / 8], pos % 8), 1) == BitOf(LE(e), pos) <= 1
  {
    hide LE, And;
    Pow2Small();
    hide Pow2;
    MaskIsMod(pos, 3);
    BitValue(e, pos);
  }

  // -------------------------------------------------------------------------
  // The exchange
  // -------------------------------------------------------------------------

  lemma LadderUnfold(k: nat, u: int, t: nat)
    ensures t < 255 ==> Ladder(k, u, t) == Swap(Step(Swap(Ladder(k, u, t + 1), BitOf(k, t)), u), BitOf(k, t))
    ensures Ladder(k, u, 255) == Rung(1, 0, u, 1)
  {
    hide Step, BitOf, Swap;
  }

  /** The loop: 255 steps with the swap deferred to the next one. */
  method RunLadder(e: seq<byte>, x1: Fe, ghost u: int) returns (x2: Fe, z2: Fe)
    requires |e| == 32 && Bounded(x1, TIGHT) && Cong(Val(x1), u, P)
    ensures Bounded(x2, TIGHT) && Bounded(z2, TIGHT)
    ensures Cong(Val(x2), Ladder(LE(e), u, 0).x2, P) && Cong(Val(z2), Ladder(LE(e), u, 0).z2, P)
  {
    PointCodec.Limits();
    hide *;
    ghost var k := LE(e);
    LadderUnfold(k, u, 255);
    x2, z2 := One(), Zero();
    var x3, z3 := x1, One();
    CongRefl(1, P);
    CongRefl(0, P);
    Tight4Def(x2, z2, x3, z3);
    HoldsDef(x2, z2, x3, z3, Ladder(k, u, 255));
    DeferredSwap(Ladder(k, u, 255), 0, 0);
    var swap := 0;
    var pos := 254;
    while pos >= 0
      invariant -1 <= pos <= 254 && 0 <= swap <= 1
      invariant Holds(x2, z2, x3, z3, Swap(Ladder(k, u, pos + 1), swap))
    {
      ghost var r := Ladder(k, u, pos + 1);
      var b := KeyBit(e, pos);
      DeferredSwap(r, swap, b);
      ghost var pending := Swap(r, swap);
      swap := XorBit(swap, b);
      x2, z2, x3, z3 := SwapRungs(x2, z2, x3, z3, swap, pending);
      swap := b;
      x2, z2, x3, z3 := LadderStepLimbs(x1, x2, z2, x3, z3, Swap(r, b), u);
      LadderUnfold(k, u, pos);
      DeferredSwap(Step(Swap(r, b), u), b, b);
      pos := pos - 1;
    }
    ghost var r := Ladder(k, u, 0);
    x2, z2, x3, z3 := SwapRungs(x2, z2, x3, z3, swap, Swap(r, swap));
    DeferredSwap(r, swap, swap);
    HoldsDef(x2, z2, x3, z3, r);
    Tight4Def(x2, z2, x3, z3);
  }

  /** ed25519_key_exchange is X25519 of section 5 of RFC 7748 on the clamped key and the u of the public key's y. */
  method KeyExchange(shared_secret: array<byte>, public_key: seq<byte>, private_key: seq<byte>)
    requires shared_secret.Length >= 32 && |public_key| == 32 && |private_key| >= 32
    modifies shared_secret
    ensures LE(shared_secret[..32]) == X25519(LE(Clamped(private_key)), UOf(YOf(public_key)))
    ensures shared_secret[32..] == old(shared_secret[32..])
  {
    PointCodec.Limits();
    hide *;
    var e := private_key[..32];
    e := e[0 := ClearLow(e[0])];
    e := e[31 := SetTop(e[31])];
    ClampedDef(private_key, e);
    ghost var u := UOf(YOf(public_key));
    var x1 := UnpackU(public_key);
    var x2, z2 := RunLadder(e, x1, u);
    ghost var k, z := LE(e), Val(z2);
    Widen(z2, TIGHT, WIDE);
    ghost var den := z2;
    z2 := Invert(z2);
    InverseIsPower(z2, den);
    ghost var x := Val(x2);
    x2 := FeMul(x2, z2, TIGHT, TIGHT);
    Widen(x2, TIGHT, LOOSE);
    Divided(k, u, x, z, Val(z2), Val(x2));
    var s := FeBytes.ToBytes(x2);
    ghost var rest := shared_secret[32..];
    for i := 0 to 32
      invariant shared_secret[..i] == s[..i] && shared_secret[32..] == rest
    {
      shared_secret[i] := s[i];
    }
    assert shared_secret[..32] == s;
  }

  lemma ClampedDef(key: seq<byte>, e: seq<byte>)
    requires |key| >= 32 && e == key[..32][0 := ClearLow(key[..32][0])][31 := SetTop(key[..32][0 := ClearLow(key[..32][0])][31])]
    ensures e == Clamped(key)
  {
    hide ClearLow, SetTop;
  }

  lemma Divided(k: nat, u: int, x: int, z: int, i: int, r: int)
    requires Cong(x, Ladder(k, u, 0).x2, P) && Cong(z, Ladder(k, u, 0).z2, P)
    requires Cong(i, Pow(z, P - 2), P) && Cong(r, x * i, P)
    ensures r % P == X25519(k, u)
  {
    Curve.PPositive();
    hide *;
    var X, Z := Ladder(k, u, 0).x2, Ladder(k, u, 0).z2;
    InvDef(Z);
    PowCong(z, Z, P - 2, P);
    CongTrans(i, Pow(z, P - 2), Pow(Z, P - 2), P);
    CongMod(Pow(Z, P - 2), P);
    CongTrans(i, Pow(Z, P - 2), Inv(Z), P);
    CongMul(x, X, i, Inv(Z), P);
    CongTrans(r, x * i, X * Inv(Z), P);
    CongSameMod(r, X * Inv(Z), P);
    X25519Def(k, u);
  }

  // -------------------------------------------------------------------------
  // What the two sides share
  // -------------------------------------------------------------------------

  /** A clamped key is a multiple of 8 from 2^254 up and below 2^255. */
  lemma ClampedRange(key: seq<byte>)
    requires |key| >= 32
    ensures Pow2(254) <= LE(Clamped(key)) < Pow2(255) && LE(Clamped(key)) % 8 == 0
    ensures LE(Clamped(key)) == Pow2(254) + LE(key[..32]) % Pow2(254) - LE(key[..32]) % 8
  {
    ClampValue(key[..32]);
    ClampedBytes(key);
    var e := Clamped(key);
    TopByteSplit(e);
    LowThreeBits(e);
    hide LE, Pow2, Clamped, ClearLow, SetTop;
    Pow2Small();
    Pow2Add(248, 6);
    Pow2Add(248, 7);
    MulMono(64, e[31], Pow2(248));
    MulMono(e[31], 127, Pow2(248));
  }

  lemma ClampedBytes(key: seq<byte>)
    requires |key| >= 32
    ensures Clamped(key)[0] % 8 == 0 && 64 <= Clamped(key)[31] < 128
  {
    hide And, Or;
    MultipleOfEight(key[0]);
  }

  lemma MultipleOfEight(x: nat)
    ensures (x - x % 8) % 8 == 0
  {
  }

  /** For a public key that carries the y of a point of the curve, the secret is the u of the clamped multiple of that point. */
  lemma SecretMeaning(pk: seq<byte>, key: seq<byte>, b: Point)
    requires CurveLaw() && OnCurve(b) && |key| >= 32 && YOf(pk) == b.y
    ensures X25519(LE(Clamped(key)), UOf(YOf(pk))) == MontgomeryU(Times(LE(Clamped(key)), b))
  {
    ClampedRange(key);
    hide *;
    X25519Multiplies(LE(Clamped(key)), b);
    SameU(b);
  }

  lemma SameU(b: Point)
    ensures UOf(b.y) == MontgomeryU(b)
  {
    hide Inv;
  }

  /** Two clamped keys and their public keys give both sides the same secret. */
  lemma ExchangeAgrees(pk1: seq<byte>, sk1: seq<byte>, pk2: seq<byte>, sk2: seq<byte>, q: Point)
    requires CurveLaw() && OnCurve(q) && |sk1| == |sk2| == 64
    requires Clamped(sk1) == sk1[..32] && Clamped(sk2) == sk2[..32]
    requires IsPublicKey(pk1, sk1, q) && IsPublicKey(pk2, sk2, q)
    ensures X25519(LE(Clamped(sk1)), UOf(YOf(pk2))) == X25519(LE(Clamped(sk2)), UOf(YOf(pk1)))
  {
    PublicKeyDef(pk1, sk1, q);
    PublicKeyDef(pk2, sk2, q);
    hide *;
    var a, b := LE(Clamped(sk1)), LE(Clamped(sk2));
    TimesOnCurve(a, q);
    TimesOnCurve(b, q);
    EncodedY(pk1, Times(a, q));
    EncodedY(pk2, Times(b, q));
    SecretMeaning(pk2, sk1, Times(b, q));
    SecretMeaning(pk1, sk2, Times(a, q));
    TimesTimes(a, b, q);
    TimesTimes(b, a, q);
    assert a * b == b * a;
  }

  lemma PublicKeyDef(pk: seq<byte>, sk: seq<byte>, q: Point)
    requires |sk| == 64
    ensures IsPublicKey(pk, sk, q) <==> IsEncoding(pk, Times(LE(sk[..32]), q))
  {
    hide IsEncoding, LE, Times;
  }

  lemma EncodedY(s: seq<byte>, p: Point)
    requires OnCurve(p) && IsEncoding(s, p)
    ensures YOf(s) == p.y
  {
    hide OnCurve, LE, Pow2, IsEncoding, YOf;
    EncodingDecodes(s, p);
  }

  /** Keys made by ed25519_create_keypair are clamped. */
  lemma CreatedKeysAreClamped(sk: seq<byte>, seed: seq<byte>)
    requires IsPrivateKey(sk, seed)
    ensures Clamped(sk) == sk[..32]
  {
    hide StreamDigest, ClearLow, SetTop;
    var d := StreamDigest(seed);
    ClampTwice(d[0], d[31]);
    assert sk[0] == ClearLow(d[0]) && sk[31] == SetTop(d[31]);
    assert Clamped(sk) == sk[..32];
  }

  lemma ClampTwice(x: byte, y: byte)
    ensures ClearLow(ClearLow(x)) == ClearLow(x) && SetTop(SetTop(y)) == SetTop(y)
  {
    hide And, Or;
  }
}

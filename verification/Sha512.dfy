/** Streaming SHA-512: sha512.c. */
module Sha512 {
  import opened Arith
  import opened Bits
  import opened Buffers
  import opened Sha512Spec

  // -------------------------------------------------------------------------
  // The word functions
  // -------------------------------------------------------------------------

  lemma AndParts(a: nat, b: nat)
    ensures And(a, b) / 2 == And(a / 2, b / 2) && And(a, b) % 2 == if a % 2 == 1 && b % 2 == 1 then 1 else 0
  {
  }

  lemma OrParts(a: nat, b: nat)
    ensures Or(a, b) / 2 == Or(a / 2, b / 2) && Or(a, b) % 2 == if a % 2 == 1 || b % 2 == 1 then 1 else 0
  {
  }

  lemma XorParts(a: nat, b: nat)
    ensures Xor(a, b) / 2 == Xor(a / 2, b / 2) && Xor(a, b) % 2 == if a % 2 != b % 2 then 1 else 0
  {
  }

  lemma HalvesEqual(a: nat, b: nat)
    requires a / 2 == b / 2 && a % 2 == b % 2
    ensures a == b
  {
  }

  /** The choice with one And less than the standard's; n is the complement of x. */
  lemma {:induction false} ChoiceForms(x: nat, y: nat, z: nat, n: nat, k: nat)
    requires x < Pow2(k) && y < Pow2(k) && z < Pow2(k) && n == Pow2(k) - 1 - x
    ensures Xor(z, And(x, Xor(y, z))) == Xor(And(x, y), And(n, z))
  {
    hide And, Xor, Pow2;
    if k == 0 {
      ChoiceOfZeros(x, y, z, n);
    } else {
      Halve(x, y, z, n, k);
      ChoiceForms(x / 2, y / 2, z / 2, n / 2, k - 1);
      XorParts(y, z);
      AndParts(x, Xor(y, z));
      XorParts(z, And(x, Xor(y, z)));
      AndParts(x, y);
      AndParts(n, z);
      XorParts(And(x, y), And(n, z));
      HalvesEqual(Xor(z, And(x, Xor(y, z))), Xor(And(x, y), And(n, z)));
    }
  }

  lemma ChoiceOfZeros(x: nat, y: nat, z: nat, n: nat)
    requires x < Pow2(0) && y < Pow2(0) && z < Pow2(0) && n == Pow2(0) - 1 - x
    ensures Xor(z, And(x, Xor(y, z))) == Xor(And(x, y), And(n, z))
  {
  }

  lemma Halve(x: nat, y: nat, z: nat, n: nat, k: nat)
    requires k > 0 && x < Pow2(k) && y < Pow2(k) && z < Pow2(k) && n == Pow2(k) - 1 - x
    ensures x / 2 < Pow2(k - 1) && y / 2 < Pow2(k - 1) && z / 2 < Pow2(k - 1)
    ensures n / 2 == Pow2(k - 1) - 1 - x / 2 && n % 2 == 1 - x % 2
  {
  }

  /** The majority with one And less than the standard's. */
  lemma {:induction false} MajorityForms(x: nat, y: nat, z: nat)
    ensures Or(And(Or(x, y), z), And(x, y)) == Xor(Xor(And(x, y), And(x, z)), And(y, z))
    decreases x + y + z
  {
    if x + y + z > 0 {
      MajorityForms(x / 2, y / 2, z / 2);
      hide And, Or, Xor;
      OrParts(x, y);
      AndParts(Or(x, y), z);
      AndParts(x, y);
      OrParts(And(Or(x, y), z), And(x, y));
      AndParts(x, z);
      AndParts(y, z);
      XorParts(And(x, y), And(x, z));
      XorParts(Xor(And(x, y), And(x, z)), And(y, z));
      HalvesEqual(Or(And(Or(x, y), z), And(x, y)), Xor(Xor(And(x, y), And(x, z)), And(y, z)));
    }
  }

  lemma WordBound()
    ensures Pow2(64) == 0x1_0000_0000_0000_0000
  {
    Pow2Words();
    Pow2Add(63, 1);
    Pow2Small();
  }

  /** Ch, with one operation less than the standard's form. */
  function Choice(x: word, y: word, z: word): (r: nat)
    ensures r == Ch(x, y, z)
  {
    WordBound();
    hide And, Xor, Pow2;
    ChoiceForms(x, y, z, Not(x), 64);
    Xor(z, And(x, Xor(y, z)))
  }

  /** Maj, with one operation less than the standard's form. */
  function Majority(x: word, y: word, z: word): (r: nat)
    ensures r == Maj(x, y, z)
  {
    hide And, Or, Xor;
    MajorityForms(x, y, z);
    Or(And(Or(x, y), z), And(x, y))
  }

  const MASK: nat := 0xffff_ffff_ffff_ffff

  /** ROR64c. */
  function Ror(x: word, y: nat): (r: nat)
    requires 0 < y < 64
    ensures r == Rotr(x, y)
  {
    RorValue(x, y);
    And(Or(Shr(And(x, MASK), And(y, 63)), Shl(x, 64 - y) % 0x1_0000_0000_0000_0000), MASK)
  }

  lemma RorValue(x: word, y: nat)
    requires 0 < y < 64
    ensures And(y, 63) == y && Shr(And(x, MASK), And(y, 63)) >= 0 && Shl(x, 64 - y) % 0x1_0000_0000_0000_0000 >= 0
    ensures And(Or(Shr(And(x, MASK), And(y, 63)), Shl(x, 64 - y) % 0x1_0000_0000_0000_0000), MASK) == Rotr(x, y)
  {
    WordBound();
    Pow2Small();
    MaskValue();
    hide *;
    MaskIsMod(y, 6);
    MaskIsMod(x, 64);
    Pow2Add(y, 64 - y);
    var q, r := x / Pow2(y), x % Pow2(y);
    Rotation(x, Pow2(y), Pow2(64 - y));
    ShiftDefs(x, y);
    ShiftDefs(r, y);
    OrIsSum(q, r, 64 - y);
    var n := q + r * Pow2(64 - y);
    MaskIsMod(n, 64);
    SmallMod(n, Pow2(64));
    SmallMod(x, Pow2(64));
    SmallMod(y, 64);
  }

  lemma MaskValue()
    ensures MASK == 0xffff_ffff_ffff_ffff
  {
  }

  lemma SmallMod(n: nat, m: nat)
    requires n < m
    ensures n % m == n
  {
  }

  lemma ShiftDefs(x: nat, y: nat)
    requires y <= 64
    ensures Shr(x, y) == x / Pow2(y) && Shl(x, 64 - y) == x * Pow2(64 - y)
    ensures Rotr(x, y) == x / Pow2(y) + (x % Pow2(y)) * Pow2(64 - y)
  {
    hide Pow2;
  }

  /** The parts of a rotated word do not overlap. */
  lemma Rotation(x: nat, lo: int, hi: int)
    requires lo >= 1 && hi >= 1 && x < lo * hi
    ensures (x * hi) % (lo * hi) == (x % lo) * hi && 0 <= x / lo < hi && 0 <= (x % lo) * hi
    ensures x / lo + (x % lo) * hi < lo * hi
  {
    var q, r := x / lo, x % lo;
    assert x == q * lo + r;
    if q >= hi {
      MulMono(hi, q, lo);
    }
    MulMono(r, lo - 1, hi);
    assert (lo - 1) * hi == lo * hi - hi;
    MulMono(0, r, hi);
    assert (q * lo + r) * hi == q * (lo * hi) + r * hi;
    DivModUnique(x * hi, lo * hi, q, r * hi);
  }

  function Sigma0(x: word): (r: nat)
    ensures r == BigSigma0(x)
  {
    hide Xor, Rotr;
    Xor(Xor(Ror(x, 28), Ror(x, 34)), Ror(x, 39))
  }

  function Sigma1(x: word): (r: nat)
    ensures r == BigSigma1(x)
  {
    hide Xor, Rotr;
    Xor(Xor(Ror(x, 14), Ror(x, 18)), Ror(x, 41))
  }

  /** R: the plain shift. */
  function ShiftRight(x: word, n: nat): (r: nat)
    ensures r == x / Pow2(n)
  {
    WordBound();
    hide And, Pow2;
    MaskIsMod(x, 64);
    Shr(And(x, MASK), n)
  }

  function Gamma0(x: word): (r: nat)
    ensures r == SmallSigma0(x)
  {
    hide Xor, Rotr, Pow2;
    Xor(Xor(Ror(x, 1), Ror(x, 8)), ShiftRight(x, 7))
  }

  function Gamma1(x: word): (r: nat)
    ensures r == SmallSigma1(x)
  {
    hide Xor, Rotr, Pow2;
    Xor(Xor(Ror(x, 19), Ror(x, 61)), ShiftRight(x, 6))
  }

  // -------------------------------------------------------------------------
  // Bytes and words
  // -------------------------------------------------------------------------

  /** One more byte below the ones loaded so far. */
  lemma OrByte(n: nat, y: nat, j: nat)
    requires y < 256
    ensures Shl(n, j + 8) >= 0 && Shl(y, j) >= 0 && Or(Shl(n, j + 8), Shl(y, j)) == Shl(256 * n + y, j)
  {
    Pow2Small();
    hide Or, Pow2;
    Pow2Add(j, 8);
    MulMono(y, 255, Pow2(j));
    MulMono(0, y, Pow2(j));
    OrIsSum(Shl(y, j), n, j + 8);
    OrComm(Shl(y, j), Shl(n, j + 8));
    assert n * (Pow2(j) * 256) + y * Pow2(j) == (256 * n + y) * Pow2(j);
  }

  lemma BEAppend(b: seq<byte>, y: byte)
    ensures BE(b + [y]) == 256 * BE(b) + y
  {
    assert (b + [y])[..|b|] == b;
  }

  function Low8(y: byte): (r: nat)
    ensures r == y
  {
    Pow2Small();
    hide And;
    MaskIsMod(y, 8);
    And(y, 255)
  }

  /** The eight bytes so far, most significant first. */
  ghost function Prefix(b: seq<byte>, p: nat, k: nat): nat
    requires p + k <= |b|
  {
    BE(b[p..p + k])
  }

  lemma PrefixStep(b: seq<byte>, p: nat, k: nat)
    requires p + k < |b|
    ensures Prefix(b, p, 0) == 0 && Prefix(b, p, k + 1) == 256 * Prefix(b, p, k) + b[p + k]
  {
    hide BE;
    BEEmpty();
    assert b[p..p + 0] == [];
    BEAppend(b[p..p + k], b[p + k]);
    assert b[p..p + k + 1] == b[p..p + k] + [b[p + k]];
  }

  lemma BEEmpty()
    ensures BE([]) == 0
  {
  }

  /** LOAD64H. */
  function Load(b: seq<byte>, p: nat): (w: word)
    requires p + 8 <= |b|
    ensures w == BE(b[p..p + 8])
  {
    hide Or, Shl, Low8, BE;
    LoadHigh(b, p);
    LoadLow(b, p);
    Or(Or(Or(Or(Or(Or(Or(Shl(Low8(b[p]), 56), Shl(Low8(b[p + 1]), 48)), Shl(Low8(b[p + 2]), 40)), Shl(Low8(b[p + 3]), 32)),
                Shl(Low8(b[p + 4]), 24)), Shl(Low8(b[p + 5]), 16)), Shl(Low8(b[p + 6]), 8)), Low8(b[p + 7]))
  }

  lemma LoadHigh(b: seq<byte>, p: nat)
    requires p + 8 <= |b|
    ensures Shl(b[p], 56) >= 0 && Shl(b[p + 1], 48) >= 0 && Shl(b[p + 2], 40) >= 0 && Shl(b[p + 3], 32) >= 0
    ensures Shl(Prefix(b, p, 4), 32) >= 0
    ensures Or(Or(Or(Shl(b[p], 56), Shl(b[p + 1], 48)), Shl(b[p + 2], 40)), Shl(b[p + 3], 32)) == Shl(Prefix(b, p, 4), 32)
  {
    hide Or, Shl, Prefix;
    PrefixStep(b, p, 0);
    PrefixStep(b, p, 1);
    PrefixStep(b, p, 2);
    PrefixStep(b, p, 3);
    OrByte(Prefix(b, p, 1), b[p + 1], 48);
    OrByte(Prefix(b, p, 2), b[p + 2], 40);
    OrByte(Prefix(b, p, 3), b[p + 3], 32);
    OrByte(Prefix(b, p, 4), 0, 24);
  }

  lemma LoadLow(b: seq<byte>, p: nat)
    requires p + 8 <= |b|
    ensures Shl(b[p + 4], 24) >= 0 && Shl(b[p + 5], 16) >= 0 && Shl(b[p + 6], 8) >= 0
    ensures Shl(Prefix(b, p, 4), 32) >= 0
    ensures Or(Or(Or(Or(Shl(Prefix(b, p, 4), 32), Shl(b[p + 4], 24)), Shl(b[p + 5], 16)), Shl(b[p + 6], 8)), b[p + 7]) == BE(b[p..p + 8])
    ensures BE(b[p..p + 8]) < 0x1_0000_0000_0000_0000
  {
    hide Or, Shl, Prefix, BE, Pow2;
    PrefixStep(b, p, 4);
    PrefixStep(b, p, 5);
    PrefixStep(b, p, 6);
    PrefixStep(b, p, 7);
    OrByte(Prefix(b, p, 4), b[p + 4], 24);
    OrByte(Prefix(b, p, 5), b[p + 5], 16);
    OrByte(Prefix(b, p, 6), b[p + 6], 8);
    OrByte(Prefix(b, p, 7), b[p + 7], 0);
    ShlZero(b[p + 7]);
    ShlZero(Prefix(b, p, 8));
    PrefixDef(b, p, 8);
    BEBound(b[p..p + 8]);
    WordBound();
  }

  lemma ShlZero(n: nat)
    ensures Shl(n, 0) == n
  {
  }

  lemma PrefixDef(b: seq<byte>, p: nat, k: nat)
    requires p + k <= |b|
    ensures Prefix(b, p, k) == BE(b[p..p + k])
  {
    hide BE;
  }

  /** STORE64H: byte k of the eight. */
  function StoredByte(x: word, k: nat): (y: byte)
    requires k < 8
    ensures y == BEBytes(x, 8)[k]
  {
    hide And, Pow2, BEBytes;
    Pow2Small();
    MaskIsMod(Shr(x, 56 - 8 * k), 8);
    BEDigit(x, 8, k);
    And(Shr(x, 56 - 8 * k), 255)
  }

  lemma {:induction false} BEDigit(n: nat, k: nat, i: nat)
    requires i < k
    ensures BEBytes(n, k)[i] == (n / Pow2(8 * (k - 1 - i))) % 256
  {
    if i < k - 1 {
      BEDigit(n / 256, k - 1, i);
      Pow2Small();
      hide Pow2;
      var j := k - 2 - i;
      Pow2Add(8, 8 * j);
      DivDiv(n, 256, Pow2(8 * j));
    }
  }

  // -------------------------------------------------------------------------
  // The context
  // -------------------------------------------------------------------------

  /** Eight words as the working variables, the first at position r. */
  ghost function View(s: seq<word>, r: nat): Words
    requires |s| == 8 && r < 8
  {
    Words(s[r], s[(r + 1) % 8], s[(r + 2) % 8], s[(r + 3) % 8], s[(r + 4) % 8], s[(r + 5) % 8], s[(r + 6) % 8], s[(r + 7) % 8])
  }

  /** The macro RND: one round, with the roles of the words rotated instead of the words. */
  method Rnd(S: array<word>, a: nat, b: nat, c: nat, d: nat, e: nat, f: nat, g: nat, h: nat, k: word, w: word)
    requires S.Length == 8 && a < 8
    requires b == (a + 1) % 8 && c == (a + 2) % 8 && d == (a + 3) % 8 && e == (a + 4) % 8
    requires f == (a + 5) % 8 && g == (a + 6) % 8 && h == (a + 7) % 8
    modifies S
    ensures View(S[..], h) == Round(old(View(S[..], a)), k, w)
  {
    hide *;
    ghost var s := S[..];
    var t0 := Plus(Plus(Plus(Plus(S[h], Sigma1(S[e])), Choice(S[e], S[f], S[g])), k), w);
    var t1 := Plus(Sigma0(S[a]), Majority(S[a], S[b], S[c]));
    S[d] := Plus(S[d], t0);
    S[h] := Plus(t0, t1);
    RotatedRound(s, S[..], a, b, c, d, e, f, g, h, k, w, t0, t1);
  }

  lemma RotatedRound(s: seq<word>, t: seq<word>, a: nat, b: nat, c: nat, d: nat, e: nat, f: nat, g: nat, h: nat,
                     k: word, w: word, t0: word, t1: word)
    requires |s| == |t| == 8 && a < 8
    requires b == (a + 1) % 8 && c == (a + 2) % 8 && d == (a + 3) % 8 && e == (a + 4) % 8
    requires f == (a + 5) % 8 && g == (a + 6) % 8 && h == (a + 7) % 8
    requires t0 == Plus(Plus(Plus(Plus(s[h], BigSigma1(s[e])), Ch(s[e], s[f], s[g])), k), w)
    requires t1 == Plus(BigSigma0(s[a]), Maj(s[a], s[b], s[c]))
    requires t == s[d := Plus(s[d], t0)][h := Plus(t0, t1)]
    ensures View(t, h) == Round(View(s, a), k, w)
  {
    hide BigSigma0, BigSigma1, Ch, Maj, Plus;
    Positions(a, h);
    assert View(s, a) == Words(s[a], s[b], s[c], s[d], s[e], s[f], s[g], s[h]);
    assert View(t, h) == Words(t[h], t[a], t[b], t[c], t[d], t[e], t[f], t[g]);
  }

  lemma Positions(a: nat, h: nat)
    requires a < 8 && h == (a + 7) % 8
    ensures (h + 1) % 8 == a && (h + 2) % 8 == (a + 1) % 8 && (h + 3) % 8 == (a + 2) % 8 && (h + 4) % 8 == (a + 3) % 8
    ensures (h + 5) % 8 == (a + 4) % 8 && (h + 6) % 8 == (a + 5) % 8 && (h + 7) % 8 == (a + 6) % 8
    ensures (a + 3) % 8 !in {a, (a + 1) % 8, (a + 2) % 8, (a + 4) % 8, (a + 5) % 8, (a + 6) % 8, h}
    ensures h !in {a, (a + 1) % 8, (a + 2) % 8, (a + 4) % 8, (a + 5) % 8, (a + 6) % 8}
  {
    if a < 4 {
      if a < 2 {
        assert a == 0 || a == 1;
      } else {
        assert a == 2 || a == 3;
      }
    } else {
      if a < 6 {
        assert a == 4 || a == 5;
      } else {
        assert a == 6 || a == 7;
      }
    }
  }

  lemma InitialValue(s: seq<word>)
    requires |s| == 8
    requires s[0] == 0x6a09e667f3bcc908 && s[1] == 0xbb67ae8584caa73b && s[2] == 0x3c6ef372fe94f82b
    requires s[3] == 0xa54ff53a5f1d36f1 && s[4] == 0x510e527fade682d1 && s[5] == 0x9b05688c2b3e6c1f
    requires s[6] == 0x1f83d9abfb41bd6b && s[7] == 0x5be0cd19137e2179
    ensures View(s, 0) == Chain([])
  {
    hide K, Compressed;
  }

  /** The first t words of W hold the message schedule. */
  ghost predicate Scheduled(w: seq<word>, block: seq<byte>, t: nat)
    requires |block| == 128
  {
    t <= |w| && forall j :: 0 <= j < t ==> w[j] == W(block, j)
  }

  lemma ScheduleLoad(block: seq<byte>, t: nat)
    requires |block| == 128 && t < 16
    ensures W(block, t) == BE(block[8 * t..8 * t + 8])
  {
    hide BE, Pow2;
    BEBound(block[8 * t..8 * t + 8]);
    WordBound();
  }

  lemma ScheduleStep(block: seq<byte>, t: nat)
    requires |block| == 128 && t >= 16
    ensures W(block, t) == Plus(Plus(Plus(SmallSigma1(W(block, t - 2)), W(block, t - 7)), SmallSigma0(W(block, t - 15))), W(block, t - 16))
  {
    hide Plus, SmallSigma0, SmallSigma1;
  }

  lemma RoundsStep(n: nat, x: Words, block: seq<byte>)
    requires |block| == 128 && n < 80
    ensures Rounds(0, x, block) == x && |K| == 80
    ensures Rounds(n + 1, x, block) == Round(Rounds(n, x, block), K[n], W(block, n))
  {
    KLength();
    hide Round, W, K;
  }

  /** Eight unrolled rounds, from round i. */
  method EightRounds(S: array<word>, w: array<word>, i: nat, ghost x: Words, ghost block: seq<byte>)
    requires S.Length == 8 && w.Length == 80 && S != w && i + 8 <= 80 && |block| == 128
    requires Scheduled(w[..], block, 80) && View(S[..], 0) == Rounds(i, x, block)
    modifies S
    ensures View(S[..], 0) == Rounds(i + 8, x, block)
  {
    hide *;
    RoundsStep(i, x, block);
    ScheduledAt(w[..], block, i);
    Rnd(S, 0, 1, 2, 3, 4, 5, 6, 7, K[i + 0], w[i + 0]);
    RoundsStep(i + 1, x, block);
    Rnd(S, 7, 0, 1, 2, 3, 4, 5, 6, K[i + 1], w[i + 1]);
    RoundsStep(i + 2, x, block);
    Rnd(S, 6, 7, 0, 1, 2, 3, 4, 5, K[i + 2], w[i + 2]);
    RoundsStep(i + 3, x, block);
    Rnd(S, 5, 6, 7, 0, 1, 2, 3, 4, K[i + 3], w[i + 3]);
    RoundsStep(i + 4, x, block);
    Rnd(S, 4, 5, 6, 7, 0, 1, 2, 3, K[i + 4], w[i + 4]);
    RoundsStep(i + 5, x, block);
    Rnd(S, 3, 4, 5, 6, 7, 0, 1, 2, K[i + 5], w[i + 5]);
    RoundsStep(i + 6, x, block);
    Rnd(S, 2, 3, 4, 5, 6, 7, 0, 1, K[i + 6], w[i + 6]);
    RoundsStep(i + 7, x, block);
    Rnd(S, 1, 2, 3, 4, 5, 6, 7, 0, K[i + 7], w[i + 7]);
  }

  lemma ScheduledAt(w: seq<word>, block: seq<byte>, i: nat)
    requires |block| == 128 && |w| == 80 && Scheduled(w, block, 80) && i + 8 <= 80
    ensures forall j :: i <= j < i + 8 ==> w[j] == W(block, j)
  {
    hide W;
  }

  /** The initial hash value. */
  method SetInitial(state: array<word>)
    requires state.Length == 8
    modifies state
    ensures View(state[..], 0) == Chain([])
  {
    hide *;
    state[0] := 0x6a09e667f3bcc908;
    state[1] := 0xbb67ae8584caa73b;
    state[2] := 0x3c6ef372fe94f82b;
    state[3] := 0xa54ff53a5f1d36f1;
    state[4] := 0x510e527fade682d1;
    state[5] := 0x9b05688c2b3e6c1f;
    state[6] := 0x1f83d9abfb41bd6b;
    state[7] := 0x5be0cd19137e2179;
    InitialValue(state[..]);
  }

  /** The schedule: sixteen words loaded, the others computed. */
  method Expand(w: array<word>, block: seq<byte>)
    requires w.Length == 80 && |block| == 128
    modifies w
    ensures Scheduled(w[..], block, 80)
  {
    hide K, W, BE, Plus, SmallSigma0, SmallSigma1;
    for i := 0 to 16
      invariant Scheduled(w[..], block, i)
    {
      ScheduleLoad(block, i);
      w[i] := Load(block, 8 * i);
    }
    for i := 16 to 80
      invariant Scheduled(w[..], block, i)
    {
      ScheduleStep(block, i);
      w[i] := Plus(Plus(Plus(Gamma1(w[i - 2]), w[i - 7]), Gamma0(w[i - 15])), w[i - 16]);
    }
  }

  /** The feedback: the working variables are added to the state. */
  method Feedback(state: array<word>, S: array<word>)
    requires state.Length == 8 && S.Length == 8 && S != state
    modifies state
    ensures View(state[..], 0) == Sha512Spec.Sum(old(View(state[..], 0)), View(S[..], 0))
  {
    hide K, Plus;
    ghost var s := state[..];
    for i := 0 to 8
      invariant forall j :: 0 <= j < i ==> state[j] == Plus(s[j], S[j])
      invariant state[i..] == s[i..] && S[..] == old(S[..])
    {
      state[i] := Plus(state[i], S[i]);
    }
  }

  method CopyState(S: array<word>, state: array<word>)
    requires state.Length == 8 && S.Length == 8 && S != state
    modifies S
    ensures S[..] == state[..]
  {
    hide *;
    for i := 0 to 8
      invariant S[..i] == state[..i] && state[..] == old(state[..])
    {
      S[i] := state[i];
    }
  }

  /** sha512_compress. */
  method Compress(state: array<word>, block: seq<byte>)
    requires state.Length == 8 && |block| == 128
    modifies state
    ensures View(state[..], 0) == Compressed(old(View(state[..], 0)), block)
  {
    hide *;
    var S := new word[8];
    CopyState(S, state);
    ghost var x := View(state[..], 0);
    var w := new word[80];
    Expand(w, block);
    RoundsStep(0, x, block);
    var i := 0;
    while i < 80
      invariant 0 <= i <= 80 && i % 8 == 0
      invariant View(S[..], 0) == Rounds(i, x, block) && Scheduled(w[..], block, 80) && state[..] == old(state[..])
    {
      EightRounds(S, w, i, x, block);
      i := i + 8;
    }
    Feedback(state, S);
    CompressedDef(x, block);
  }

  lemma CompressedDef(x: Words, block: seq<byte>)
    requires |block| == 128
    ensures Compressed(x, block) == Sha512Spec.Sum(x, Rounds(80, x, block))
  {
    hide Rounds, Sha512Spec.Sum;
  }

  // -------------------------------------------------------------------------
  // What the context knows about the bytes it was given
  // -------------------------------------------------------------------------

  /** All of the stream but the pending bytes at its end is compressed into chain, and length counts its bits. */
  ghost predicate Fed(stream: seq<byte>, pending: seq<byte>, chain: Words, length: int) {
    && |stream| >= |pending| && (|stream| - |pending|) % 128 == 0
    && pending == stream[|stream| - |pending|..]
    && chain == Chain(stream[..|stream| - |pending|])
    && length == (8 * (|stream| - |pending|)) % 0x1_0000_0000_0000_0000
  }

  lemma FedNothing(chain: Words)
    requires chain == Chain([])
    ensures Fed([], [], chain, 0)
  {
    hide Chain;
  }

  lemma FedMore(stream: seq<byte>, pending: seq<byte>, chain: Words, length: int, chunk: seq<byte>)
    requires Fed(stream, pending, chain, length)
    ensures Fed(stream + chunk, pending + chunk, chain, length)
  {
    hide Chain;
    var n := |stream| - |pending|;
    assert (stream + chunk)[..n] == stream[..n];
    assert (stream + chunk)[n..] == stream[n..] + chunk;
  }

  lemma FedBlock(stream: seq<byte>, pending: seq<byte>, chain: Words, length: int)
    requires Fed(stream, pending, chain, length) && |pending| == 128
    ensures Fed(stream, [], Compressed(chain, pending), Plus(length, 1024))
  {
    hide Compressed, Plus;
    assert stream[..|stream|] == stream;
    BlockBits(|stream|);
  }

  lemma BlockBits(n: nat)
    requires n >= 128
    ensures Plus((8 * (n - 128)) % 0x1_0000_0000_0000_0000, 1024) == (8 * n) % 0x1_0000_0000_0000_0000
    ensures (n - 128) % 128 == n % 128
  {
    ModAdd(8 * (n - 128), 1024, 0x1_0000_0000_0000_0000);
    ModAdd(n - 128, 128, 128);
  }

  /** A sum and the sum with one side reduced have the same residue. */
  lemma ModAdd(a: nat, b: nat, m: nat)
    requires m > 0
    ensures (a % m + b) % m == (a + b) % m
  {
    var q, s := a / m, (a % m + b) / m;
    assert a + b == q * m + (s * m + (a % m + b) % m);
    assert (q + s) * m == q * m + s * m;
    DivModUnique(a + b, m, q + s, (a % m + b) % m);
  }

  lemma FedLength(stream: seq<byte>, pending: seq<byte>, chain: Words, length: int)
    requires Fed(stream, pending, chain, length)
    ensures (|stream| - |pending|) % 128 == 0
    ensures Plus(length, 8 * |pending|) == (8 * |stream|) % 0x1_0000_0000_0000_0000
  {
    hide Chain;
    ModAdd(8 * (|stream| - |pending|), 8 * |pending|, 0x1_0000_0000_0000_0000);
  }

  lemma FedChain(stream: seq<byte>, chain: Words, length: int)
    requires Fed(stream, [], chain, length)
    ensures |stream| % 128 == 0 && chain == Chain(stream)
  {
    hide Chain;
    assert stream[..|stream|] == stream;
  }

  // -------------------------------------------------------------------------
  // The padding
  // -------------------------------------------------------------------------

  /** The length field that sha512_final writes: the top 64 bits are zero whatever the length. */
  ghost function LengthField(m: seq<byte>): (f: seq<byte>)
    ensures |f| == 16
  {
    Zeros(8) + BEBytes((8 * |m|) % 0x1_0000_0000_0000_0000, 8)
  }

  /** What the streaming functions compute. */
  ghost function StreamDigest(m: seq<byte>): (s: seq<byte>)
    ensures |s| == 64
  {
    Output(Chain(Padded(m, LengthField(m))))
  }

  lemma {:induction false} BESplit(n: nat, q: nat, r: nat, j: nat, k: nat)
    requires n == q * Pow2(8 * k) + r && r < Pow2(8 * k)
    ensures BEBytes(n, j + k) == BEBytes(q, j) + BEBytes(r, k)
  {
    if k == 0 {
      assert Pow2(0) == 1;
    } else {
      var w := Pow2(8 * (k - 1));
      Pow2Small();
      Pow2Add(8, 8 * (k - 1));
      hide Pow2;
      assert n == 256 * (q * w) + r;
      assert n / 256 == q * w + r / 256 && n % 256 == r % 256;
      BESplit(n / 256, q, r / 256, j, k - 1);
    }
  }

  lemma {:induction false} BEOfBytes(n: nat, k: nat)
    requires n < Pow2(8 * k)
    ensures BE(BEBytes(n, k)) == n
  {
    if k > 0 {
      Pow2Small();
      Pow2Add(8, 8 * (k - 1));
      BEOfBytes(n / 256, k - 1);
      var b := BEBytes(n, k);
      assert b[..k - 1] == BEBytes(n / 256, k - 1);
    }
  }

  /**
   * Section 5.1.2 of FIPS 180-4: a one bit, zeros and the length in bits as sixteen bytes, up to the next whole number of
   * blocks of 128 bytes.
   */
  lemma PadIsStandard(m: seq<byte>)
    requires 8 * |m| < Pow2(128)
    ensures var p := Pad(m);
            && |p| % 128 == 0 && |m| + 17 <= |p| < |m| + 17 + 128 && p[..|m|] == m && p[|m|] == 0x80
            && (forall i :: |m| < i < |p| - 16 ==> p[i] == 0) && BE(p[|p| - 16..]) == 8 * |m|
  {
    hide BE, BEBytes, Pow2;
    var field, zeros := BEBytes(8 * |m|, 16), Zeros((111 - |m|) % 128);
    var p := Pad(m);
    assert p == m + [0x80] + zeros + field;
    assert p[|p| - 16..] == field;
    BEOfBytes(8 * |m|, 16);
    ZerosAreZero((111 - |m|) % 128);
    forall i | |m| < i < |p| - 16
      ensures p[i] == 0
    {
      assert p[i] == zeros[i - |m| - 1];
    }
  }

  lemma ZerosAreZero(n: nat)
    ensures forall k :: 0 <= k < n ==> Zeros(n)[k] == 0
  {
  }

  lemma {:induction false} BEOfZero(k: nat)
    ensures BEBytes(0, k) == Zeros(k)
  {
    if k > 0 {
      BEOfZero(k - 1);
    }
  }

  /** Below the standard's limit, its length field is the one written exactly when the message has less than 2^64 bits. */
  lemma LengthFieldExact(m: seq<byte>)
    requires 8 * |m| < Pow2(128)
    ensures LengthField(m) == BEBytes(8 * |m|, 16) <==> 8 * |m| < Pow2(64)
  {
    WordBound();
    Pow2Add(64, 64);
    var n, w := 8 * |m|, Pow2(64);
    hide *;
    assert 8 * 8 == 64 && 8 + 8 == 16 && n == (n / w) * w + n % w;
    BESplit(n, n / w, n % w, 8, 8);
    QuotientSmall(n, w);
    LengthFieldDef(m);
    SameField(n / w, BEBytes(n % w, 8));
  }

  /** Eight bytes of q before the low ones read as zeros exactly when q is zero. */
  lemma SameField(q: nat, low: seq<byte>)
    requires q < Pow2(64)
    ensures Zeros(8) + low == BEBytes(q, 8) + low <==> q == 0
  {
    hide BEBytes, Pow2, BE;
    var top := BEBytes(q, 8);
    assert (top + low)[..8] == top && (Zeros(8) + low)[..8] == Zeros(8);
    BEOfZero(8);
    BEOfBytes(q, 8);
    BEOfBytes(0, 8);
  }

  lemma LengthFieldDef(m: seq<byte>)
    ensures LengthField(m) == Zeros(8) + BEBytes((8 * |m|) % Pow2(64), 8)
  {
    WordBound();
    hide BEBytes, Pow2;
  }

  lemma QuotientSmall(n: nat, w: int)
    requires w > 0 && n < w * w
    ensures 0 <= n / w < w && (n / w == 0 <==> n < w)
  {
    if n / w >= w {
      MulMono(w, n / w, w);
    }
  }

  /** The streaming digest is the standard's for every message below 2^64 bits. */
  lemma StreamDigestIsDigest(m: seq<byte>)
    requires 8 * |m| < Pow2(64)
    ensures StreamDigest(m) == Digest(m)
  {
    hide Pow2, BEBytes, Chain, Output, Padded, LengthField;
    Pow2Add(64, 64);
    MulMono(1, Pow2(64), Pow2(64));
    LengthFieldExact(m);
  }

  /** STORE64H. */
  method StoreWord(b: array<byte>, at: nat, x: word)
    requires at + 8 <= b.Length
    modifies b
    ensures b[..at + 8] == old(b[..at]) + BEBytes(x, 8) && b[at + 8..] == old(b[at + 8..])
  {
    hide BEBytes;
    for k := 0 to 8
      invariant b[..at + k] == old(b[..at]) + BEBytes(x, 8)[..k] && b[at + 8..] == old(b[at + 8..])
    {
      b[at + k] := StoredByte(x, k);
    }
  }

  /** The first i words, byte for byte. */
  ghost function Emitted(s: seq<word>, i: nat): (e: seq<byte>)
    requires i <= |s|
    ensures |e| == 8 * i
  {
    if i == 0 then [] else Emitted(s, i - 1) + BEBytes(s[i - 1], 8)
  }

  lemma EmittedStep(s: seq<word>, i: nat)
    requires i < |s|
    ensures Emitted(s, 0) == [] && Emitted(s, i + 1) == Emitted(s, i) + BEBytes(s[i], 8)
  {
    hide BEBytes;
  }

  lemma EmittedIsOutput(s: seq<word>)
    requires |s| == 8
    ensures Emitted(s, 8) == Output(View(s, 0))
  {
    hide *;
    ViewDef(s);
    OutputDef(View(s, 0));
    assert [] + BEBytes(s[0], 8) == BEBytes(s[0], 8);
    EmittedStep(s, 0);
    EmittedStep(s, 1);
    EmittedStep(s, 2);
    EmittedStep(s, 3);
    EmittedStep(s, 4);
    EmittedStep(s, 5);
    EmittedStep(s, 6);
    EmittedStep(s, 7);
  }

  lemma ViewDef(s: seq<word>)
    requires |s| == 8
    ensures View(s, 0) == Words(s[0], s[1], s[2], s[3], s[4], s[5], s[6], s[7])
  {
  }

  lemma OutputDef(x: Words)
    ensures Output(x) == BEBytes(x.a, 8) + BEBytes(x.b, 8) + BEBytes(x.c, 8) + BEBytes(x.d, 8)
                         + BEBytes(x.e, 8) + BEBytes(x.f, 8) + BEBytes(x.g, 8) + BEBytes(x.h, 8)
  {
    hide BEBytes;
  }

  /** One or two runs of zeros make up the padding. */
  lemma PaddedForm(m: seq<byte>, c: nat, z1: nat, z2: nat, bits: word)
    requires c < 128 && (|m| - c) % 128 == 0 && bits == (8 * |m|) % 0x1_0000_0000_0000_0000
    requires if c + 1 > 112 then z1 == 127 - c && z2 == 120 else z1 == 0 && z2 == 119 - c
    ensures m + [0x80] + Zeros(z1) + Zeros(z2) + BEBytes(bits, 8) == Padded(m, LengthField(m))
  {
    hide BEBytes;
    var k := (111 - |m|) % 128;
    assert z1 + z2 == k + 8;
    assert Zeros(z1) + Zeros(z2) == Zeros(k) + Zeros(8);
    var e := m + [0x80];
    assert e + Zeros(z1) + Zeros(z2) == e + (Zeros(z1) + Zeros(z2));
    assert e + Zeros(k) + (Zeros(8) + BEBytes(bits, 8)) == e + (Zeros(k) + Zeros(8)) + BEBytes(bits, 8);
  }

  class Context {
    var length: word
    const state: array<word>
    var curlen: nat
    const buf: array<byte>

    /** Every byte given since the context was initialised. */
    ghost var stream: seq<byte>

    ghost predicate Shape() {
      state.Length == 8 && buf.Length == 128
    }

    ghost predicate Valid()
      reads this, state, buf
    {
      Shape() && curlen < 128 && Fed(stream, buf[..curlen], View(state[..], 0), length)
    }

    constructor ()
      ensures Shape() && fresh(state) && fresh(buf)
    {
      length, curlen, stream := 0, 0, [];
      state := new word[8];
      buf := new byte[128];
    }

    /** sha512_init. */
    method Init()
      requires Shape()
      modifies this, state
      ensures Valid() && stream == []
    {
      hide K, Chain, View, Fed;
      curlen, length, stream := 0, 0, [];
      SetInitial(state);
      FedNothing(View(state[..], 0));
      assert buf[..0] == [];
    }

    /** A block is compressed and its bits are counted. */
    method Absorb(block: seq<byte>)
      requires Shape() && |block| == 128
      modifies this`length, state
      ensures old(Fed(stream, block, View(state[..], 0), length)) ==> Fed(stream, [], View(state[..], 0), length)
    {
      hide K, Chain, View, Fed, Plus, Compressed;
      if Fed(stream, block, View(state[..], 0), length) {
        FedBlock(stream, block, View(state[..], 0), length);
      }
      Compress(state, block);
      length := Plus(length, 128 * 8);
    }

    /** sha512_update. */
    method Update(input: seq<byte>) returns (err: int)
      requires Shape()
      modifies this, state, buf
      ensures old(curlen) > 128 ==> err == 1 && unchanged(this, state, buf)
      ensures old(Valid()) ==> err == 0 && Valid() && stream == old(stream) + input
    {
      hide K, Chain, View, Fed, Plus;
      if curlen > 128 {
        return 1;
      }
      ghost var valid, given := Valid(), stream;
      var at := 0;
      assert given + input[..0] == given;
      while at < |input|
        invariant at <= |input| && curlen <= 128
        invariant valid ==> Valid() && stream == given + input[..at]
        decreases |input| - at, curlen
      {
        var n := if |input| - at < 128 - curlen then |input| - at else 128 - curlen;
        var chunk := input[at..at + n];
        assert given + input[..at] + chunk == given + input[..at + n];
        if valid {
          FedMore(stream, buf[..curlen], View(state[..], 0), length, chunk);
        }
        stream := stream + chunk;
        if curlen == 0 && |input| - at >= 128 {
          assert buf[..0] + chunk == chunk;
          Absorb(chunk);
          at := at + 128;
          assert buf[..0] == [];
        } else {
          PutBytes(buf, curlen, chunk);
          curlen := curlen + n;
          at := at + n;
          if curlen == 128 {
            assert buf[..128] == buf[..];
            Absorb(buf[..]);
            curlen := 0;
            assert buf[..0] == [];
          }
        }
      }
      assert given + input[..|input|] == given + input;
      err := 0;
    }

    /** The buffer is filled with zeros up to a position. */
    method FillZeros(to: nat)
      requires Shape() && curlen <= to <= 128
      modifies this`curlen, buf
      ensures curlen == to && buf[..to] == old(buf[..curlen]) + Zeros(to - old(curlen))
    {
      ghost var pending, from := buf[..curlen], curlen;
      while curlen < to
        invariant from <= curlen <= to && buf[..curlen] == pending + Zeros(curlen - from)
      {
        buf[curlen] := 0;
        curlen := curlen + 1;
      }
    }

    /** The length is completed, the one bit appended, and the block filled up if the length no longer fits. */
    method OpenPadding() returns (ghost z: nat, ghost counted: int)
      requires Shape() && curlen < 128
      modifies this, state, buf
      ensures if old(curlen) + 1 > 112 then z == 127 - old(curlen) && curlen == 0 else z == 0 && curlen == old(curlen) + 1
      ensures old(Valid()) ==> (|old(stream)| - old(curlen)) % 128 == 0
      ensures old(Valid()) ==> length == (8 * |old(stream)|) % 0x1_0000_0000_0000_0000
      ensures old(Valid()) ==> Fed(old(stream) + [0x80] + Zeros(z), buf[..curlen], View(state[..], 0), counted)
    {
      hide K, Chain, View, Fed, Plus, Compressed;
      ghost var valid, s := Valid(), stream + [0x80];
      counted := length;
      if valid {
        FedLength(stream, buf[..curlen], View(state[..], 0), length);
        FedMore(stream, buf[..curlen], View(state[..], 0), length, [0x80]);
      }
      length := Plus(length, curlen * 8);
      buf[curlen] := 0x80;
      curlen := curlen + 1;
      assert buf[..curlen] == old(buf[..curlen]) + [0x80];
      z := 0;
      assert s + Zeros(0) == s;
      if curlen > 112 {
        ghost var pending := buf[..curlen];
        z := 128 - curlen;
        FillZeros(128);
        assert buf[..128] == buf[..];
        if valid {
          FedMore(s, pending, View(state[..], 0), counted, Zeros(z));
          FedBlock(s + Zeros(z), buf[..], View(state[..], 0), counted);
        }
        counted := Plus(counted, 1024);
        Compress(state, buf[..]);
        curlen := 0;
        assert buf[..0] == [];
      }
    }

    /** The last block: zeros, and the length. */
    method ClosePadding(ghost s: seq<byte>, ghost counted: int)
      requires Shape() && curlen <= 112
      modifies this`curlen, state, buf
      ensures var t := s + Zeros(120 - old(curlen)) + BEBytes(length, 8);
              old(Fed(s, buf[..curlen], View(state[..], 0), counted)) ==> |t| % 128 == 0 && View(state[..], 0) == Chain(t)
    {
      hide K, Chain, View, Fed, Plus, Compressed, BEBytes;
      ghost var pending, z, fed := buf[..curlen], 120 - curlen, Fed(s, buf[..curlen], View(state[..], 0), counted);
      FillZeros(120);
      StoreWord(buf, 120, length);
      assert buf[..128] == buf[..];
      ghost var t := s + Zeros(z) + BEBytes(length, 8);
      if fed {
        FedMore(s, pending, View(state[..], 0), counted, Zeros(z));
        FedMore(s + Zeros(z), pending + Zeros(z), View(state[..], 0), counted, BEBytes(length, 8));
        FedBlock(t, buf[..], View(state[..], 0), counted);
      }
      Compress(state, buf[..]);
      if fed {
        FedChain(t, View(state[..], 0), Plus(counted, 1024));
      }
    }

    /** sha512_final. */
    method Final(out: array<byte>) returns (err: int)
      requires Shape() && out.Length >= 64 && out != buf
      modifies this, state, buf, out
      ensures old(curlen) >= 128 ==> err == 1 && unchanged(this, state, buf, out)
      ensures old(Valid()) ==> err == 0 && out[..64] == StreamDigest(old(stream)) && out[64..] == old(out[64..])
    {
      hide K, Chain, View, Fed, Padded, LengthField, BEBytes, Output, Emitted;
      if curlen >= 128 {
        return 1;
      }
      ghost var valid, m, c := Valid(), stream, curlen;
      ghost var z, counted := OpenPadding();
      ghost var z2 := 120 - curlen;
      ClosePadding(m + [0x80] + Zeros(z), counted);
      if valid {
        PaddedForm(m, c, z, z2, length);
      }
      ghost var s := state[..];
      EmittedStep(s, 0);
      for i := 0 to 8
        invariant state[..] == s && out[..8 * i] == Emitted(s, i) && out[64..] == old(out[64..])
      {
        StoreWord(out, 8 * i, state[i]);
        EmittedStep(s, i);
        assert out[64..] == out[8 * i + 8..][64 - (8 * i + 8)..];
      }
      EmittedIsOutput(s);
      err := 0;
    }
  }

  /** sha512. */
  method Hash(message: seq<byte>, out: array<byte>) returns (err: int)
    requires out.Length >= 64
    modifies out
    ensures err == 0 && out[..64] == StreamDigest(message) && out[64..] == old(out[64..])
  {
    hide K, Chain, View, Fed, StreamDigest;
    var ctx := new Context();
    ctx.Init();
    err := ctx.Update(message);
    assert [] + message == message;
    err := ctx.Final(out);
  }
}

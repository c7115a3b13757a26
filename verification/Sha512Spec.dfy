/** SHA-512 as sections 4.1.3, 5.1.2 and 6.4.2 of FIPS 180-4 define it, on byte strings. */
module Sha512Spec {
  import opened Arith
  import opened Bits

  type word = x: int | 0 <= x < 0x1_0000_0000_0000_0000

  /** Addition modulo 2^64. */
  function Plus(x: int, y: int): word {
    (x + y) % 0x1_0000_0000_0000_0000
  }

  function Not(x: word): word {
    var i: int := x;
    0xffff_ffff_ffff_ffff - i
  }

  /** Rotation to the right by n: the low n bits go on top. */
  ghost function Rotr(x: nat, n: nat): nat
    requires n <= 64
  {
    hide Pow2;
    x / Pow2(n) + (x % Pow2(n)) * Pow2(64 - n)
  }

  ghost function Ch(x: word, y: word, z: word): nat {
    Xor(And(x, y), And(Not(x), z))
  }

  ghost function Maj(x: word, y: word, z: word): nat {
    Xor(Xor(And(x, y), And(x, z)), And(y, z))
  }

  ghost function BigSigma0(x: word): nat {
    Xor(Xor(Rotr(x, 28), Rotr(x, 34)), Rotr(x, 39))
  }

  ghost function BigSigma1(x: word): nat {
    Xor(Xor(Rotr(x, 14), Rotr(x, 18)), Rotr(x, 41))
  }

  ghost function SmallSigma0(x: word): nat {
    hide Pow2;
    Xor(Xor(Rotr(x, 1), Rotr(x, 8)), x / Pow2(7))
  }

  ghost function SmallSigma1(x: word): nat {
    hide Pow2;
    Xor(Xor(Rotr(x, 19), Rotr(x, 61)), x / Pow2(6))
  }

  const K: seq<word> :=
    [0x428a2f98d728ae22, 0x7137449123ef65cd, 0xb5c0fbcfec4d3b2f, 0xe9b5dba58189dbbc,
     0x3956c25bf348b538, 0x59f111f1b605d019, 0x923f82a4af194f9b, 0xab1c5ed5da6d8118,
     0xd807aa98a3030242, 0x12835b0145706fbe, 0x243185be4ee4b28c, 0x550c7dc3d5ffb4e2,
     0x72be5d74f27b896f, 0x80deb1fe3b1696b1, 0x9bdc06a725c71235, 0xc19bf174cf692694] +
    [0xe49b69c19ef14ad2, 0xefbe4786384f25e3, 0x0fc19dc68b8cd5b5, 0x240ca1cc77ac9c65,
     0x2de92c6f592b0275, 0x4a7484aa6ea6e483, 0x5cb0a9dcbd41fbd4, 0x76f988da831153b5,
     0x983e5152ee66dfab, 0xa831c66d2db43210, 0xb00327c898fb213f, 0xbf597fc7beef0ee4,
     0xc6e00bf33da88fc2, 0xd5a79147930aa725, 0x06ca6351e003826f, 0x142929670a0e6e70] +
    [0x27b70a8546d22ffc, 0x2e1b21385c26c926, 0x4d2c6dfc5ac42aed, 0x53380d139d95b3df,
     0x650a73548baf63de, 0x766a0abb3c77b2a8, 0x81c2c92e47edaee6, 0x92722c851482353b,
     0xa2bfe8a14cf10364, 0xa81a664bbc423001, 0xc24b8b70d0f89791, 0xc76c51a30654be30,
     0xd192e819d6ef5218, 0xd69906245565a910, 0xf40e35855771202a, 0x106aa07032bbd1b8] +
    [0x19a4c116b8d2d0c8, 0x1e376c085141ab53, 0x2748774cdf8eeb99, 0x34b0bcb5e19b48a8,
     0x391c0cb3c5c95a63, 0x4ed8aa4ae3418acb, 0x5b9cca4f7763e373, 0x682e6ff3d6b2b8a3,
     0x748f82ee5defb2fc, 0x78a5636f43172f60, 0x84c87814a1f0ab72, 0x8cc702081a6439ec,
     0x90befffa23631e28, 0xa4506cebde82bde9, 0xbef9a3f7b2c67915, 0xc67178f2e372532b] +
    [0xca273eceea26619c, 0xd186b8c721c0c207, 0xeada7dd6cde0eb1e, 0xf57d4f7fee6ed178,
     0x06f067aa72176fba, 0x0a637dc5a2c898a6, 0x113f9804bef90dae, 0x1b710b35131c471b,
     0x28db77f523047d84, 0x32caab7b40c72493, 0x3c9ebe0a15c9bebc, 0x431d67c49c100d4c,
     0x4cc5d4becb3e42b6, 0x597f299cfc657e2a, 0x5fcb6fab3ad6faec, 0x6c44198c4a475817]

  lemma KLength()
    ensures |K| == 80
  {
  }

  /** The value of a big-endian byte string. */
  function BE(b: seq<byte>): (n: nat) {
    if |b| == 0 then 0 else 256 * BE(b[..|b| - 1]) + b[|b| - 1]
  }

  /** n in k bytes, most significant first. */
  function BEBytes(n: nat, k: nat): (b: seq<byte>)
    ensures |b| == k
  {
    if k == 0 then [] else BEBytes(n / 256, k - 1) + [n % 256]
  }

  lemma {:induction false} BEBound(b: seq<byte>)
    ensures BE(b) < Pow2(8 * |b|)
  {
    if |b| != 0 {
      BEBound(b[..|b| - 1]);
      Pow2Small();
      Pow2Add(8, 8 * (|b| - 1));
    }
  }

  /** The message schedule. */
  ghost function W(block: seq<byte>, t: nat): (w: word)
    requires |block| == 128
  {
    if t < 16 then BE(block[8 * t..8 * t + 8]) % 0x1_0000_0000_0000_0000
    else Plus(Plus(Plus(SmallSigma1(W(block, t - 2)), W(block, t - 7)), SmallSigma0(W(block, t - 15))), W(block, t - 16))
  }

  /** The working variables, and the hash value. */
  datatype Words = Words(a: word, b: word, c: word, d: word, e: word, f: word, g: word, h: word)

  ghost function Round(x: Words, k: word, w: word): Words {
    var t1 := Plus(Plus(Plus(Plus(x.h, BigSigma1(x.e)), Ch(x.e, x.f, x.g)), k), w);
    var t2 := Plus(BigSigma0(x.a), Maj(x.a, x.b, x.c));
    Words(Plus(t1, t2), x.a, x.b, x.c, Plus(x.d, t1), x.e, x.f, x.g)
  }

  ghost function Rounds(n: nat, x: Words, block: seq<byte>): Words
    requires |block| == 128 && n <= 80
  {
    if n == 0 then x else KLength(); Round(Rounds(n - 1, x, block), K[n - 1], W(block, n - 1))
  }

  ghost function Compressed(x: Words, block: seq<byte>): Words
    requires |block| == 128
  {
    Sum(x, Rounds(80, x, block))
  }

  ghost function Sum(x: Words, y: Words): Words {
    Words(Plus(x.a, y.a), Plus(x.b, y.b), Plus(x.c, y.c), Plus(x.d, y.d),
          Plus(x.e, y.e), Plus(x.f, y.f), Plus(x.g, y.g), Plus(x.h, y.h))
  }

  const H0: Words := Words(
    0x6a09e667f3bcc908, 0xbb67ae8584caa73b, 0x3c6ef372fe94f82b, 0xa54ff53a5f1d36f1,
    0x510e527fade682d1, 0x9b05688c2b3e6c1f, 0x1f83d9abfb41bd6b, 0x5be0cd19137e2179)

  /** The hash value after the blocks of m. */
  ghost function Chain(m: seq<byte>): Words
    requires |m| % 128 == 0
  {
    if |m| == 0 then H0 else Compressed(Chain(m[..|m| - 128]), m[|m| - 128..])
  }

  /** The padding, with the 16 bytes given for the length. */
  ghost function Padded(m: seq<byte>, field: seq<byte>): (p: seq<byte>)
    requires |field| == 16
    ensures |p| % 128 == 0
  {
    m + [0x80] + Zeros((111 - |m|) % 128) + field
  }

  /** The message is followed by a one bit, zeros, and its length in bits as a 128-bit number. */
  ghost function Pad(m: seq<byte>): (p: seq<byte>)
    ensures |p| % 128 == 0
  {
    Padded(m, BEBytes(8 * |m|, 16))
  }

  ghost function Output(x: Words): (s: seq<byte>)
    ensures |s| == 64
  {
    BEBytes(x.a, 8) + BEBytes(x.b, 8) + BEBytes(x.c, 8) + BEBytes(x.d, 8)
      + BEBytes(x.e, 8) + BEBytes(x.f, 8) + BEBytes(x.g, 8) + BEBytes(x.h, 8)
  }

  ghost function Digest(m: seq<byte>): (s: seq<byte>)
    ensures |s| == 64
  {
    Output(Chain(Pad(m)))
  }
}

/** Block encryption with zero padding, and the truncated MAC in front: Utils.cpp. */
module MeshCrypto {
  import opened Arith
  import opened Bits
  import opened Buffers
  import opened MeshPacket

  const CIPHER_BLOCK_SIZE: nat := 16
  const CIPHER_MAC_SIZE: nat := 2
  const MAX_COMBINED_PATH: nat := 166

  /** The block functions, the MAC and the digest, as parameters. */
  datatype Primitives = Primitives(
    encryptBlock: (seq<byte>, seq<byte>) -> seq<byte>,
    decryptBlock: (seq<byte>, seq<byte>) -> seq<byte>,
    mac: (seq<byte>, seq<byte>) -> seq<byte>,
    sha256: seq<byte> -> seq<byte>)

  /** What is asked of them: decryption inverts encryption, and the sizes are right. */
  ghost predicate Sound(p: Primitives) {
    && (forall k, b :: |b| == 16 ==> |p.encryptBlock(k, b)| == 16 && p.decryptBlock(k, p.encryptBlock(k, b)) == b)
    && (forall k, b :: |b| == 16 ==> |p.decryptBlock(k, b)| == 16)
    && (forall k, m :: |p.mac(k, m)| == CIPHER_MAC_SIZE)
    && (forall m :: |p.sha256(m)| == 32)
  }

  /** n rounded up to whole blocks. */
  function Ceil16(n: nat): (m: nat)
    ensures n <= m < n + 16 && m % 16 == 0
  {
    16 * ((n + 15) / 16)
  }

  lemma DigestSize(p: Primitives)
    requires Sound(p)
    ensures forall m :: |p.sha256(m)| == 32
  {
  }

  function Key(secret: seq<byte>): seq<byte>
    requires |secret| == 32
  {
    secret[..16]
  }

  ghost function Encrypted(p: Primitives, k: seq<byte>, src: seq<byte>): seq<byte> {
    if |src| == 0 then []
    else if |src| < 16 then p.encryptBlock(k, src + Zeros(16 - |src|))
    else p.encryptBlock(k, src[..16]) + Encrypted(p, k, src[16..])
  }

  ghost function Decrypted(p: Primitives, k: seq<byte>, src: seq<byte>): seq<byte> {
    if |src| < 16 then [] else p.decryptBlock(k, src[..16]) + Decrypted(p, k, src[16..])
  }

  lemma {:induction false} EncryptedLength(p: Primitives, k: seq<byte>, src: seq<byte>)
    requires Sound(p)
    ensures |Encrypted(p, k, src)| == Ceil16(|src|)
  {
    if |src| < 16 {
    } else {
      EncryptedLength(p, k, src[16..]);
    }
  }

  lemma {:induction false} DecryptedLength(p: Primitives, k: seq<byte>, src: seq<byte>)
    requires Sound(p)
    ensures |Decrypted(p, k, src)| == 16 * (|src| / 16)
  {
    if |src| >= 16 {
      DecryptedLength(p, k, src[16..]);
    }
  }

  /** Decryption gives the text back, padded with zeros to whole blocks. */
  lemma {:induction false} DecryptEncrypt(p: Primitives, k: seq<byte>, src: seq<byte>)
    requires Sound(p)
    ensures Decrypted(p, k, Encrypted(p, k, src)) == src + Zeros(Ceil16(|src|) - |src|)
  {
    if |src| == 0 {
      assert src + Zeros(0) == src;
    } else if |src| < 16 {
      var b := src + Zeros(16 - |src|);
      var e := p.encryptBlock(k, b);
      assert |b| == 16 && |e| == 16 && e[..16] == e && e[16..] == [];
      assert Decrypted(p, k, []) == [];
      assert p.decryptBlock(k, e) + [] == b;
    } else {
      DecryptEncrypt(p, k, src[16..]);
      var e, r := p.encryptBlock(k, src[..16]), Encrypted(p, k, src[16..]);
      assert |src[..16]| == 16;
      assert (e + r)[..16] == e && (e + r)[16..] == r;
      assert Ceil16(|src|) - |src| == Ceil16(|src[16..]|) - |src[16..]|;
      assert src == src[..16] + src[16..];
    }
  }

  /** One more piece behind whole blocks. */
  lemma {:induction false} EncryptMore(p: Primitives, k: seq<byte>, a: seq<byte>, b: seq<byte>)
    requires |a| % 16 == 0
    ensures Encrypted(p, k, a + b) == Encrypted(p, k, a) + Encrypted(p, k, b)
  {
    if |a| == 0 {
      assert a + b == b;
    } else {
      EncryptMore(p, k, a[16..], b);
      assert (a + b)[..16] == a[..16] && (a + b)[16..] == a[16..] + b;
    }
  }

  lemma {:induction false} DecryptMore(p: Primitives, k: seq<byte>, a: seq<byte>, b: seq<byte>)
    requires |a| % 16 == 0
    ensures Decrypted(p, k, a + b) == Decrypted(p, k, a) + Decrypted(p, k, b)
  {
    if |a| == 0 {
      assert a + b == b;
    } else {
      DecryptMore(p, k, a[16..], b);
      assert (a + b)[..16] == a[..16] && (a + b)[16..] == a[16..] + b;
    }
  }

  lemma OneBlock(p: Primitives, k: seq<byte>, b: seq<byte>)
    requires |b| == 16
    ensures Encrypted(p, k, b) == p.encryptBlock(k, b) && Decrypted(p, k, b) == p.decryptBlock(k, b)
  {
    assert b[..16] == b && b[16..] == [];
    assert Encrypted(p, k, []) == [] && Decrypted(p, k, []) == [];
  }

  /** What encryptThenMAC writes. */
  ghost function Sealed(p: Primitives, secret: seq<byte>, src: seq<byte>): seq<byte>
    requires |secret| == 32
  {
    p.mac(secret, Encrypted(p, Key(secret), src)) + Encrypted(p, Key(secret), src)
  }

  /** What MACThenDecrypt gives for a string of whole blocks behind a MAC: nothing unless the MAC is right. */
  ghost function Opened(p: Primitives, secret: seq<byte>, src: seq<byte>): seq<byte>
    requires |secret| == 32
  {
    if |src| <= 2 || p.mac(secret, src[2..]) != src[..2] then [] else Decrypted(p, Key(secret), src[2..])
  }

  /** Primitives whose digest tells one string from all others. */
  ghost function Telling(m: seq<byte>): (p: Primitives)
    ensures Sound(p) && forall x :: p.sha256(x) == seq(32, _ => if x == m then 1 else 0)
  {
    Primitives((k, b) => b, (k, b) => b, (k, x) => [0, 0], x => seq(32, _ => if x == m then 1 else 0))
  }

  /** The sixteen bytes of a text from a position on, with zeros behind its end. */
  ghost function Block(src: seq<byte>, from: nat): (b: seq<byte>)
    requires from <= |src|
    ensures |b| == 16
  {
    if from + 16 <= |src| then src[from..from + 16] else src[from..] + Zeros(16 - (|src| - from))
  }

  /** Every block of the text is encrypted on its own. */
  lemma {:induction false} EncryptedBlocks(p: Primitives, k: seq<byte>, src: seq<byte>, i: nat)
    requires Sound(p) && 16 * i < |src|
    ensures |Encrypted(p, k, src)| == Ceil16(|src|) >= 16 * i + 16
    ensures Encrypted(p, k, src)[16 * i..16 * i + 16] == p.encryptBlock(k, Block(src, 16 * i))
    decreases i
  {
    EncryptedLength(p, k, src);
    var e := Encrypted(p, k, src);
    if |src| < 16 {
      assert src[0..] == src && e[0..16] == e;
    } else {
      var rest := Encrypted(p, k, src[16..]);
      assert e == p.encryptBlock(k, src[..16]) + rest;
      if i == 0 {
        assert src[0..16] == src[..16];
      } else {
        EncryptedBlocks(p, k, src[16..], i - 1);
        SameBlock(src, i);
        assert e[16 * i..16 * i + 16] == rest[16 * (i - 1)..16 * (i - 1) + 16];
      }
    }
  }

  lemma SameBlock(src: seq<byte>, i: nat)
    requires 0 < i && 16 * i < |src|
    ensures Block(src[16..], 16 * (i - 1)) == Block(src, 16 * i)
  {
    var rest := src[16..];
    if 16 * i + 16 <= |src| {
      assert rest[16 * (i - 1)..16 * (i - 1) + 16] == src[16 * i..16 * i + 16];
    } else {
      assert rest[16 * (i - 1)..] == src[16 * i..];
    }
  }

  lemma {:induction false} DecryptedBlocks(p: Primitives, k: seq<byte>, src: seq<byte>, i: nat)
    requires Sound(p) && 16 * i + 16 <= |src|
    ensures |Decrypted(p, k, src)| == 16 * (|src| / 16)
    ensures Decrypted(p, k, src)[16 * i..16 * i + 16] == p.decryptBlock(k, src[16 * i..16 * i + 16])
    decreases i, |src|
  {
    var d, rest := Decrypted(p, k, src), Decrypted(p, k, src[16..]);
    assert d == p.decryptBlock(k, src[..16]) + rest;
    DecryptedLength(p, k, src);
    if i == 0 {
      assert src[0..16] == src[..16];
    } else {
      DecryptedBlocks(p, k, src[16..], i - 1);
      assert src[16..][16 * (i - 1)..16 * (i - 1) + 16] == src[16 * i..16 * i + 16];
      assert d[16 * i..16 * i + 16] == rest[16 * (i - 1)..16 * (i - 1) + 16];
    }
  }

  /** Sealed data: the MAC of the ciphertext under the whole secret, then the blocks under its first half. */
  lemma SealedMeans(p: Primitives, secret: seq<byte>, src: seq<byte>)
    requires Sound(p) && |secret| == 32
    ensures var s := Sealed(p, secret, src);
            && |s| == 2 + Ceil16(|src|) && s[..2] == p.mac(secret, s[2..])
            && forall i: nat :: 16 * i < |src| ==>
                 2 + 16 * i + 16 <= |s| && s[2 + 16 * i..2 + 16 * i + 16] == p.encryptBlock(secret[..16], Block(src, 16 * i))
  {
    var s, e := Sealed(p, secret, src), Encrypted(p, Key(secret), src);
    EncryptedLength(p, Key(secret), src);
    assert s[..2] == p.mac(secret, e) && s[2..] == e;
    forall i: nat | 16 * i < |src|
      ensures 2 + 16 * i + 16 <= |s| && s[2 + 16 * i..2 + 16 * i + 16] == p.encryptBlock(secret[..16], Block(src, 16 * i))
    {
      EncryptedBlocks(p, Key(secret), src, i);
      assert s[2 + 16 * i..2 + 16 * i + 16] == s[2..][16 * i..16 * i + 16];
    }
  }

  /** Opening gives nothing unless the MAC is right, and then the whole blocks decrypted under the first half of the secret. */
  lemma OpenedMeans(p: Primitives, secret: seq<byte>, src: seq<byte>)
    requires Sound(p) && |secret| == 32
    ensures var d := Opened(p, secret, src);
            if |src| > 2 && src[..2] == p.mac(secret, src[2..]) then
              && |d| == 16 * ((|src| - 2) / 16)
              && forall i: nat :: 2 + 16 * i + 16 <= |src| ==>
                   16 * i + 16 <= |d| && d[16 * i..16 * i + 16] == p.decryptBlock(secret[..16], src[2 + 16 * i..2 + 16 * i + 16])
            else d == []
  {
    var d := Opened(p, secret, src);
    if |src| > 2 && src[..2] == p.mac(secret, src[2..]) {
      DecryptedLength(p, Key(secret), src[2..]);
      forall i: nat | 2 + 16 * i + 16 <= |src|
        ensures 16 * i + 16 <= |d| && d[16 * i..16 * i + 16] == p.decryptBlock(secret[..16], src[2 + 16 * i..2 + 16 * i + 16])
      {
        DecryptedBlocks(p, Key(secret), src[2..], i);
        assert src[2..][16 * i..16 * i + 16] == src[2 + 16 * i..2 + 16 * i + 16];
      }
    }
  }

  /** Opening what was sealed. */
  lemma OpenSealed(p: Primitives, secret: seq<byte>, src: seq<byte>)
    requires Sound(p) && |secret| == 32
    ensures |Sealed(p, secret, src)| == 2 + Ceil16(|src|)
    ensures Opened(p, secret, Sealed(p, secret, src)) == src + Zeros(Ceil16(|src|) - |src|)
  {
    var k := Key(secret);
    var e := Encrypted(p, k, src);
    EncryptedLength(p, k, src);
    DecryptEncrypt(p, k, src);
    assert Sealed(p, secret, src)[..2] == p.mac(secret, e) && Sealed(p, secret, src)[2..] == e;
    if |src| == 0 {
      assert src + Zeros(0) == [];
    }
  }

  // -------------------------------------------------------------------------
  // The loops
  // -------------------------------------------------------------------------

  /** The loop of encrypt over the whole blocks. */
  method EncryptBlocks(p: Primitives, k: seq<byte>, dest: array<byte>, at: nat, src: seq<byte>) returns (i: nat)
    requires Sound(p) && at + Ceil16(|src|) <= dest.Length
    modifies dest
    ensures i <= |src| < i + 16 && i % 16 == 0 && at + i <= dest.Length
    ensures dest[..at + i] == old(dest[..at]) + Encrypted(p, k, src[..i])
  {
    hide *;
    i := 0;
    var len := |src|;
    ghost var pre := dest[..at];
    EncryptedNothing(p, k);
    assert src[..0] == [];
    BlockRoom(|src|, 0);
    while len >= 16
      invariant i + len == |src| && len >= 0 && i % 16 == 0 && at + i <= dest.Length
      invariant dest[..at + i] == pre + Encrypted(p, k, src[..i])
    {
      var b := src[i..i + 16];
      EncryptMore(p, k, src[..i], b);
      OneBlock(p, k, b);
      BlockSize(p, k, b);
      assert src[..i + 16] == src[..i] + b;
      BlockRoom(|src|, i);
      Append3(pre, Encrypted(p, k, src[..i]), p.encryptBlock(k, b));
      PutBytes(dest, at + i, p.encryptBlock(k, b));
      i, len := i + 16, len - 16;
    }
  }

  /** encrypt. */
  method Encrypt(p: Primitives, secret: seq<byte>, dest: array<byte>, at: nat, src: seq<byte>) returns (n: nat)
    requires Sound(p) && |secret| == 32 && at + Ceil16(|src|) <= dest.Length
    modifies dest
    ensures n == Ceil16(|src|) && dest[..at + n] == old(dest[..at]) + Encrypted(p, Key(secret), src)
  {
    var k := Key(secret);
    hide *;
    ghost var pre := dest[..at];
    var i := EncryptBlocks(p, k, dest, at, src);
    var rest := src[i..];
    assert src == src[..i] + rest;
    EncryptMore(p, k, src[..i], rest);
    PartialBlock(p, k, rest);
    BlockRoom(|src|, i);
    Append3(pre, Encrypted(p, k, src[..i]), Encrypted(p, k, rest));
    n := i;
    if |rest| > 0 {
      var tmp := rest + Zeros(16 - |rest|);
      BlockSize(p, k, tmp);
      PutBytes(dest, at + i, p.encryptBlock(k, tmp));
      n := i + 16;
    } else {
      assert pre + Encrypted(p, k, src[..i]) + [] == pre + Encrypted(p, k, src[..i]);
    }
  }

  lemma Append3(a: seq<byte>, b: seq<byte>, c: seq<byte>)
    ensures a + b + c == a + (b + c)
  {
  }

  /** Whole blocks of which the last one still begins before n. */
  lemma BlockRoom(n: nat, i: nat)
    requires i % 16 == 0
    ensures i < n ==> i + 16 <= Ceil16(n)
    ensures n <= i <= Ceil16(n) ==> i == Ceil16(n)
    ensures n < i + 16 && i < n ==> i + 16 == Ceil16(n)
    ensures (i + 16) % 16 == 0
  {
  }

  lemma BlockSize(p: Primitives, k: seq<byte>, b: seq<byte>)
    requires Sound(p) && |b| == 16
    ensures |p.encryptBlock(k, b)| == 16 && |p.decryptBlock(k, b)| == 16
  {
  }

  lemma EncryptedNothing(p: Primitives, k: seq<byte>)
    ensures Encrypted(p, k, []) == [] && Decrypted(p, k, []) == []
  {
  }

  lemma PartialBlock(p: Primitives, k: seq<byte>, b: seq<byte>)
    requires |b| < 16
    ensures Encrypted(p, k, b) == if |b| == 0 then [] else p.encryptBlock(k, b + Zeros(16 - |b|))
  {
  }

  /** decrypt: whole blocks, as many as the length reaches into. */
  method Decrypt(p: Primitives, secret: seq<byte>, dest: array<byte>, src: seq<byte>, from: nat, len: nat) returns (n: nat)
    requires Sound(p) && |secret| == 32 && from + Ceil16(len) <= |src| && Ceil16(len) <= dest.Length
    modifies dest
    ensures n == Ceil16(len) && dest[..n] == Decrypted(p, Key(secret), src[from..from + n])
  {
    var k := Key(secret);
    hide *;
    EncryptedNothing(p, k);
    var i := 0;
    assert src[from..from + 0] == [];
    while i < len
      invariant i <= Ceil16(len) && i % 16 == 0
      invariant dest[..i] == Decrypted(p, k, src[from..from + i])
    {
      BlockRoom(len, i);
      var b := src[from + i..from + i + 16];
      DecryptMore(p, k, src[from..from + i], b);
      OneBlock(p, k, b);
      BlockSize(p, k, b);
      assert src[from..from + i + 16] == src[from..from + i] + b;
      PutBytes(dest, i, p.decryptBlock(k, b));
      i := i + 16;
    }
    BlockRoom(len, i);
    n := i;
  }

  lemma MacSize(p: Primitives, secret: seq<byte>)
    requires Sound(p)
    ensures forall m :: |p.mac(secret, m)| == 2
  {
  }

  /** encryptThenMAC. */
  method EncryptThenMAC(p: Primitives, secret: seq<byte>, dest: array<byte>, at: nat, src: seq<byte>) returns (n: nat)
    requires Sound(p) && |secret| == 32 && at + 2 + Ceil16(|src|) <= dest.Length
    modifies dest
    ensures n == 2 + Ceil16(|src|) && dest[..at + n] == old(dest[..at]) + Sealed(p, secret, src)
  {
    hide Encrypted, Ceil16, Sound, Zeros;
    MacSize(p, secret);
    ghost var before := dest[..at];
    var m := Encrypt(p, secret, dest, at + 2, src);
    EncryptedLength(p, Key(secret), src);
    assert dest[..at + 2 + m][..at] == before;
    assert dest[at + 2..at + 2 + m] == dest[..at + 2 + m][at + 2..] == Encrypted(p, Key(secret), src);
    var h := p.mac(secret, dest[at + 2..at + 2 + m]);
    ghost var e := dest[at + 2..];
    PutBytes(dest, at, h);
    n := 2 + m;
    assert dest[at + 2..] == e && dest[at + 2..at + n] == e[..m] == Encrypted(p, Key(secret), src);
    assert dest[..at + 2] == before + h;
    assert dest[..at + n] == dest[..at + 2] + dest[at + 2..at + n];
    assert before + h + Encrypted(p, Key(secret), src) == before + (h + Encrypted(p, Key(secret), src));
  }

  /** MACThenDecrypt: 0 unless the MAC is right. */
  method MACThenDecrypt(p: Primitives, secret: seq<byte>, dest: array<byte>, src: seq<byte>, from: nat, len: nat) returns (n: nat)
    requires Sound(p) && |secret| == 32 && from + len <= |src|
    requires len > 2 ==> from + 2 + Ceil16(len - 2) <= |src| && Ceil16(len - 2) <= dest.Length
    modifies dest
    ensures len <= 2 || p.mac(secret, src[from + 2..from + len]) != src[from..from + 2] ==> n == 0
    ensures len > 2 && p.mac(secret, src[from + 2..from + len]) == src[from..from + 2] ==>
              n == Ceil16(len - 2) && dest[..n] == Decrypted(p, Key(secret), src[from + 2..from + 2 + n])
    ensures (len - 2) % 16 == 0 ==> dest[..n] == Opened(p, secret, src[from..from + len])
  {
    hide Encrypted, Decrypted, Sound;
    if len <= 2 {
      return 0;
    }
    assert src[from..from + len][2..] == src[from + 2..from + len];
    assert src[from..from + len][..2] == src[from..from + 2];
    var h := p.mac(secret, src[from + 2..from + len]);
    if h == src[from..from + 2] {
      n := Decrypt(p, secret, dest, src, from + 2, len - 2);
    } else {
      n := 0;
    }
  }
}

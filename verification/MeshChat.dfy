/** Text messages with their acknowledgements, and returned paths: BaseChatMesh.cpp and the packet makers of Mesh.cpp. */
module MeshChat {
  import opened Arith
  import opened Bits
  import opened MeshPacket
  import opened MeshCrypto

  const MAX_TEXT_LEN: nat := 160
  const TXT_TYPE_PLAIN: nat := 0

  // -------------------------------------------------------------------------
  // C strings
  // -------------------------------------------------------------------------

  /** The bytes before the first zero. */
  ghost function CString(b: seq<byte>): (s: seq<byte>)
    ensures |s| <= |b|
  {
    if |b| == 0 || b[0] == 0 then [] else [b[0]] + CString(b[1..])
  }

  ghost predicate NoZero(s: seq<byte>) {
    forall i :: 0 <= i < |s| ==> s[i] != 0
  }

  /** The text up to a zero, whatever follows. */
  lemma {:induction false} CStringOf(s: seq<byte>, rest: seq<byte>)
    requires NoZero(s) && |rest| > 0 && rest[0] == 0
    ensures CString(s + rest) == s
  {
    if |s| == 0 {
      assert s + rest == rest;
    } else {
      assert NoZero(s[1..]) by {
        forall i | 0 <= i < |s| - 1
          ensures s[1..][i] != 0
        {
        }
      }
      CStringOf(s[1..], rest);
      assert (s + rest)[1..] == s[1..] + rest;
    }
  }

  lemma {:induction false} CStringShape(b: seq<byte>)
    ensures NoZero(CString(b)) && CString(b) == b[..|CString(b)|] && (|CString(b)| < |b| ==> b[|CString(b)|] == 0)
  {
    if |b| == 0 || b[0] == 0 {
    } else {
      CStringShape(b[1..]);
      var c := CString(b[1..]);
      assert forall i :: 1 <= i < |c| + 1 ==> ([b[0]] + c)[i] == c[i - 1];
    }
  }

  lemma CStringUnique(b: seq<byte>, n: nat)
    requires n < |b| && b[n] == 0 && NoZero(b[..n])
    ensures CString(b) == b[..n]
  {
    CStringOf(b[..n], b[n..]);
    assert b == b[..n] + b[n..];
  }

  /** strlen. */
  method StrLen(b: seq<byte>, from: nat) returns (n: nat)
    requires from <= |b| && exists i :: from <= i < |b| && b[i] == 0
    ensures from + n < |b| && b[from..from + n] == CString(b[from..]) && n == |CString(b[from..])|
  {
    n := 0;
    while b[from + n] != 0
      invariant from + n < |b| && NoZero(b[from..from + n])
      invariant exists i :: from + n <= i < |b| && b[i] == 0
      decreases |b| - n
    {
      assert b[from..from + n + 1] == b[from..from + n] + [b[from + n]];
      n := n + 1;
    }
    assert b[from..][..n] == b[from..from + n] && b[from..][n] == b[from + n];
    CStringUnique(b[from..], n);
  }

  // -------------------------------------------------------------------------
  // A text message and its acknowledgement
  // -------------------------------------------------------------------------

  /** The part of a message that the acknowledgement covers: time stamp, attempt in two bits, text. */
  ghost function Covered(stamp: seq<byte>, attempt: byte, text: seq<byte>): seq<byte>
    requires |stamp| == 4
  {
    stamp + [attempt % 4] + text
  }

  /** From the fifth attempt on, the attempt number follows behind a zero. */
  ghost function MessageData(stamp: seq<byte>, attempt: byte, text: seq<byte>): (d: seq<byte>)
    requires |stamp| == 4
    ensures |d| >= 5 + |text| && d[..5 + |text|] == Covered(stamp, attempt, text)
  {
    Covered(stamp, attempt, text) + if attempt > 3 then [0, attempt] else []
  }

  ghost function AckHash(p: Primitives, covered: seq<byte>, sender: seq<byte>): seq<byte>
    requires Sound(p)
  {
    var h := p.sha256(covered + sender);
    assert |h| == 32;
    h[..4]
  }

  /** Acknowledgements cover time, attempt in two bits, text and sender: they are the same under every digest exactly if all of these are. */
  lemma AckTellsApart(stamp: seq<byte>, attempt: byte, text: seq<byte>, sender: seq<byte>,
                      stamp': seq<byte>, attempt': byte, text': seq<byte>, sender': seq<byte>)
    requires |stamp| == |stamp'| == 4 && |sender| == |sender'| == 32
    ensures (forall p | Sound(p) :: AckHash(p, Covered(stamp, attempt, text), sender) == AckHash(p, Covered(stamp', attempt', text'), sender'))
            <==> stamp == stamp' && attempt % 4 == attempt' % 4 && text == text' && sender == sender'
  {
    var a, b := Covered(stamp, attempt, text) + sender, Covered(stamp', attempt', text') + sender';
    if forall p | Sound(p) :: AckHash(p, Covered(stamp, attempt, text), sender) == AckHash(p, Covered(stamp', attempt', text'), sender') {
      var p := Telling(a);
      assert AckHash(p, Covered(stamp, attempt, text), sender) == AckHash(p, Covered(stamp', attempt', text'), sender');
      assert AckHash(p, Covered(stamp, attempt, text), sender)[0] == 1;
      assert a == b;
      CoveredParts(stamp, attempt, text, sender);
      CoveredParts(stamp', attempt', text', sender');
    }
  }

  lemma CoveredParts(stamp: seq<byte>, attempt: byte, text: seq<byte>, sender: seq<byte>)
    requires |stamp| == 4 && |sender| == 32
    ensures var a := Covered(stamp, attempt, text) + sender;
            |a| == 37 + |text| && a[..4] == stamp && a[4] == attempt % 4 && a[5..|a| - 32] == text && a[|a| - 32..] == sender
  {
  }

  /** Different messages are different data, and so are different attempts at one, the fifth and later ones included. */
  lemma MessagesDiffer(stamp: seq<byte>, attempt: byte, text: seq<byte>, stamp': seq<byte>, attempt': byte, text': seq<byte>)
    requires |stamp| == |stamp'| == 4 && NoZero(text) && NoZero(text')
    ensures MessageData(stamp, attempt, text) == MessageData(stamp', attempt', text')
            <==> stamp == stamp' && attempt == attempt' && text == text'
  {
    var a, b := MessageData(stamp, attempt, text), MessageData(stamp', attempt', text');
    if a == b {
      MessageParts(stamp, attempt, text);
      MessageParts(stamp', attempt', text');
      ZeroInside(text, attempt);
      ZeroInside(text', attempt');
    }
  }

  lemma ZeroInside(text: seq<byte>, x: byte)
    ensures !NoZero(text + [0, x])
  {
    assert (text + [0, x])[|text|] == 0;
  }

  lemma MessageParts(stamp: seq<byte>, attempt: byte, text: seq<byte>)
    requires |stamp| == 4
    ensures var d := MessageData(stamp, attempt, text); var n := if attempt > 3 then |d| - 2 else |d|;
            && |d| == 5 + |text| + (if attempt > 3 then 2 else 0) && d[..4] == stamp && d[4] == attempt % 4 && d[5..n] == text
            && (forall k :: 0 <= k < |text| ==> d[5 + k] == text[k]) && (attempt > 3 ==> d[n] == 0 && d[n + 1] == attempt)
  {
  }

  /** A text that composeMsgPacket accepts: ten cipher blocks, less the two bytes behind the text that a high attempt takes. */
  ghost predicate Acceptable(text: seq<byte>, attempt: byte) {
    |text| <= if attempt > 3 then 158 else 160
  }

  /** composeMsgPacket: the datagram for a text, and the acknowledgement to wait for. */
  method ComposeMsgPacket(p: Primitives, pkt: Packet, destHash: byte, selfHash: byte, secret: seq<byte>, sender: seq<byte>,
                          stamp: seq<byte>, attempt: byte, cstr: seq<byte>, poolEmpty: bool) returns (ok: bool, expectedAck: seq<byte>)
    requires Sound(p) && pkt.Shape() && |secret| == 32 && |stamp| == 4 && exists i :: 0 <= i < |cstr| && cstr[i] == 0
    modifies pkt, pkt.payload
    ensures ok <==> Acceptable(CString(cstr), attempt) && !poolEmpty
    ensures ok ==> expectedAck == AckHash(p, Covered(stamp, attempt, CString(cstr)), sender)
    ensures ok ==> pkt.header == 4 * PAYLOAD_TYPE_TXT_MSG && pkt.payloadLen <= MAX_PACKET_PAYLOAD
    ensures ok ==> pkt.payload[..pkt.payloadLen] == [destHash, selfHash] + Sealed(p, secret, MessageData(stamp, attempt, CString(cstr)))
  {
    hide Sealed, CString, Sound;
    DigestSize(p);
    expectedAck := [];
    assert cstr[0..] == cstr;
    var n := StrLen(cstr, 0);
    if n > MAX_TEXT_LEN {
      return false, expectedAck;
    }
    if attempt > 3 && n > MAX_TEXT_LEN - 2 {
      return false, expectedAck;
    }
    var text := cstr[..n];
    var temp := stamp + [LowAttempt(attempt)] + text;
    expectedAck := p.sha256(temp + sender)[..4];
    if attempt > 3 {
      temp := temp + [0, attempt];
    } else {
      assert temp == temp + [];
    }
    ok := CreateDatagram(p, pkt, PAYLOAD_TYPE_TXT_MSG, destHash, selfHash, secret, temp, poolEmpty);
  }

  /** The low two bits of the attempt. */
  function LowAttempt(attempt: byte): (r: byte)
    ensures r == attempt % 4
  {
    hide And, Pow2;
    Pow2Small();
    LowBits(attempt, 2, 3);
    And(attempt, 3)
  }

  /** createDatagram. */
  method CreateDatagram(p: Primitives, pkt: Packet, payloadType: nat, destHash: byte, selfHash: byte, secret: seq<byte>, data: seq<byte>,
                        poolEmpty: bool) returns (ok: bool)
    requires Sound(p) && pkt.Shape() && |secret| == 32
    modifies pkt, pkt.payload
    ensures ok <==> payloadType in {0, 1, 2} && |data| + 2 + 15 <= MAX_PACKET_PAYLOAD && !poolEmpty
    ensures ok ==> pkt.header == 4 * payloadType && pkt.payloadLen <= MAX_PACKET_PAYLOAD
    ensures ok ==> pkt.payload[..pkt.payloadLen] == [destHash, selfHash] + Sealed(p, secret, data)
  {
    hide Sealed, Sound, Ceil16;
    if payloadType == 2 || payloadType == 0 || payloadType == 1 {
      if |data| + CIPHER_MAC_SIZE + CIPHER_BLOCK_SIZE - 1 > MAX_PACKET_PAYLOAD {
        return false;
      }
    } else {
      return false;
    }
    if poolEmpty {
      return false;
    }
    FitsPayload(|data|);
    pkt.header := 4 * payloadType;
    pkt.payload[0], pkt.payload[1] := destHash, selfHash;
    assert pkt.payload[..2] == [destHash, selfHash];
    var n := EncryptThenMAC(p, secret, pkt.payload, 2, data);
    pkt.payloadLen := 2 + n;
    ok := true;
  }

  /**
   * Behind one hash byte for a channel, two for a peer, or a hash byte and a key, a received payload decrypts within a
   * buffer of the largest payload exactly up to 178 bytes and those; what passes the sender's size check is no longer.
   */
  lemma DecryptionRoom(head: nat, n: nat)
    requires head + CIPHER_MAC_SIZE < n <= MAX_PACKET_PAYLOAD
    ensures Ceil16(n - head - CIPHER_MAC_SIZE) <= MAX_PACKET_PAYLOAD <==> n <= 178 + head
    ensures n + head + 15 <= MAX_PACKET_PAYLOAD ==> head + CIPHER_MAC_SIZE + Ceil16(n) <= 178 + head
  {
  }

  /** The size check of createDatagram leaves room for the two hashes, the MAC and the padding. */
  lemma FitsPayload(n: nat)
    requires n + 2 + 15 <= MAX_PACKET_PAYLOAD
    ensures 2 + 2 + Ceil16(n) <= MAX_PACKET_PAYLOAD
  {
  }

  /** The text branch of onPeerDataRecv: the acknowledgement for the decrypted data, and its attempt byte. */
  method ReceiveText(p: Primitives, data: array<byte>, len: nat, sender: seq<byte>) returns (ack: seq<byte>)
    requires Sound(p) && data.Length == MAX_PACKET_PAYLOAD && 5 < len <= MAX_PACKET_PAYLOAD - 2 && data[4] / 4 == TXT_TYPE_PLAIN
    modifies data
    ensures data[..len] == old(data[..len])
    ensures var text := CString(old(data[5..len]));
            && |ack| == 5 && ack[..4] == AckHash(p, old(data[..5 + |text|]), sender)
            && (6 + |text| < len ==> ack[4] == old(data[6 + |text|]))
  {
    hide Sound;
    DigestSize(p);
    ghost var was := data[..len];
    data[len] := 0;
    assert data[..len] == was;
    var n := StrLen(data[..], 5);
    TextBeforeTerminator(data[..], was, len, n);
    assert old(data[5..len]) == was[5..] && old(data[..5 + n]) == was[..5 + n] == data[..5 + n];
    var h := p.sha256(data[..5 + n] + sender)[..4];
    ack := h + [data[5 + n + 1]];
  }

  /** The zero written behind the data ends the string at the data's own zero, or right behind them. */
  lemma TextBeforeTerminator(b: seq<byte>, was: seq<byte>, len: nat, n: nat)
    requires 5 < len < |b| && was == b[..len] && b[len] == 0
    requires n == |CString(b[5..])|
    ensures 5 + n <= len && CString(was[5..]) == b[5..5 + n] && |CString(was[5..])| == n
  {
    CStringShape(b[5..]);
    var c := CString(was[5..]);
    CStringShape(was[5..]);
    var m := |c|;
    assert was[5..] == b[5..len];
    if m < |was[5..]| {
      assert was[5..][m] == b[5 + m];
    } else {
      assert b[5 + m] == b[len];
    }
    assert b[5..][m] == b[5 + m];
    assert was[5..][..m] == c;
    assert b[5..][..m] == b[5..5 + m] == b[5..len][..m];
    CStringUnique(b[5..], m);
  }

  /** The acknowledgement that the receiver sends is the one that the sender waits for. */
  lemma AckAgreement(p: Primitives, stamp: seq<byte>, attempt: byte, text: seq<byte>, secret: seq<byte>, sender: seq<byte>)
    requires Sound(p) && |stamp| == 4 && |secret| == 32 && NoZero(text) && Acceptable(text, attempt)
    ensures var d := Opened(p, secret, Sealed(p, secret, MessageData(stamp, attempt, text)));
            && 5 < |d| <= 176 && d[4] / 4 == TXT_TYPE_PLAIN
            && CString(d[5..]) == text && d[..5 + |text|] == Covered(stamp, attempt, text)
            && (attempt > 3 ==> 6 + |text| < |d| && d[6 + |text|] == attempt)
  {
    hide Sealed, Opened, Encrypted, Decrypted;
    var m := MessageData(stamp, attempt, text);
    OpenSealed(p, secret, m);
    var d := m + Zeros(Ceil16(|m|) - |m|);
    DataSize(|m|);
    assert m[4] == attempt % 4 && d[4] == m[4];
    assert m[5..] == text + if attempt > 3 then [0, attempt] else [];
    assert d[..5 + |text|] == m[..5 + |text|];
    if 5 + |text| < |d| {
      assert d[5 + |text|] == 0;
      assert d[5..][..|text|] == text;
      assert NoZero(d[5..][..|text|]);
      CStringUnique(d[5..], |text|);
    } else {
      assert d[5..] == text;
      CStringWhole(text);
    }
  }

  lemma DataSize(n: nat)
    requires 5 <= n <= 165
    ensures 5 < Ceil16(n) <= 176
  {
  }

  lemma {:induction false} CStringWhole(s: seq<byte>)
    requires NoZero(s)
    ensures CString(s) == s
  {
    if |s| > 0 {
      assert NoZero(s[1..]) by {
        forall i | 0 <= i < |s| - 1
          ensures s[1..][i] != 0
        {
        }
      }
      CStringWhole(s[1..]);
    }
  }

  /** Both ends together: the datagram is opened, and the receiver's acknowledgement is the expected one. */
  method DeliverText(p: Primitives, pkt: Packet, secret: seq<byte>, sender: seq<byte>,
                     ghost stamp: seq<byte>, ghost attempt: byte, ghost text: seq<byte>, ghost hashes: seq<byte>) returns (ack: seq<byte>)
    requires Sound(p) && pkt.Shape() && |secret| == 32 && |stamp| == 4 && |hashes| == 2 && NoZero(text) && Acceptable(text, attempt)
    requires pkt.payloadLen <= MAX_PACKET_PAYLOAD
    requires pkt.payload[..pkt.payloadLen] == hashes + Sealed(p, secret, MessageData(stamp, attempt, text))
    ensures |ack| == 5 && ack[..4] == AckHash(p, Covered(stamp, attempt, text), sender)
    ensures attempt > 3 ==> ack[4] == attempt
  {
    hide Sealed, Opened, Sound, Ceil16, MessageData, Covered, CString, AckHash;
    ghost var m := MessageData(stamp, attempt, text);
    ghost var sealed := Sealed(p, secret, m);
    OpenSealed(p, secret, m);
    AckAgreement(p, stamp, attempt, text, secret, sender);
    SealedBlocks(|m|);
    var data := new byte[184];
    var src := pkt.payload[..];
    var n := pkt.payloadLen;
    assert src[2..n] == pkt.payload[..n][2..] == sealed;
    var len := MACThenDecrypt(p, secret, data, src, 2, n - 2);
    ghost var d := Opened(p, secret, sealed);
    OpenedLength(p, secret, m);
    assert data[..len] == d;
    assert data[4] == d[4] && data[5..len] == d[5..] && data[..5 + |text|] == d[..5 + |text|];
    ack := ReceiveText(p, data, len, sender);
  }

  lemma SealedBlocks(n: nat)
    ensures (2 + Ceil16(n) - 2) % 16 == 0 && Ceil16(2 + Ceil16(n) - 2) == Ceil16(n)
  {
  }

  lemma OpenedLength(p: Primitives, secret: seq<byte>, m: seq<byte>)
    requires Sound(p) && |secret| == 32
    ensures |Opened(p, secret, Sealed(p, secret, m))| == Ceil16(|m|)
  {
    OpenSealed(p, secret, m);
  }
}

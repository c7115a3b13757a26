/** How a node treats a received packet: onRecvPacket, routeRecvPacket, removeSelfFromPath and the senders of Mesh.cpp. */
module MeshRouting {
  import opened Arith
  import opened Bits
  import opened Buffers
  import opened Options
  import opened MeshPacket
  import opened MeshCrypto

  const PAYLOAD_TYPE_REQ: nat := 0
  const PAYLOAD_TYPE_RESPONSE: nat := 1
  const PAYLOAD_TYPE_ADVERT: nat := 4
  const PAYLOAD_TYPE_GRP_TXT: nat := 5
  const PAYLOAD_TYPE_GRP_DATA: nat := 6
  const PAYLOAD_TYPE_ANON_REQ: nat := 7
  const PAYLOAD_TYPE_MULTIPART: nat := 10
  const PAYLOAD_TYPE_CONTROL: nat := 11
  const PAYLOAD_TYPE_RAW_CUSTOM: nat := 15

  type Hash = seq<byte>

  datatype Action = Release | Retransmit(priority: nat)

  /** What an accepted path from a peer gives for the packet that goes back: the secret, the peer's path, random bytes. */
  datatype Peer = Peer(secret: seq<byte>, pathLen: byte, path: seq<byte>, random: seq<byte>)

  type KnownPeer = r: Peer | |r.secret| == 32 && |r.random| == 4 && |r.path| == PathByteLen(r.pathLen)
    witness Peer(seq(32, _ => 0), 0, [], seq(4, _ => 0))

  /** The payload's buffer and what lies behind it: fields of a short payload are read past its end. */
  type Memory = s: seq<byte> | |s| >= 280 witness seq(280, _ => 0)

  /** The answers of the hooks, of the contact database and of decryption for one packet, and the memory of its payload. */
  datatype Answers = Answers(
    allowForward: bool,
    filterFlood: bool,
    memory: Memory,
    snr: byte,
    forSelf: bool,
    ackForSelf: bool,
    pathFrom: Option<KnownPeer>,
    selfAdvert: bool,
    advertOk: bool,
    pool: nat,
    extraAcks: byte)

  /** What becomes of a packet, of the table, and which packets are sent besides. */
  datatype Outcome = Outcome(action: Action, pkt: View, seen: set<Hash>, sent: seq<View>)

  /** calculatePacketHash: type and payload; for TRACE also the path length. */
  function HashOf(p: Primitives, t: byte, pathLen: uint16, payload: seq<byte>): Hash
    requires Sound(p)
  {
    var trace := if t == PAYLOAD_TYPE_TRACE then LE16(pathLen) else [];
    var h := p.sha256([t] + trace + payload);
    assert |h| == 32;
    h[..8]
  }

  function PacketHash(p: Primitives, v: View): Hash
    requires Sound(p)
  {
    HashOf(p, PayloadType(v.header), v.pathLen, v.payload)
  }

  /** The path without its first entry. */
  function WithoutHead(v: View): View
    requires HashCount(v.pathLen) > 0 && |v.path| == PathByteLen(v.pathLen)
  {
    CountRange(v.pathLen);
    v.(pathLen := WithHashCount(v.pathLen, HashCount(v.pathLen) - 1), path := v.path[HashSize(v.pathLen)..])
  }

  lemma CountRange(p: byte)
    ensures HashCount(p) > 0 ==> WithHashCount(p, HashCount(p) - 1) == p - 1 && HashSize(p) <= PathByteLen(p)
    ensures HashCount(p) > 0 ==> HashSize(p - 1) == HashSize(p) && HashCount(p - 1) == HashCount(p) - 1
    ensures HashCount(p) > 0 ==> PathByteLen(p - 1) == PathByteLen(p) - HashSize(p)
  {
    hide WithHashCount;
    if p % 64 > 0 {
      assert (p % 64 - 1) * (p / 64 + 1) == (p % 64) * (p / 64 + 1) - (p / 64 + 1);
      MulMono(1, p % 64, p / 64 + 1);
      assert (p - 1) / 64 == p / 64 && (p - 1) % 64 == p % 64 - 1;
    }
  }

  /** The path with one more entry, as far as the count that is stored says. */
  function WithSelf(v: View, pub: seq<byte>): View
    requires |pub| == 32 && |v.path| == PathByteLen(v.pathLen)
  {
    NextCount(v.pathLen);
    var n := WithHashCount(v.pathLen, HashCount(v.pathLen) + 1);
    var q := v.path + pub[..HashSize(v.pathLen)];
    v.(pathLen := n, path := if PathByteLen(n) <= |q| then q[..PathByteLen(n)] else q)
  }

  lemma NextCount(p: byte)
    ensures HashCount(p) + 1 < 256 && 0 <= WithHashCount(p, HashCount(p) + 1) < 256
    ensures HashCount(p) < 63 ==> WithHashCount(p, HashCount(p) + 1) == p + 1
    ensures HashCount(p) < 63 ==> HashSize(p + 1) == HashSize(p) && HashCount(p + 1) == HashCount(p) + 1
    ensures HashCount(p) < 63 ==> PathByteLen(p + 1) == PathByteLen(p) + HashSize(p)
  {
    Pow2Small();
    hide And, Or, Pow2;
    HighMask(p);
    OrBound(p - p % 64, HashCount(p) + 1, 8);
    CountMasks(p, HashCount(p) + 1);
    if p % 64 < 63 {
      assert (p % 64 + 1) * (p / 64 + 1) == (p % 64) * (p / 64 + 1) + (p / 64 + 1);
      assert (p + 1) / 64 == p / 64 && (p + 1) % 64 == p % 64 + 1;
    }
  }

  /** The guard of routeRecvPacket. */
  predicate Floods(v: View, allow: bool) {
    && IsRouteFlood(v.header) && v.header != 0xff
    && (HashCount(v.pathLen) + 1) * HashSize(v.pathLen) <= MAX_PATH_SIZE && allow
  }

  /** routeRecvPacket. */
  function RouteFlood(v: View, pub: seq<byte>, allow: bool): (Action, View)
    requires |pub| == 32 && |v.path| == PathByteLen(v.pathLen)
  {
    if Floods(v, allow) then
      var w := WithSelf(v, pub);
      (Retransmit(HashCount(w.pathLen)), w)
    else (Release, v)
  }

  /** The acknowledgement that a direct hop sends on in place of the packet. */
  function AckCopy(v: View, payload: seq<byte>): View {
    View(4 * PAYLOAD_TYPE_ACK + 2, 0, 0, v.pathLen, v.path, payload)
  }

  /** One of several copies of an acknowledgement, and how many more are to come. */
  function MultiAck(v: View, payload: seq<byte>, remaining: byte): View {
    View(4 * PAYLOAD_TYPE_MULTIPART + 2, 0, 0, v.pathLen, v.path, [remaining % 16 * 16 + PAYLOAD_TYPE_ACK] + payload)
  }

  function AllAcks(v: View, payload: seq<byte>, extra: byte): (acks: seq<View>)
    ensures |acks| == extra + 1 && acks[extra] == AckCopy(v, payload)
    ensures forall k :: 0 <= k < extra ==> acks[k] == MultiAck(v, payload, extra - k)
  {
    if extra == 0 then [AckCopy(v, payload)] else [MultiAck(v, payload, extra)] + AllAcks(v, payload, extra - 1)
  }

  /** The acknowledgements that a direct hop sends, as far as the pool has packets; the extra ones need a byte more. */
  function Acks(v: View, payload: seq<byte>, pool: nat, extra: byte): seq<View> {
    var all := AllAcks(v, payload, if |payload| < MAX_PACKET_PAYLOAD then extra else 0);
    if pool < |all| then all[..pool] else all
  }

  predicate IsHashMatch(v: View, pub: seq<byte>)
    requires |pub| == 32 && |v.path| == PathByteLen(v.pathLen) && HashCount(v.pathLen) > 0
  {
    CountRange(v.pathLen);
    v.path[..HashSize(v.pathLen)] == pub[..HashSize(v.pathLen)]
  }

  /** The multipart packet without its first byte. */
  function Part(v: View): View
    requires |v.payload| > 0
  {
    v.(payload := v.payload[1..])
  }

  /** onAckRecv marks an acknowledgement that this node waits for, so that it is not sent on. */
  function Marked(v: View): View {
    v.(header := 0xff)
  }

  predicate IsAwaited(v: View, a: Answers) {
    PayloadType(v.header) == PAYLOAD_TYPE_ACK && |v.payload| >= 4 && a.ackForSelf
  }

  predicate IsMultipartAck(v: View) {
    |v.payload| >= 5 && v.payload[0] % 16 == PAYLOAD_TYPE_ACK
  }

  /** What createPathReturn encrypts. */
  ghost function PathData(pathLen: byte, path: seq<byte>, extraType: byte, extra: seq<byte>, random: seq<byte>): seq<byte> {
    [pathLen] + path + if |extra| > 0 then [extraType] + extra else [0xff] + random
  }

  /** A direct packet with hops left, marked or not, at a node. */
  ghost function AtHead(p: Primitives, pub: seq<byte>, seen: set<Hash>, v: View, a: Answers): Outcome
    requires Sound(p) && |pub| == 32 && |v.path| == PathByteLen(v.pathLen) && HashCount(v.pathLen) > 0
  {
    var t, h := PayloadType(v.header), PacketHash(p, v);
    if !(IsHashMatch(v, pub) && a.allowForward) then Outcome(Release, v, seen, [])
    else if t == PAYLOAD_TYPE_MULTIPART then
      if IsMultipartAck(v) then
        var part := Part(v);
        var hp := PacketHash(p, part);
        if hp in seen then Outcome(Release, v, seen, [])
        else Outcome(Release, v, seen + {hp}, Acks(WithoutHead(part), part.payload, a.pool, a.extraAcks))
      else Outcome(Release, v, seen, [])
    else if h in seen then Outcome(Release, v, seen, [])
    else if t == PAYLOAD_TYPE_ACK then
      Outcome(Release, WithoutHead(v), seen + {h}, Acks(WithoutHead(v), v.payload, a.pool, a.extraAcks))
    else Outcome(Retransmit(0), WithoutHead(v), seen + {h}, [])
  }

  /**
   * The mark of an awaited acknowledgement is set before the head of the path is looked at, and takes away the type
   * that would have stopped it.
   */
  ghost function OnDirect(p: Primitives, pub: seq<byte>, seen: set<Hash>, v: View, a: Answers): Outcome
    requires Sound(p) && |pub| == 32 && |v.path| == PathByteLen(v.pathLen) && HashCount(v.pathLen) > 0
  {
    AtHead(p, pub, seen, if IsAwaited(v, a) then Marked(v) else v, a)
  }

  /** The packet that goes back when a flooded path for this node is accepted, and its hash. */
  ghost function PathBack(p: Primitives, pub: seq<byte>, v: View, a: Answers): Option<View>
    requires Sound(p) && |pub| == 32
  {
    if PayloadType(v.header) == PAYLOAD_TYPE_PATH && IsRouteFlood(v.header) && |v.payload| > 4 && a.forSelf && a.pathFrom.Some?
       && a.pool > 0 && HashCount(v.pathLen) * HashSize(v.pathLen) + 5 <= MAX_COMBINED_PATH
    then
      var r := a.pathFrom.value;
      var payload := [v.payload[1], pub[0]] + Sealed(p, r.secret, PathData(v.pathLen, v.path, 0, [], r.random));
      Some(Addressed(View(4 * PAYLOAD_TYPE_PATH, 0, 0, 0, [], payload), r.path, r.pathLen))
    else None
  }

  ghost function HashesOf(p: Primitives, o: Option<View>): set<Hash>
    requires Sound(p)
  {
    if o.Some? then {PacketHash(p, o.value)} else {}
  }

  /** sendPacket gives up a packet whose path length is invalid. */
  ghost function Sendable(o: Option<View>): seq<View> {
    if o.Some? && IsValidPathLen(o.value.pathLen) then [o.value] else []
  }

  /** A packet that has arrived, or floods: by payload type. */
  ghost function OnArrival(p: Primitives, pub: seq<byte>, seen: set<Hash>, v: View, a: Answers): Outcome
    requires Sound(p) && |pub| == 32 && |v.path| == PathByteLen(v.pathLen)
  {
    var t, h, n := PayloadType(v.header), PacketHash(p, v), |v.payload|;
    var routed := RouteFlood(v, pub, a.allowForward);
    var marked := if a.forSelf then (Release, Marked(v)) else routed;
    var back := PathBack(p, pub, v, a);
    if t == PAYLOAD_TYPE_MULTIPART then
      if IsMultipartAck(v) then Outcome(Release, v, seen + {PacketHash(p, Part(v))}, []) else Outcome(Release, v, seen, [])
    else if t == PAYLOAD_TYPE_RAW_CUSTOM then
      Outcome(Release, v, if IsRouteDirect(v.header) then seen + {h} else seen, [])
    else if h in seen then Outcome(Release, v, seen, [])
    else if t == PAYLOAD_TYPE_ACK then
      if n < 4 then Outcome(Release, v, seen, [])
      else if a.ackForSelf then Outcome(Release, Marked(v), seen + {h}, [])
      else Outcome(routed.0, routed.1, seen + {h}, [])
    else if t == PAYLOAD_TYPE_PATH || t == PAYLOAD_TYPE_REQ || t == PAYLOAD_TYPE_RESPONSE || t == PAYLOAD_TYPE_TXT_MSG then
      if n <= 4 then Outcome(Release, v, seen, [])
      else Outcome(marked.0, marked.1, seen + {h} + HashesOf(p, back), Sendable(back))
    else if t == PAYLOAD_TYPE_ANON_REQ then
      if n <= 35 then Outcome(Release, v, seen, []) else Outcome(marked.0, marked.1, seen + {h}, [])
    else if t == PAYLOAD_TYPE_GRP_DATA || t == PAYLOAD_TYPE_GRP_TXT then
      if n <= 3 then Outcome(Release, v, seen, []) else Outcome(routed.0, routed.1, seen + {h}, [])
    else if t == PAYLOAD_TYPE_ADVERT then
      if n < 100 || a.selfAdvert then Outcome(Release, v, seen, [])
      else if a.advertOk then Outcome(routed.0, routed.1, seen + {h}, []) else Outcome(Release, v, seen + {h}, [])
    else Outcome(Release, v, seen, [])
  }

  /** One more signal-to-noise reading in the path of a TRACE. */
  function WithReading(v: View, snr: byte): View
    requires v.pathLen < 64 && |v.path| == PathByteLen(v.pathLen)
  {
    v.(pathLen := v.pathLen + 1, path := if v.pathLen < 63 then v.path + [snr] else [])
  }

  /** The size of a TRACE's entries: 1, 2, 4 or 8 bytes. */
  function EntrySize(flags: byte): nat {
    if flags % 4 == 0 then 1 else if flags % 4 == 1 then 2 else if flags % 4 == 2 then 4 else 8
  }

  /** A TRACE with n readings has this node as its next entry: the route is not used up, and the entry is a prefix of the key. */
  predicate TraceIsHere(v: View, pub: seq<byte>, memory: Memory)
    requires |pub| == 32
  {
    var size := EntrySize(memory[8]);
    var from := 9 + v.pathLen * size;
    v.pathLen * size < (|v.payload| - 9) % 256 && memory[from..from + size] == pub[..size]
  }

  ghost function HashesIn(p: Primitives, replies: seq<View>): set<Hash>
    requires Sound(p)
  {
    set r | r in replies :: PacketHash(p, r)
  }

  /** An acknowledgement with hops left. */
  ghost predicate HookFirst(v: View) {
    IsRouteDirect(v.header) && HashCount(v.pathLen) > 0 && PayloadType(v.header) == PAYLOAD_TYPE_ACK && |v.payload| >= 4
  }

  /** onRecvPacket. */
  ghost function OnRecv(p: Primitives, pub: seq<byte>, seen: set<Hash>, v: View, a: Answers): Outcome
    requires Sound(p) && |pub| == 32 && |v.path| == PathByteLen(v.pathLen)
  {
    var t, direct := PayloadType(v.header), IsRouteDirect(v.header);
    if direct && t == PAYLOAD_TYPE_TRACE then
      if v.pathLen < 64 && TraceIsHere(v, pub, a.memory) && a.allowForward && PacketHash(p, v) !in seen then
        Outcome(Retransmit(5), WithReading(v, a.snr), seen + {PacketHash(p, v)}, [])
      else Outcome(Release, v, seen, [])
    else if direct && t == PAYLOAD_TYPE_CONTROL && a.memory[0] >= 128 then Outcome(Release, v, seen, [])
    else if direct && HashCount(v.pathLen) > 0 then OnDirect(p, pub, seen, v, a)
    else if IsRouteFlood(v.header) && a.filterFlood then Outcome(Release, v, seen, [])
    else OnArrival(p, pub, seen, v, a)
  }

  // -------------------------------------------------------------------------
  // The same on packet objects
  // -------------------------------------------------------------------------

  lemma PacketView(pkt: Packet)
    requires pkt.Valid()
    ensures var codes := HasTransportCodes(pkt.header);
            pkt.Contents() == View(pkt.header, if codes then pkt.code0 else 0, if codes then pkt.code1 else 0, pkt.pathLen,
                                   pkt.path[..PathByteLen(pkt.pathLen)], pkt.payload[..pkt.payloadLen])
    ensures |pkt.Contents().path| == PathByteLen(pkt.pathLen)
  {
    ValidLen(pkt.pathLen);
    hide PathByteLen, IsValidPathLen, HasTransportCodes;
  }

  /** calculatePacketHash of an object: its type, its path length for TRACE, and its payload. */
  method CalculatePacketHash(p: Primitives, pkt: Packet) returns (h: Hash)
    requires Sound(p) && pkt.Shape() && pkt.payloadLen <= MAX_PACKET_PAYLOAD
    ensures h == HashOf(p, PayloadType(pkt.header), pkt.pathLen, pkt.payload[..pkt.payloadLen])
  {
    DigestSize(p);
    var t := PayloadType(pkt.header);
    var input := [t];
    if t == PAYLOAD_TYPE_TRACE {
      input := input + LE16(pkt.pathLen);
    } else {
      assert input == input + [];
    }
    h := p.sha256(input + pkt.payload[..pkt.payloadLen])[..8];
  }

  lemma HashView(p: Primitives, pkt: Packet)
    requires Sound(p) && pkt.Valid()
    ensures PacketHash(p, pkt.Contents()) == HashOf(p, PayloadType(pkt.header), pkt.pathLen, pkt.payload[..pkt.payloadLen])
  {
    PacketView(pkt);
    hide HashOf, PathByteLen, IsValidPathLen, HasTransportCodes;
  }

  // What the hash tells apart.

  /** The digest's input: type, the path length of a TRACE in two bytes, payload. */
  ghost function HashInput(v: View): seq<byte> {
    [PayloadType(v.header)] + (if PayloadType(v.header) == PAYLOAD_TYPE_TRACE then LE16(v.pathLen) else []) + v.payload
  }

  lemma SameInput(v: View, w: View)
    ensures HashInput(v) == HashInput(w) <==>
            PayloadType(v.header) == PayloadType(w.header) && v.payload == w.payload
            && (PayloadType(v.header) == PAYLOAD_TYPE_TRACE ==> v.pathLen == w.pathLen)
  {
    hide PayloadType, LE16;
    var a, b := HashInput(v), HashInput(w);
    if a == b {
      assert a[0] == b[0];
      var n := if PayloadType(v.header) == PAYLOAD_TYPE_TRACE then 3 else 1;
      assert a[n..] == v.payload && b[n..] == w.payload;
      if n == 3 {
        assert a[1..3] == LE16(v.pathLen) && b[1..3] == LE16(w.pathLen);
        LE16Injective(v.pathLen, w.pathLen);
      }
    }
  }

  lemma LE16Injective(x: uint16, y: uint16)
    requires LE16(x) == LE16(y)
    ensures x == y
  {
    assert LE16(x)[0] == LE16(y)[0] && LE16(x)[1] == LE16(y)[1];
  }

  /** Packets have the same hash under every digest exactly if type and payload are the same, and for TRACE the count of readings. */
  lemma HashTellsApart(v: View, w: View)
    ensures (forall p | Sound(p) :: PacketHash(p, v) == PacketHash(p, w)) <==>
            PayloadType(v.header) == PayloadType(w.header) && v.payload == w.payload
            && (PayloadType(v.header) == PAYLOAD_TYPE_TRACE ==> v.pathLen == w.pathLen)
  {
    hide PayloadType, LE16;
    SameInput(v, w);
    if forall p | Sound(p) :: PacketHash(p, v) == PacketHash(p, w) {
      var p := Telling(HashInput(v));
      assert PacketHash(p, v) == PacketHash(p, w);
      assert PacketHash(p, v)[0] == 1;
      assert HashInput(w) == HashInput(v);
    }
  }

  /** removeSelfFromPath: the count goes down, and the entries move up by one. */
  method RemoveSelfFromPath(pkt: Packet)
    requires pkt.Valid() && HashCount(pkt.pathLen) > 0
    modifies pkt, pkt.path
    ensures pkt.Valid() && pkt.Contents() == WithoutHead(old(pkt.Contents()))
    ensures pkt.header == old(pkt.header) && pkt.payloadLen == old(pkt.payloadLen)
  {
    hide PathByteLen, IsValidPathLen, HasTransportCodes, WithHashCount, HashCount, HashSize;
    PacketView(pkt);
    CountRange(pkt.pathLen);
    CountBelow(pkt.pathLen);
    ghost var was := pkt.path[..PathByteLen(pkt.pathLen)];
    pkt.pathLen := WithHashCount(pkt.pathLen, HashCount(pkt.pathLen) - 1);
    CountBelow(pkt.pathLen);
    var sz := HashSize(pkt.pathLen);
    ShiftPath(pkt.path, HashCount(pkt.pathLen), sz);
    PacketView(pkt);
    assert pkt.path[..PathByteLen(pkt.pathLen)] == was[sz..];
  }

  lemma CountBelow(p: byte)
    requires IsValidPathLen(p)
    ensures HashCount(p) <= 63 && 1 <= HashSize(p) <= 3 && PathByteLen(p) == HashCount(p) * HashSize(p) <= 64
    ensures HashCount(p) > 0 ==> IsValidPathLen(p - 1)
  {
    if HashCount(p) > 0 {
      CountRange(p);
      MulMono(HashCount(p) - 1, HashCount(p), HashSize(p));
    }
  }

  /** The loop of removeSelfFromPath moves every entry up by one place. */
  method ShiftPath(path: array<byte>, c: nat, sz: nat)
    requires path.Length == MAX_PATH_SIZE && 1 <= sz <= 3 && 0 <= c * sz && c * sz + sz <= MAX_PATH_SIZE
    modifies path
    ensures path[..c * sz] == old(path[sz..sz + c * sz])
  {
    ghost var was, q := path[..], 0;
    var end := c * sz;
    var k := 0;
    while k < end
      invariant 0 <= k <= end && 0 <= q <= c && k == q * sz
      invariant path[..k] == was[sz..sz + k] && path[k..] == was[k..]
    {
      NextEntry(c, sz, q);
      ghost var now := path[..];
      OneMoved(now, was, k, sz);
      assert path[..k] == now[..k] && path[k + sz..k + 2 * sz] == now[k + sz..k + 2 * sz] && path[k + sz..] == now[k + sz..];
      MoveEntry(path, k, sz);
      k, q := k + sz, q + 1;
    }
  }

  /** With k bytes moved up by sz, the next sz ones are still the old ones. */
  lemma OneMoved(now: seq<byte>, was: seq<byte>, k: nat, sz: nat)
    requires |now| == |was| && k + 2 * sz <= |was| && now[..k] == was[sz..sz + k] && now[k..] == was[k..]
    ensures now[..k] + now[k + sz..k + 2 * sz] == was[sz..sz + (k + sz)] && now[k + sz..] == was[k + sz..]
  {
    assert now[k + sz..] == now[k..][sz..] && was[k + sz..] == was[k..][sz..];
    assert now[k + sz..k + 2 * sz] == now[k..][sz..2 * sz] && was[k + sz..k + 2 * sz] == was[k..][sz..2 * sz];
    assert was[sz..sz + (k + sz)] == was[sz..sz + k] + was[k + sz..k + 2 * sz];
  }

  lemma NextEntry(c: nat, sz: nat, q: nat)
    requires sz >= 1 && q * sz < c * sz
    ensures q < c && (q + 1) * sz == q * sz + sz <= c * sz
  {
    if q >= c {
      MulMono(c, q, sz);
    }
    MulMono(q + 1, c, sz);
  }

  /** One entry is replaced by the next one. */
  method MoveEntry(path: array<byte>, k: nat, sz: nat)
    requires path.Length == MAX_PATH_SIZE && k + 2 * sz <= MAX_PATH_SIZE
    modifies path
    ensures path[..k + sz] == old(path[..k]) + old(path[k + sz..k + 2 * sz]) && path[k + sz..] == old(path[k + sz..])
  {
    ghost var was := path[..];
    for j := 0 to sz
      invariant path[..k + j] == was[..k] + was[k + sz..k + sz + j] && path[k + sz..] == was[k + sz..]
    {
      assert path[k + sz + j] == path[k + sz..][j];
      path[k + j] := path[k + sz + j];
    }
  }

  /** routeRecvPacket. */
  method RouteRecvPacket(pkt: Packet, pub: seq<byte>, allow: bool) returns (action: Action)
    requires pkt.Valid() && |pub| == 32
    modifies pkt, pkt.path
    ensures pkt.Valid() && (action, pkt.Contents()) == RouteFlood(old(pkt.Contents()), pub, allow)
  {
    hide PathByteLen, IsValidPathLen, HasTransportCodes, WithHashCount, HashCount, HashSize, IsRouteFlood, WithSelf;
    PacketView(pkt);
    CountBelow(pkt.pathLen);
    ghost var v := pkt.Contents();
    var n, sz := HashCount(pkt.pathLen), HashSize(pkt.pathLen);
    if IsRouteFlood(pkt.header) && pkt.header != 0xff && (n + 1) * sz <= MAX_PATH_SIZE && allow {
      AppendRoom(pkt.pathLen, n, sz);
      NextCount(pkt.pathLen);
      PutBytes(pkt.path, n * sz, pub[..sz]);
      pkt.pathLen := WithHashCount(pkt.pathLen, n + 1);
      PacketView(pkt);
      WithSelfView(v, pub, pkt.path[..]);
      action := Retransmit(HashCount(pkt.pathLen));
    } else {
      action := Release;
    }
  }

  lemma AppendRoom(p: byte, n: nat, sz: nat)
    requires IsValidPathLen(p) && n == HashCount(p) && sz == HashSize(p) && (n + 1) * sz <= MAX_PATH_SIZE
    ensures n * sz == PathByteLen(p) && n * sz + sz <= MAX_PATH_SIZE
    ensures 0 <= WithHashCount(p, n + 1) < 256 && IsValidPathLen(WithHashCount(p, n + 1))
    ensures PathByteLen(WithHashCount(p, n + 1)) <= n * sz + sz
  {
    NextCount(p);
    CountBelow(p);
    assert (n + 1) * sz == n * sz + sz;
    if n == 63 {
      LastCount(p);
    } else {
      hide WithHashCount;
      assert HashCount(p + 1) * HashSize(p + 1) == (n + 1) * sz;
    }
  }

  /** 64 does not fit the six bits of the count: a 64th entry turns into size 2 and count 0. */
  lemma LastCount(p: byte)
    requires HashCount(p) == 63 && HashSize(p) == 1
    ensures WithHashCount(p, 64) == 64 && HashSize(64) == 2 && HashCount(64) == 0 && PathByteLen(64) == 0 && IsValidPathLen(64)
  {
    hide And, Or;
    HighMask(p);
    assert p - p % 64 == 0;
    OrOfZero(64);
  }

  lemma OrOfZero(n: nat)
    ensures Or(0, n) == n
  {
  }

  lemma WithSelfView(v: View, pub: seq<byte>, path: seq<byte>)
    requires |pub| == 32 && |v.path| == PathByteLen(v.pathLen) && |path| == MAX_PATH_SIZE && IsValidPathLen(v.pathLen)
    requires (HashCount(v.pathLen) + 1) * HashSize(v.pathLen) <= MAX_PATH_SIZE
    requires |v.path| + HashSize(v.pathLen) <= MAX_PATH_SIZE && path[..|v.path| + HashSize(v.pathLen)] == v.path + pub[..HashSize(v.pathLen)]
    requires 0 <= WithHashCount(v.pathLen, HashCount(v.pathLen) + 1) < 256
    ensures var q := WithHashCount(v.pathLen, HashCount(v.pathLen) + 1);
            PathByteLen(q) <= MAX_PATH_SIZE && WithSelf(v, pub) == v.(pathLen := q, path := path[..PathByteLen(q)])
  {
    AppendRoom(v.pathLen, HashCount(v.pathLen), HashSize(v.pathLen));
    NextCount(v.pathLen);
    hide PathByteLen, IsValidPathLen, WithHashCount, HashCount, HashSize;
    var q := WithHashCount(v.pathLen, HashCount(v.pathLen) + 1);
    assert path[..PathByteLen(q)] == path[..|v.path| + HashSize(v.pathLen)][..PathByteLen(q)];
  }

  /** routeDirectRecvAcks: the extra copies, then the acknowledgement; each takes a packet from the pool. */
  method RouteDirectRecvAcks(pkt: Packet, pool: nat, extra: byte) returns (sent: seq<View>)
    requires pkt.Valid()
    ensures sent == if pkt.header == 0xff then [] else Acks(pkt.Contents(), pkt.Contents().payload, pool, extra)
  {
    hide Acks;
    PacketView(pkt);
    if pkt.header == 0xff {
      return [];
    }
    ghost var v := pkt.Contents();
    sent := [];
    var left, e := pool, extra;
    while e > 0
      invariant sent + Acks(v, v.payload, left, e) == Acks(v, v.payload, pool, extra)
    {
      AcksStep(v, v.payload, left, e);
      if left > 0 && 1 + pkt.payloadLen <= MAX_PACKET_PAYLOAD {
        AckNibble(e);
        ghost var before := sent;
        var header: byte := 4 * PAYLOAD_TYPE_MULTIPART;
        sent := sent + [View(header - header % 4 + 2, 0, 0, pkt.pathLen, pkt.path[..PathByteLen(pkt.pathLen)],
                             [Or(Shl(e, 4) % 256, PAYLOAD_TYPE_ACK)] + pkt.payload[..pkt.payloadLen])];
        left := left - 1;
        assert before + ([MultiAck(v, v.payload, e)] + Acks(v, v.payload, left, e - 1)) == sent + Acks(v, v.payload, left, e - 1);
      }
      e := e - 1;
    }
    LastAck(v, v.payload, left);
    if left > 0 {
      var header: byte := 4 * PAYLOAD_TYPE_ACK;
      sent := sent + [View(header - header % 4 + 2, 0, 0, pkt.pathLen, pkt.path[..PathByteLen(pkt.pathLen)], pkt.payload[..pkt.payloadLen])];
    }
  }

  lemma AcksStep(v: View, payload: seq<byte>, pool: nat, extra: byte)
    requires extra > 0
    ensures Acks(v, payload, pool, extra)
            == if pool > 0 && |payload| < MAX_PACKET_PAYLOAD then [MultiAck(v, payload, extra)] + Acks(v, payload, pool - 1, extra - 1)
               else Acks(v, payload, pool, extra - 1)
  {
    hide MultiAck, AckCopy;
  }

  lemma LastAck(v: View, payload: seq<byte>, pool: nat)
    ensures Acks(v, payload, pool, 0) == if pool > 0 then [AckCopy(v, payload)] else []
  {
  }

  lemma AckNibble(e: byte)
    ensures Or(Shl(e, 4) % 256, PAYLOAD_TYPE_ACK) == e % 16 * 16 + PAYLOAD_TYPE_ACK
  {
    Pow2Small();
    hide Pow2, Or;
    NibbleUp(e);
    OrComm(Shl(e % 16, 4), PAYLOAD_TYPE_ACK);
    OrIsSum(PAYLOAD_TYPE_ACK, e % 16, 4);
  }

  lemma NibbleUp(e: nat)
    ensures Shl(e, 4) % 256 == Shl(e % 16, 4)
  {
    Pow2Small();
    hide Pow2;
    DivModUnique(e * 16, 256, e / 16, e % 16 * 16);
  }

  /** The low two bits of the header are replaced. */
  lemma RouteHeader(h: byte, r: nat)
    requires r < 4
    ensures And(h, 252) == h - h % 4 && Or(And(h, 252), r) == h - h % 4 + r && h - h % 4 + r < 256
    ensures RouteType(h - h % 4 + r) == r && PayloadType(h - h % 4 + r) == PayloadType(h) && PayloadVer(h - h % 4 + r) == PayloadVer(h)
  {
    RouteBits(h, r);
    LowTwo(h, r);
    hide *;
  }

  lemma LowTwo(h: nat, r: nat)
    requires r < 4 && h < 256
    ensures (h - h % 4 + r) % 4 == r && (h - h % 4 + r) / 4 == h / 4 && (h - h % 4 + r) / 64 == h / 64 && h - h % 4 + r < 256
  {
  }

  lemma RouteBits(h: nat, r: nat)
    requires r < 4 && h < 256
    ensures And(h, 252) == h - h % 4 && Or(And(h, 252), r) == h - h % 4 + r
  {
    Pow2Small();
    hide And, Or, Pow2;
    AndEven(h, 126);
    AndEven(h / 2, 63);
    MaskIsMod(h / 4, 6);
    OrIsSum(r, h / 4, 2);
    OrComm(r, Shl(h / 4, 2));
  }

  /** The header with another route. */
  function Routed(h: byte, r: nat): (b: byte)
    requires r < 4
    ensures RouteType(b) == r && PayloadType(b) == PayloadType(h) && PayloadVer(b) == PayloadVer(h)
  {
    RouteHeader(h, r);
    Or(And(h, 252), r)
  }

  lemma CodesByRoute(h: byte)
    ensures HasTransportCodes(h) <==> RouteType(h) == 0 || RouteType(h) == 3
  {
  }

  function Directed(v: View, path: seq<byte>, pathLen: byte): View {
    v.(header := Routed(v.header, 2), pathLen := pathLen, path := path, code0 := 0, code1 := 0)
  }

  /** What sendDirect adds to the payload: the route of a TRACE. */
  ghost function RouteSent(header: byte, path: seq<byte>, pathLen: byte): (s: seq<byte>)
    requires Reaches(header, path, pathLen)
    ensures PayloadType(header) != PAYLOAD_TYPE_TRACE ==> s == []
    ensures PayloadType(header) == PAYLOAD_TYPE_TRACE ==> |s| == pathLen <= |path| && forall k :: 0 <= k < pathLen ==> s[k] == path[k]
  {
    if PayloadType(header) == PAYLOAD_TYPE_TRACE then path[..pathLen] else []
  }

  /** The bytes that sendDirect reads of a path are there. */
  ghost predicate Reaches(header: byte, path: seq<byte>, pathLen: byte) {
    if PayloadType(header) == PAYLOAD_TYPE_TRACE then pathLen <= |path|
    else HashCount(pathLen) * HashSize(pathLen) <= MAX_PATH_SIZE ==> PathByteLen(pathLen) <= |path|
  }

  /** What sendDirect makes of a packet: a TRACE carries the route at the end of its payload. */
  ghost function Addressed(v: View, path: seq<byte>, pathLen: byte): View
    requires Reaches(v.header, path, pathLen)
  {
    if PayloadType(v.header) == PAYLOAD_TYPE_TRACE then Directed(v, [], 0).(payload := v.payload + path[..pathLen])
    else Directed(v, if IsValidPathLen(pathLen) then path[..PathByteLen(pathLen)] else [], pathLen)
  }

  /** The data of createPathReturn. */
  method PathBytes(path: seq<byte>, pathLen: byte, extraType: byte, extra: seq<byte>, random: seq<byte>) returns (data: seq<byte>)
    requires |random| == 4
    ensures data == PathData(pathLen, path, extraType, extra, random) && |data| <= 6 + |path| + |extra|
  {
    data := [pathLen] + path;
    if |extra| > 0 {
      data := data + [extraType] + extra;
      assert data == [pathLen] + path + ([extraType] + extra);
    } else {
      data := data + [0xff] + random;
      assert data == [pathLen] + path + ([0xff] + random);
    }
  }

  /** createPathReturn. */
  method CreatePathReturn(p: Primitives, pkt: Packet, destHash: byte, selfHash: byte, secret: seq<byte>, path: seq<byte>, pathLen: byte,
                          extraType: byte, extra: seq<byte>, random: seq<byte>, poolEmpty: bool) returns (ok: bool)
    requires Sound(p) && pkt.Shape() && |secret| == 32 && |random| == 4 && |path| >= HashCount(pathLen) * HashSize(pathLen)
    modifies pkt, pkt.payload
    ensures ok <==> HashCount(pathLen) * HashSize(pathLen) + |extra| + 5 <= MAX_COMBINED_PATH && !poolEmpty
    ensures ok ==> pkt.header == 4 * PAYLOAD_TYPE_PATH && pkt.payloadLen <= MAX_PACKET_PAYLOAD
    ensures ok ==> pkt.payload[..pkt.payloadLen] == [destHash, selfHash]
                   + Sealed(p, secret, PathData(pathLen, path[..HashCount(pathLen) * HashSize(pathLen)], extraType, extra, random))
  {
    hide Sealed, Sound, Ceil16, PathData;
    var n := HashCount(pathLen) * HashSize(pathLen);
    if n + |extra| + 5 > MAX_COMBINED_PATH || poolEmpty {
      return false;
    }
    pkt.header := 4 * PAYLOAD_TYPE_PATH;
    pkt.payload[0], pkt.payload[1] := destHash, selfHash;
    assert pkt.payload[..2] == [destHash, selfHash];
    var data := PathBytes(path[..n], pathLen, extraType, extra, random);
    ReturnFits(|data|);
    var m := EncryptThenMAC(p, secret, pkt.payload, 2, data);
    pkt.payloadLen := 2 + m;
    ok := true;
  }

  lemma ReturnFits(n: nat)
    requires n <= 168
    ensures 2 + 2 + Ceil16(n) <= MAX_PACKET_PAYLOAD
  {
  }

  /** markDoNotRetransmit, of a packet without codes that its header does not announce. */
  method MarkPacket(pkt: Packet)
    requires pkt.Valid() && pkt.Clear()
    modifies pkt`header
    ensures pkt.Valid() && pkt.Contents() == Marked(old(pkt.Contents()))
  {
    hide PathByteLen, IsValidPathLen;
    PacketView(pkt);
    pkt.header := 0xff;
    PacketView(pkt);
  }

  /** The reading that a TRACE packet collects. */
  method AppendReading(pkt: Packet, snr: byte)
    requires pkt.Valid() && pkt.pathLen < MAX_PATH_SIZE
    modifies pkt, pkt.path
    ensures pkt.Valid() && pkt.Contents() == WithReading(old(pkt.Contents()), snr)
  {
    hide PathByteLen, IsValidPathLen, HasTransportCodes, WithReading;
    PacketView(pkt);
    ghost var v := pkt.Contents();
    OneByteEntries(pkt.pathLen);
    TraceRoom(pkt.pathLen);
    pkt.path[pkt.pathLen] := snr;
    pkt.pathLen := pkt.pathLen + 1;
    PacketView(pkt);
    WithReadingView(v, snr, pkt.path[..]);
  }

  class Mesh {
    const pub: seq<byte>
    var seen: set<Hash>

    constructor (pub: seq<byte>)
      ensures this.pub == pub && seen == {}
    {
      this.pub := pub;
      seen := {};
    }

    /** hasSeen: an exact test and set. */
    method HasSeen(p: Primitives, pkt: Packet) returns (b: bool)
      requires Sound(p) && pkt.Shape() && pkt.payloadLen <= MAX_PACKET_PAYLOAD
      modifies this
      ensures var h := HashOf(p, PayloadType(pkt.header), pkt.pathLen, pkt.payload[..pkt.payloadLen]);
              (b <==> h in old(seen)) && seen == old(seen) + {h} && (pkt.Valid() ==> h == PacketHash(p, pkt.Contents()))
    {
      hide HashOf;
      if pkt.Valid() {
        HashView(p, pkt);
      }
      var h := CalculatePacketHash(p, pkt);
      b := h in seen;
      seen := seen + {h};
    }

    /** sendDirect, but for the queue: the route becomes direct, the path the one given, and the packet counts as seen. */
    method SendDirect(p: Primitives, pkt: Packet, path: array<byte>, pathLen: byte) returns (priority: nat)
      requires Sound(p) && pkt.Shape() && pkt.payloadLen <= MAX_PACKET_PAYLOAD && path != pkt.path && path != pkt.payload
      requires Reaches(pkt.header, path[..], pathLen)
      requires PayloadType(pkt.header) == PAYLOAD_TYPE_TRACE ==> pkt.payloadLen + pathLen <= MAX_PACKET_PAYLOAD
      modifies this, pkt, pkt.path, pkt.payload
      ensures var w := Addressed(View(old(pkt.header), 0, 0, 0, [], old(pkt.payload[..pkt.payloadLen])), old(path[..]), pathLen);
              && seen == old(seen) + {PacketHash(p, w)} && pkt.pathLen == w.pathLen
              && (IsValidPathLen(w.pathLen) ==> pkt.Valid() && pkt.Contents() == w)
      ensures var t := PayloadType(old(pkt.header));
              priority == if t == PAYLOAD_TYPE_TRACE then 5 else if t == PAYLOAD_TYPE_PATH then 1 else 0
      ensures RouteType(pkt.header) == 2 && PayloadType(pkt.header) == PayloadType(old(pkt.header))
              && PayloadVer(pkt.header) == PayloadVer(old(pkt.header))
      ensures pkt.Shape() && pkt.payloadLen <= MAX_PACKET_PAYLOAD
      ensures pkt.payload[..pkt.payloadLen] == old(pkt.payload[..pkt.payloadLen]) + RouteSent(old(pkt.header), old(path[..]), pathLen)
    {
      hide PathByteLen, IsValidPathLen, HasTransportCodes, HashCount, HashSize, HashOf, Sound, PayloadType, PayloadVer, RouteType, Routed;
      ghost var v := View(pkt.header, 0, 0, 0, [], pkt.payload[..pkt.payloadLen]);
      ghost var w := Addressed(v, path[..], pathLen);
      pkt.header := Routed(pkt.header, 2);
      CodesByRoute(pkt.header);
      if PayloadType(pkt.header) == PAYLOAD_TYPE_TRACE {
        PutBytes(pkt.payload, pkt.payloadLen, path[..pathLen]);
        pkt.payloadLen := pkt.payloadLen + pathLen;
        pkt.pathLen := 0;
        priority := 5;
      } else {
        var _ := WritePath(pkt.path, 0, path, 0, pathLen);
        pkt.pathLen := pathLen;
        priority := if PayloadType(pkt.header) == PAYLOAD_TYPE_PATH then 1 else 0;
      }
      EmptyPathLen();
      if IsValidPathLen(pkt.pathLen) {
        ValidLen(pkt.pathLen);
      }
      AddressedView(pkt, w);
      var _ := HasSeen(p, pkt);
    }

    /** The packet that goes back to a peer whose flooded path was accepted. */
    method AnswerPath(p: Primitives, pkt: Packet, a: Answers) returns (sent: seq<View>)
      requires Sound(p) && pkt.Valid() && |pub| == 32 && 4 < pkt.payloadLen
      requires PayloadType(pkt.header) == PAYLOAD_TYPE_PATH && IsRouteFlood(pkt.header) && a.forSelf && a.pathFrom.Some?
      modifies this
      ensures var back := PathBack(p, pub, pkt.Contents(), a); seen == old(seen) + HashesOf(p, back) && sent == Sendable(back)
    {
      hide PathByteLen, IsValidPathLen, HasTransportCodes, HashCount, HashSize, HashOf, Sound, RouteType, Routed, Sealed, PathData, IsRouteFlood;
      PacketView(pkt);
      CountBelow(pkt.pathLen);
      var r := a.pathFrom.value;
      var rpath := new Packet();
      assert pkt.path[..][..PathByteLen(pkt.pathLen)] == pkt.path[..PathByteLen(pkt.pathLen)];
      var ok := CreatePathReturn(p, rpath, pkt.payload[1], pub[0], r.secret, pkt.path[..], pkt.pathLen, 0, [], r.random, a.pool == 0);
      if !ok {
        return [];
      }
      var data := new byte[|r.path|];
      PutBytes(data, 0, r.path);
      assert data[..] == r.path;
      var _ := SendDirect(p, rpath, data, r.pathLen);
      sent := [];
      if IsValidPathLen(r.pathLen) {
        PacketView(rpath);
        ValidLen(rpath.pathLen);
        sent := [View(rpath.header, 0, 0, rpath.pathLen, rpath.path[..PathByteLen(rpath.pathLen)], rpath.payload[..rpath.payloadLen])];
      }
    }

    /** The head of the path is this node, and the packet is new: it goes on without the head, an acknowledgement as a copy. */
    method ForwardHead(p: Primitives, pkt: Packet, a: Answers) returns (action: Action, sent: seq<View>)
      requires Sound(p) && pkt.Valid() && |pub| == 32 && HashCount(pkt.pathLen) > 0
      requires PayloadType(pkt.header) != PAYLOAD_TYPE_MULTIPART
      modifies this, pkt, pkt.path
      ensures pkt.Valid()
      ensures Outcome(action, pkt.Contents(), seen, sent) == AtHead(p, pub, old(seen), old(pkt.Contents()), a)
    {
      hide PathByteLen, IsValidPathLen, HasTransportCodes, WithHashCount, HashCount, HashSize, PacketHash, HashOf, WithoutHead, Acks, Sound;
      PacketView(pkt);
      CountRange(pkt.pathLen);
      CountBelow(pkt.pathLen);
      ghost var v := pkt.Contents();
      HeadOfPath(pkt.path[..], v.path, HashSize(v.pathLen));
      if pkt.path[..HashSize(pkt.pathLen)] == pub[..HashSize(pkt.pathLen)] && a.allowForward {
        var dup := HasSeen(p, pkt);
        SeenAgain(old(seen), PacketHash(p, v));
        if !dup {
          RemoveSelfFromPath(pkt);
          assert pkt.Contents().payload == v.payload;
          if PayloadType(pkt.header) == PAYLOAD_TYPE_ACK {
            sent := RouteDirectRecvAcks(pkt, a.pool, a.extraAcks);
            return Release, sent;
          }
          return Retransmit(0), [];
        }
      }
      return Release, [];
    }

    /** The branch of onRecvPacket for direct packets with hops left, without the multipart ones. */
    method ForwardDirect(p: Primitives, pkt: Packet, a: Answers) returns (action: Action, sent: seq<View>)
      requires Sound(p) && pkt.Valid() && |pub| == 32 && HashCount(pkt.pathLen) > 0
      requires PayloadType(pkt.header) != PAYLOAD_TYPE_MULTIPART && pkt.Clear()
      modifies this, pkt, pkt.path
      ensures pkt.Valid()
      ensures Outcome(action, pkt.Contents(), seen, sent) == OnDirect(p, pub, old(seen), old(pkt.Contents()), a)
    {
      hide PathByteLen, IsValidPathLen, HasTransportCodes, HashCount, HashSize, PacketHash, AtHead, Sound;
      PacketView(pkt);
      if PayloadType(pkt.header) == PAYLOAD_TYPE_ACK && 4 <= pkt.payloadLen && a.ackForSelf {
        MarkPacket(pkt);
      }
      action, sent := ForwardHead(p, pkt, a);
    }

    /** The temporary packet of the multipart branches: the same path, and the payload from its second byte. */
    method Unpack(pkt: Packet) returns (tmp: Packet)
      requires pkt.Valid() && pkt.payloadLen > 0
      ensures fresh(tmp) && fresh(tmp.path) && fresh(tmp.payload) && tmp.Valid()
      ensures tmp.header == pkt.header && tmp.pathLen == pkt.pathLen
      ensures tmp.Contents().path == pkt.Contents().path && tmp.Contents().payload == pkt.Contents().payload[1..]
    {
      hide PathByteLen, IsValidPathLen, HasTransportCodes, WithHashCount, HashCount, HashSize;
      PacketView(pkt);
      CountBelow(pkt.pathLen);
      tmp := new Packet();
      tmp.header := pkt.header;
      tmp.pathLen := pkt.pathLen;
      PutBytes(tmp.path, 0, pkt.path[..PathByteLen(pkt.pathLen)]);
      tmp.payloadLen := pkt.payloadLen - 1;
      PutBytes(tmp.payload, 0, pkt.payload[1..pkt.payloadLen]);
      PacketView(tmp);
      assert pkt.payload[1..pkt.payloadLen] == pkt.payload[..pkt.payloadLen][1..];
      assert tmp.payload[..tmp.payloadLen] == [] + pkt.payload[1..pkt.payloadLen];
      assert tmp.path[..PathByteLen(tmp.pathLen)] == [] + pkt.path[..PathByteLen(pkt.pathLen)];
    }

    /** Whether a multipart packet carries an acknowledgement. */
    method CarriesAck(pkt: Packet) returns (b: bool)
      requires pkt.Valid()
      ensures b <==> IsMultipartAck(pkt.Contents())
    {
      hide PathByteLen, IsValidPathLen, HasTransportCodes;
      PacketView(pkt);
      if pkt.payloadLen >= 5 {
        Low4(pkt.payload[0]);
        b := And(pkt.payload[0], 15) == PAYLOAD_TYPE_ACK;
      } else {
        b := false;
      }
    }

    /** The acknowledgement taken out of a multipart packet is sent on once, without the head of its path. */
    method ForwardPart(p: Primitives, tmp: Packet, pool: nat, extra: byte) returns (sent: seq<View>)
      requires Sound(p) && tmp.Valid() && HashCount(tmp.pathLen) > 0 && PayloadType(tmp.header) == PAYLOAD_TYPE_MULTIPART
      modifies this, tmp, tmp.path
      ensures var part := old(tmp.Contents()); var h := PacketHash(p, part);
              && |part.path| == PathByteLen(part.pathLen) && HashCount(part.pathLen) > 0 && seen == old(seen) + {h}
              && sent == if h in old(seen) then [] else Acks(WithoutHead(part), part.payload, pool, extra)
    {
      hide PathByteLen, IsValidPathLen, HasTransportCodes, WithHashCount, HashCount, HashSize, PacketHash, HashOf, Sound, WithoutHead, Acks;
      PacketView(tmp);
      CountRange(tmp.pathLen);
      sent := [];
      var dup := HasSeen(p, tmp);
      if !dup {
        RemoveSelfFromPath(tmp);
        sent := RouteDirectRecvAcks(tmp, pool, extra);
        HeadGone(old(tmp.Contents()));
      }
    }

    /** forwardMultipartDirect. */
    method ForwardMultipartDirect(p: Primitives, pkt: Packet, a: Answers) returns (action: Action, sent: seq<View>)
      requires Sound(p) && pkt.Valid() && |pub| == 32 && HashCount(pkt.pathLen) > 0
      requires PayloadType(pkt.header) == PAYLOAD_TYPE_MULTIPART && IsHashMatch(pkt.Contents(), pub) && a.allowForward
      modifies this
      ensures pkt.Valid()
      ensures Outcome(action, pkt.Contents(), seen, sent) == OnDirect(p, pub, old(seen), old(pkt.Contents()), a)
    {
      hide PathByteLen, IsValidPathLen, HasTransportCodes, WithHashCount, HashCount, HashSize, PacketHash, Sound, IsMultipartAck, IsHashMatch,
        OnDirect, WithoutHead, Acks;
      PacketView(pkt);
      CountRange(pkt.pathLen);
      ghost var v := pkt.Contents();
      MultipartAckDef(v);
      OnDirectMultipart(p, pub, seen, v, a);
      sent := [];
      action := Release;
      var ack := CarriesAck(pkt);
      if ack {
        var tmp := Unpack(pkt);
        ghost var part := tmp.Contents();
        PacketView(tmp);
        SameHash(p, part, Part(v));
        SeenAgain(old(seen), PacketHash(p, part));
        SameTail(part, Part(v), a.pool, a.extraAcks);
        sent := ForwardPart(p, tmp, a.pool, a.extraAcks);
      }
    }

    /** The switch of onRecvPacket. */
    method Arrive(p: Primitives, pkt: Packet, a: Answers) returns (action: Action, sent: seq<View>)
      requires Sound(p) && pkt.Valid() && |pub| == 32
      modifies this, pkt, pkt.path
      ensures pkt.Valid()
      ensures var o := OnArrival(p, pub, old(seen), old(pkt.Contents()), a);
              action == o.action && seen == o.seen && sent == o.sent && (action != Release ==> pkt.Contents() == o.pkt)
    {
      hide PathByteLen, IsValidPathLen, HasTransportCodes, WithHashCount, HashCount, HashSize, PacketHash, Sound, IsMultipartAck, RouteFlood,
        PathBack;
      PacketView(pkt);
      ghost var v := pkt.Contents();
      MultipartAckDef(v);
      SeenAgain(seen, PacketHash(p, v));
      var t, n := PayloadType(pkt.header), pkt.payloadLen;
      action, sent := Release, [];
      PathBackType(p, pub, v, a);
      if t == PAYLOAD_TYPE_ACK {
        if n >= 4 {
          action := RouteIfNew(p, pkt, a, a.ackForSelf);
        }
      } else if t == PAYLOAD_TYPE_PATH || t == PAYLOAD_TYPE_REQ || t == PAYLOAD_TYPE_RESPONSE || t == PAYLOAD_TYPE_TXT_MSG {
        if 2 + CIPHER_MAC_SIZE < n {
          action, sent := RouteData(p, pkt, a);
        }
      } else if t == PAYLOAD_TYPE_ANON_REQ {
        if 1 + 32 + 2 < n {
          action := RouteIfNew(p, pkt, a, a.forSelf);
        }
      } else if t == PAYLOAD_TYPE_GRP_DATA || t == PAYLOAD_TYPE_GRP_TXT {
        if 1 + 2 < n {
          action := RouteIfNew(p, pkt, a, false);
        }
      } else if t == PAYLOAD_TYPE_ADVERT {
        if 32 + 4 + 64 <= n && !a.selfAdvert {
          action := RouteAdvert(p, pkt, a);
        }
      } else if t == PAYLOAD_TYPE_RAW_CUSTOM {
        if IsRouteDirect(pkt.header) {
          var _ := HasSeen(p, pkt);
        }
      } else if t == PAYLOAD_TYPE_MULTIPART {
        NoteMultipart(p, pkt);
      }
    }

    /** A new packet is routed on; one that was for this node is marked first, and so is not. */
    method RouteIfNew(p: Primitives, pkt: Packet, a: Answers, forSelf: bool) returns (action: Action)
      requires Sound(p) && pkt.Valid() && |pub| == 32
      modifies this, pkt, pkt.path
      ensures pkt.Valid() && seen == old(seen) + {PacketHash(p, old(pkt.Contents()))}
      ensures var v := old(pkt.Contents());
              if PacketHash(p, v) in old(seen) || forSelf then action == Release
              else (action, pkt.Contents()) == RouteFlood(v, pub, a.allowForward)
    {
      hide PathByteLen, IsValidPathLen, WithHashCount, HashCount, HashSize, PacketHash, Sound, RouteFlood;
      action := Release;
      var dup := HasSeen(p, pkt);
      if !dup {
        if forSelf {
          pkt.header := 0xff;
          PacketView(pkt);
          MarkedIsReleased(pkt.Contents(), pub, a.allowForward);
        }
        action := RouteRecvPacket(pkt, pub, a.allowForward);
      }
    }

    /** A new datagram is taken or routed on; a path that floods in for this node is answered. */
    method RouteData(p: Primitives, pkt: Packet, a: Answers) returns (action: Action, sent: seq<View>)
      requires Sound(p) && pkt.Valid() && |pub| == 32 && 4 < pkt.payloadLen
      modifies this, pkt, pkt.path
      ensures pkt.Valid()
      ensures var v := old(pkt.Contents());
              if PacketHash(p, v) in old(seen) then action == Release && sent == [] && seen == old(seen)
              else var back := PathBack(p, pub, v, a);
                && seen == old(seen) + {PacketHash(p, v)} + HashesOf(p, back) && sent == Sendable(back)
                && if a.forSelf then action == Release else (action, pkt.Contents()) == RouteFlood(v, pub, a.allowForward)
    {
      hide PathByteLen, IsValidPathLen, WithHashCount, HashCount, HashSize, PacketHash, Sound, RouteFlood, PathBack, HashOf;
      PacketView(pkt);
      PathBackType(p, pub, pkt.Contents(), a);
      SeenAgain(seen, PacketHash(p, pkt.Contents()));
      action, sent := Release, [];
      var dup := HasSeen(p, pkt);
      if !dup {
        if a.forSelf {
          if PayloadType(pkt.header) == PAYLOAD_TYPE_PATH && IsRouteFlood(pkt.header) && a.pathFrom.Some? {
            sent := AnswerPath(p, pkt, a);
          }
          pkt.header := 0xff;
          PacketView(pkt);
          MarkedIsReleased(pkt.Contents(), pub, a.allowForward);
        }
        action := RouteRecvPacket(pkt, pub, a.allowForward);
      }
    }

    /** A new advertisement is routed on if its signature is right. */
    method RouteAdvert(p: Primitives, pkt: Packet, a: Answers) returns (action: Action)
      requires Sound(p) && pkt.Valid() && |pub| == 32
      modifies this, pkt, pkt.path
      ensures pkt.Valid() && seen == old(seen) + {PacketHash(p, old(pkt.Contents()))}
      ensures var v := old(pkt.Contents());
              if PacketHash(p, v) in old(seen) || !a.advertOk then action == Release
              else (action, pkt.Contents()) == RouteFlood(v, pub, a.allowForward)
    {
      hide PathByteLen, IsValidPathLen, WithHashCount, HashCount, HashSize, PacketHash, Sound, RouteFlood;
      action := Release;
      var dup := HasSeen(p, pkt);
      if !dup && a.advertOk {
        action := RouteRecvPacket(pkt, pub, a.allowForward);
      }
    }

    /** A multipart acknowledgement that has arrived is noted, not routed. */
    method NoteMultipart(p: Primitives, pkt: Packet)
      requires Sound(p) && pkt.Valid()
      modifies this
      ensures seen == old(seen) + if IsMultipartAck(pkt.Contents()) then {PacketHash(p, Part(pkt.Contents()))} else {}
    {
      hide PathByteLen, IsValidPathLen, HasTransportCodes, PacketHash, Sound, IsMultipartAck;
      PacketView(pkt);
      MultipartAckDef(pkt.Contents());
      var ack := CarriesAck(pkt);
      if ack {
        var tmp := Unpack(pkt);
        SameHash(p, tmp.Contents(), Part(pkt.Contents()));
        var _ := HasSeen(p, tmp);
      }
    }

    /** Whether the route in the payload goes on at this node; lengths and offsets are those of uint8_t and uint16_t. */
    method IsNextOfTrace(pkt: Packet, memory: Memory) returns (here: bool)
      requires pkt.Valid() && |pub| == 32 && memory[..MAX_PACKET_PAYLOAD] == pkt.payload[..]
      ensures here <==> TraceIsHere(pkt.Contents(), pub, memory)
    {
      hide PathByteLen, IsValidPathLen, HasTransportCodes;
      PacketView(pkt);
      assert memory[8] == memory[..MAX_PACKET_PAYLOAD][8];
      var flags := pkt.payload[8];
      EntryShift(pkt.pathLen, flags);
      var len: byte := (pkt.payloadLen - 9) % 256;
      var offset: uint16 := Shl(pkt.pathLen, flags % 4);
      var size := Shl(1, flags % 4);
      here := offset < len && memory[9 + offset..9 + offset + size] == pub[..size];
    }

    /** The branch of onRecvPacket for TRACE packets. */
    method ForwardTrace(p: Primitives, pkt: Packet, a: Answers) returns (action: Action)
      requires Sound(p) && pkt.Valid() && |pub| == 32
      requires IsRouteDirect(pkt.header) && PayloadType(pkt.header) == PAYLOAD_TYPE_TRACE
      requires a.memory[..MAX_PACKET_PAYLOAD] == pkt.payload[..]
      modifies this, pkt, pkt.path
      ensures pkt.Valid()
      ensures Outcome(action, pkt.Contents(), seen, []) == OnRecv(p, pub, old(seen), old(pkt.Contents()), a)
    {
      hide PathByteLen, IsValidPathLen, HasTransportCodes, PacketHash, Sound, WithReading, OnDirect, OnArrival, IsHashMatch,
        RouteFlood, WithHashCount, HashCount, HashSize, IsMultipartAck;
      PacketView(pkt);
      ghost var v := pkt.Contents();
      SeenAgain(seen, PacketHash(p, v));
      action := Release;
      var here := false;
      if pkt.pathLen < MAX_PATH_SIZE {
        here := IsNextOfTrace(pkt, a.memory);
      }
      if here && a.allowForward {
        var dup := HasSeen(p, pkt);
        if !dup {
          AppendReading(pkt, a.snr);
          action := Retransmit(5);
        }
      }
    }

    /** What a hook floods or sends directly counts as seen. */
    method SendReplies(p: Primitives, replies: seq<View>)
      requires Sound(p)
      modifies this
      ensures seen == old(seen) + HashesIn(p, replies)
    {
      hide PacketHash, Sound;
      for i := 0 to |replies|
        invariant seen == old(seen) + HashesIn(p, replies[..i])
      {
        assert replies[..i + 1] == replies[..i] + [replies[i]];
        seen := seen + {PacketHash(p, replies[i])};
      }
      assert replies[..|replies|] == replies;
    }

    /**
     * onRecvPacket, with the packets that a hook sends on its own. An acknowledgement with hops left is shown to its hook
     * before the table is looked at, every other packet behind that.
     */
    method OnRecvPacket(p: Primitives, pkt: Packet, a: Answers, replies: seq<View>) returns (action: Action, sent: seq<View>)
      requires Sound(p) && pkt.Valid() && |pub| == 32
      requires pkt.Clear() && a.memory[..MAX_PACKET_PAYLOAD] == pkt.payload[..]
      modifies this, pkt, pkt.path
      ensures pkt.Valid()
      ensures var v, own := old(pkt.Contents()), HashesIn(p, replies);
              var o := OnRecv(p, pub, if HookFirst(v) then old(seen) + own else old(seen), v, a);
              && action == o.action && seen == o.seen + own && (action != Release ==> pkt.Contents() == o.pkt)
              && sent == if HookFirst(v) then replies + o.sent else o.sent + replies
    {
      hide *;
      PacketView(pkt);
      ghost var v := pkt.Contents();
      FirstOf(pkt);
      if IsRouteDirect(pkt.header) && HashCount(pkt.pathLen) > 0 && PayloadType(pkt.header) == PAYLOAD_TYPE_ACK && pkt.payloadLen >= 4 {
        SendReplies(p, replies);
        action, sent := Handle(p, pkt, a);
        sent := replies + sent;
        SeenGrows(p, pub, old(seen) + HashesIn(p, replies), v, a);
      } else {
        action, sent := Handle(p, pkt, a);
        SendReplies(p, replies);
        sent := sent + replies;
      }
    }

    /** What the mesh does with a packet; a released packet is not looked at again. */
    method Handle(p: Primitives, pkt: Packet, a: Answers) returns (action: Action, sent: seq<View>)
      requires Sound(p) && pkt.Valid() && |pub| == 32
      requires pkt.Clear() && a.memory[..MAX_PACKET_PAYLOAD] == pkt.payload[..]
      modifies this, pkt, pkt.path
      ensures pkt.Valid()
      ensures var o := OnRecv(p, pub, old(seen), old(pkt.Contents()), a);
              action == o.action && seen == o.seen && sent == o.sent && (action != Release ==> pkt.Contents() == o.pkt)
    {
      hide PathByteLen, IsValidPathLen, HasTransportCodes, WithHashCount, HashCount, HashSize, PacketHash, Sound, IsMultipartAck,
        RouteFlood, OnDirect, OnArrival, IsHashMatch, WithReading;
      PacketView(pkt);
      CountBelow(pkt.pathLen);
      ghost var v := pkt.Contents();
      SeenAgain(seen, PacketHash(p, v));
      sent := [];
      if IsRouteDirect(pkt.header) && PayloadType(pkt.header) == PAYLOAD_TYPE_TRACE {
        action := ForwardTrace(p, pkt, a);
        return;
      }
      if IsRouteDirect(pkt.header) && PayloadType(pkt.header) == PAYLOAD_TYPE_CONTROL && pkt.payload[0] >= 128 {
        return Release, sent;
      }
      if IsRouteDirect(pkt.header) && HashCount(pkt.pathLen) > 0 {
        CountRange(pkt.pathLen);
        if PayloadType(pkt.header) == PAYLOAD_TYPE_MULTIPART {
          HeadOfPath(pkt.path[..], v.path, HashSize(v.pathLen));
          IsHashMatchDef(v, pub);
          OnDirectUnmatched(p, pub, seen, v, a);
          action := Release;
          if pkt.path[..HashSize(pkt.pathLen)] == pub[..HashSize(pkt.pathLen)] && a.allowForward {
            action, sent := ForwardMultipartDirect(p, pkt, a);
          }
        } else {
          action, sent := ForwardDirect(p, pkt, a);
        }
        return;
      }
      if IsRouteFlood(pkt.header) && a.filterFlood {
        return Release, sent;
      }
      action, sent := Arrive(p, pkt, a);
    }
  }

  lemma FirstOf(pkt: Packet)
    requires pkt.Valid()
    ensures HookFirst(pkt.Contents()) <==> IsRouteDirect(pkt.header) && HashCount(pkt.pathLen) > 0
                                           && PayloadType(pkt.header) == PAYLOAD_TYPE_ACK && pkt.payloadLen >= 4
  {
    PacketView(pkt);
    hide PathByteLen, IsValidPathLen, HasTransportCodes, HashCount, IsRouteDirect, PayloadType;
  }

  lemma SeenGrows(p: Primitives, pub: seq<byte>, seen: set<Hash>, v: View, a: Answers)
    requires Sound(p) && |pub| == 32 && |v.path| == PathByteLen(v.pathLen) && HookFirst(v)
    ensures seen <= OnRecv(p, pub, seen, v, a).seen
  {
    hide PathByteLen, PacketHash, IsHashMatch, HashCount, HashSize, WithHashCount;
  }

  /** Only a flooded path for this node is answered. */
  lemma PathBackType(p: Primitives, pub: seq<byte>, v: View, a: Answers)
    requires Sound(p) && |pub| == 32
    ensures PathBack(p, pub, v, a).Some? ==>
              PayloadType(v.header) == PAYLOAD_TYPE_PATH && IsRouteFlood(v.header) && a.forSelf && a.pathFrom.Some?
  {
    hide PathData, Sealed, Addressed, HashCount, HashSize, IsRouteFlood, PayloadType;
  }

  lemma EmptyPathLen()
    ensures IsValidPathLen(0) && PathByteLen(0) == 0
  {
  }

  lemma AddressedView(pkt: Packet, w: View)
    requires pkt.Shape() && pkt.pathLen < 256 && pkt.payloadLen <= MAX_PACKET_PAYLOAD && !HasTransportCodes(pkt.header)
    requires w.header == pkt.header && w.code0 == w.code1 == 0 && w.pathLen == pkt.pathLen && w.payload == pkt.payload[..pkt.payloadLen]
    requires IsValidPathLen(pkt.pathLen) ==> PathByteLen(pkt.pathLen) <= MAX_PATH_SIZE && w.path == pkt.path[..PathByteLen(pkt.pathLen)]
    ensures IsValidPathLen(w.pathLen) ==> pkt.Valid() && pkt.Contents() == w
  {
    if IsValidPathLen(pkt.pathLen) {
      PacketView(pkt);
    }
    hide PathByteLen, IsValidPathLen, HasTransportCodes;
  }

  lemma OnDirectMultipart(p: Primitives, pub: seq<byte>, seen: set<Hash>, v: View, a: Answers)
    requires Sound(p) && |pub| == 32 && |v.path| == PathByteLen(v.pathLen) && HashCount(v.pathLen) > 0
    requires PayloadType(v.header) == PAYLOAD_TYPE_MULTIPART && IsHashMatch(v, pub) && a.allowForward
    ensures !IsMultipartAck(v) ==> OnDirect(p, pub, seen, v, a) == Outcome(Release, v, seen, [])
    ensures IsMultipartAck(v) ==>
              var part := Part(v); var h := PacketHash(p, part);
              OnDirect(p, pub, seen, v, a) == if h in seen then Outcome(Release, v, seen, [])
                else Outcome(Release, v, seen + {h}, Acks(WithoutHead(part), part.payload, a.pool, a.extraAcks))
  {
    hide PathByteLen, PacketHash, IsHashMatch, HashCount, HashSize, WithHashCount, WithoutHead, Acks;
  }

  lemma OnDirectUnmatched(p: Primitives, pub: seq<byte>, seen: set<Hash>, v: View, a: Answers)
    requires Sound(p) && |pub| == 32 && |v.path| == PathByteLen(v.pathLen) && HashCount(v.pathLen) > 0
    requires PayloadType(v.header) == PAYLOAD_TYPE_MULTIPART
    ensures !(IsHashMatch(v, pub) && a.allowForward) ==> OnDirect(p, pub, seen, v, a) == Outcome(Release, v, seen, [])
  {
    hide PathByteLen, PacketHash, IsHashMatch;
  }

  lemma IsHashMatchDef(v: View, pub: seq<byte>)
    requires |pub| == 32 && |v.path| == PathByteLen(v.pathLen) && HashCount(v.pathLen) > 0
    ensures HashSize(v.pathLen) <= |v.path| && (IsHashMatch(v, pub) <==> v.path[..HashSize(v.pathLen)] == pub[..HashSize(v.pathLen)])
  {
    CountRange(v.pathLen);
    hide PathByteLen, HashSize;
  }

  lemma MarkedIsReleased(v: View, pub: seq<byte>, allow: bool)
    requires v.header == 0xff && |pub| == 32 && |v.path| == PathByteLen(v.pathLen)
    ensures RouteFlood(v, pub, allow) == (Release, v)
  {
  }

  lemma Low4(x: byte)
    ensures And(x, 15) == x % 16
  {
    Pow2Small();
    hide And, Pow2;
    LowBits(x, 4, 15);
  }

  lemma MultipartAckDef(v: View)
    ensures IsMultipartAck(v) ==> |v.payload| >= 5
  {
  }

  /** The hash looks at type, payload and path length only. */
  lemma SameHash(p: Primitives, v: View, w: View)
    requires Sound(p) && v.header == w.header && v.pathLen == w.pathLen && v.payload == w.payload
    ensures PacketHash(p, v) == PacketHash(p, w)
  {
  }

  lemma SameTail(v: View, w: View, pool: nat, extra: byte)
    requires v.pathLen == w.pathLen && v.path == w.path && v.payload == w.payload
    requires HashCount(v.pathLen) > 0 && |v.path| == PathByteLen(v.pathLen)
    ensures Acks(WithoutHead(v), v.payload, pool, extra) == Acks(WithoutHead(w), w.payload, pool, extra)
  {
    hide PathByteLen, HashCount, HashSize, WithHashCount;
    SameAcks(WithoutHead(v), WithoutHead(w), v.payload, extra);
    SameAcks(WithoutHead(v), WithoutHead(w), v.payload, 0);
  }

  lemma {:induction false} SameAcks(v: View, w: View, payload: seq<byte>, extra: byte)
    requires v.pathLen == w.pathLen && v.path == w.path
    ensures AllAcks(v, payload, extra) == AllAcks(w, payload, extra)
  {
    if extra > 0 {
      SameAcks(v, w, payload, extra - 1);
    }
  }

  /** They are direct, and go over the path that is left. */
  lemma {:induction false} AcksAreDirect(v: View, payload: seq<byte>, extra: byte)
    ensures forall s :: s in AllAcks(v, payload, extra) ==> IsRouteDirect(s.header) && s.pathLen == v.pathLen && s.path == v.path
  {
    if extra > 0 {
      AcksAreDirect(v, payload, extra - 1);
    }
  }

  lemma AcksForm(v: View, payload: seq<byte>, pool: nat, extra: byte)
    ensures forall s :: s in Acks(v, payload, pool, extra) ==> IsRouteDirect(s.header) && s.pathLen == v.pathLen && s.path == v.path
  {
    hide AllAcks;
    AcksAreDirect(v, payload, extra);
    AcksAreDirect(v, payload, 0);
  }

  /** With enough packets the acknowledgement itself is the last one. */
  lemma LastOfAcks(v: View, payload: seq<byte>, pool: nat, extra: byte)
    ensures var acks, n := Acks(v, payload, pool, extra), if |payload| < MAX_PACKET_PAYLOAD then extra else 0;
            && (pool > n ==> |acks| > 0 && acks[|acks| - 1] == AckCopy(v, payload))
            && (pool <= n ==> acks == [] || acks[|acks| - 1].header == 4 * PAYLOAD_TYPE_MULTIPART + 2)
  {
    var n := if |payload| < MAX_PACKET_PAYLOAD then extra else 0;
    if 0 < pool <= n {
      EarlierAcks(v, payload, n, pool - 1);
    }
  }

  lemma {:induction false} EarlierAcks(v: View, payload: seq<byte>, extra: byte, k: nat)
    requires k < extra
    ensures AllAcks(v, payload, extra)[k].header == 4 * PAYLOAD_TYPE_MULTIPART + 2
  {
    if k > 0 {
      EarlierAcks(v, payload, extra - 1, k - 1);
    }
  }

  /** Taking the head away leaves the payload. */
  lemma HeadGone(v: View)
    requires |v.path| == PathByteLen(v.pathLen) && HashCount(v.pathLen) > 0
    ensures WithoutHead(v).payload == v.payload
  {
    hide PathByteLen, HashCount, HashSize, WithHashCount;
  }

  lemma EntryShift(n: byte, flags: byte)
    ensures Shl(1, flags % 4) == EntrySize(flags) && Shl(n, flags % 4) == n * EntrySize(flags) < 2048
  {
    Pow2Small();
    hide Pow2;
  }

  lemma TraceRoom(p: byte)
    requires p < 64
    ensures IsValidPathLen(p + 1)
  {
  }

  /** Below 64 the path length is a count of single bytes; at 64 nothing is left of it. */
  lemma OneByteEntries(n: byte)
    requires n < 64
    ensures PathByteLen(n) == n && PathByteLen(n + 1) == if n < 63 then n + 1 else 0
  {
    hide PathByteLen;
    SmallLength(n);
    if n < 63 {
      SmallLength(n + 1);
    } else {
      assert n + 1 == 64;
    }
  }

  lemma SmallLength(n: byte)
    requires n < 64
    ensures PathByteLen(n) == n
  {
    hide PathByteLen;
    assert n % 64 == n && n / 64 + 1 == 1;
  }

  lemma WithReadingView(v: View, snr: byte, path: seq<byte>)
    requires v.pathLen < 64 && |v.path| == PathByteLen(v.pathLen) && |path| == MAX_PATH_SIZE
    requires path[..v.pathLen] == v.path && path[v.pathLen] == snr
    ensures PathByteLen(v.pathLen + 1) <= MAX_PATH_SIZE
    ensures WithReading(v, snr) == v.(pathLen := v.pathLen + 1, path := path[..PathByteLen(v.pathLen + 1)])
  {
    OneByteEntries(v.pathLen);
    hide PathByteLen;
    if v.pathLen < 63 {
      assert path[..v.pathLen + 1] == path[..v.pathLen] + [snr];
    }
  }

  lemma HeadOfPath(path: seq<byte>, v: seq<byte>, n: nat)
    requires n <= |v| <= |path| && v == path[..|v|]
    ensures path[..n] == v[..n]
  {
  }

  lemma SeenAgain(s: set<Hash>, h: Hash)
    ensures h in s ==> s + {h} == s
  {
  }
}

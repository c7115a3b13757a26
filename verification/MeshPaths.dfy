/** A path recorded by flooding, returned to the sender, and used for direct routing: Mesh.cpp and BaseChatMesh.cpp. */
module MeshPaths {
  import opened Arith
  import opened Bits
  import opened Buffers
  import opened Options
  import opened MeshPacket
  import opened MeshCrypto
  import opened MeshRouting
  import opened MeshChat

  /** A payload type that nodes flood and route, with enough payload. */
  ghost predicate Routable(v: View) {
    var t, n := PayloadType(v.header), |v.payload|;
    || (t == PAYLOAD_TYPE_ACK && n >= 4)
    || (t in {PAYLOAD_TYPE_PATH, PAYLOAD_TYPE_REQ, PAYLOAD_TYPE_RESPONSE, PAYLOAD_TYPE_TXT_MSG} && n > 4)
    || (t == PAYLOAD_TYPE_ANON_REQ && n > 35)
    || (t in {PAYLOAD_TYPE_GRP_DATA, PAYLOAD_TYPE_GRP_TXT} && n > 3)
    || (t == PAYLOAD_TYPE_ADVERT && n >= 100)
  }

  /** A node that forwards such a packet: what its hooks must answer depends on the route and the type. */
  ghost predicate Willing(v: View, a: Answers) {
    var t := PayloadType(v.header);
    && a.allowForward && !IsAwaited(v, a)
    && if IsRouteFlood(v.header) then
         && !a.filterFlood && (t == PAYLOAD_TYPE_ADVERT ==> !a.selfAdvert && a.advertOk)
         && (t in {PAYLOAD_TYPE_PATH, PAYLOAD_TYPE_REQ, PAYLOAD_TYPE_RESPONSE, PAYLOAD_TYPE_TXT_MSG, PAYLOAD_TYPE_ANON_REQ} ==> !a.forSelf)
       else (t == PAYLOAD_TYPE_ACK ==> a.pool > if |v.payload| < MAX_PACKET_PAYLOAD then a.extraAcks else 0) && (t == PAYLOAD_TYPE_CONTROL ==> a.memory[0] < 128)
  }

  // -------------------------------------------------------------------------
  // What a relay changes
  // -------------------------------------------------------------------------

  /** An awaited acknowledgement with hops left: its mark takes effect before the head of its path is looked at. */
  ghost predicate IsMisrouted(v: View, a: Answers) {
    IsRouteDirect(v.header) && HashCount(v.pathLen) > 0 && IsAwaited(v, a)
  }

  /**
   * Whatever is retransmitted was new, is now known, and keeps its payload. It keeps its header exactly when it is no
   * awaited acknowledgement with hops left, and then, unless it is a TRACE, its hash too.
   */
  lemma RelayFacts(p: Primitives, pub: seq<byte>, seen: set<Hash>, v: View, a: Answers)
    requires Sound(p) && |pub| == 32 && |v.path| == PathByteLen(v.pathLen) && OnRecv(p, pub, seen, v, a).action.Retransmit?
    ensures var o, w := OnRecv(p, pub, seen, v, a), if IsMisrouted(v, a) then Marked(v) else v;
            && PacketHash(p, w) !in seen && o.seen == seen + {PacketHash(p, w)}
            && o.pkt.header == w.header && o.pkt.payload == v.payload && o.pkt.code0 == v.code0 && o.pkt.code1 == v.code1
            && (PayloadType(v.header) != PAYLOAD_TYPE_TRACE ==> PacketHash(p, o.pkt) == PacketHash(p, w))
            && |o.pkt.path| == PathByteLen(o.pkt.pathLen)
    ensures OnRecv(p, pub, seen, v, a).pkt.header == v.header <==> !IsMisrouted(v, a)
    ensures IsRouteFlood(v.header) ==> Floods(v, a.allowForward) && OnRecv(p, pub, seen, v, a).pkt == WithSelf(v, pub)
    ensures IsRouteDirect(v.header) && PayloadType(v.header) != PAYLOAD_TYPE_TRACE ==>
              && HashCount(v.pathLen) > 0 && IsHashMatch(v, pub)
              && OnRecv(p, pub, seen, v, a).pkt == WithoutHead(if IsMisrouted(v, a) then Marked(v) else v)
  {
    FloodOrDirect(v.header);
    if IsRouteDirect(v.header) {
      DirectFacts(p, pub, seen, v, a);
    } else {
      FloodFacts(p, pub, seen, v, a);
    }
  }

  lemma DirectFacts(p: Primitives, pub: seq<byte>, seen: set<Hash>, v: View, a: Answers)
    requires Sound(p) && |pub| == 32 && |v.path| == PathByteLen(v.pathLen) && OnRecv(p, pub, seen, v, a).action.Retransmit?
    requires IsRouteDirect(v.header)
    ensures var o, w := OnRecv(p, pub, seen, v, a), if IsMisrouted(v, a) then Marked(v) else v;
            && PacketHash(p, w) !in seen && o.seen == seen + {PacketHash(p, w)}
            && o.pkt.header == w.header && o.pkt.payload == v.payload && o.pkt.code0 == v.code0 && o.pkt.code1 == v.code1
            && (PayloadType(v.header) != PAYLOAD_TYPE_TRACE ==> PacketHash(p, o.pkt) == PacketHash(p, w))
            && |o.pkt.path| == PathByteLen(o.pkt.pathLen)
    ensures PayloadType(v.header) != PAYLOAD_TYPE_TRACE ==>
              && HashCount(v.pathLen) > 0 && IsHashMatch(v, pub)
              && OnRecv(p, pub, seen, v, a).pkt == WithoutHead(if IsMisrouted(v, a) then Marked(v) else v)
    ensures IsMisrouted(v, a) ==> v.header != 0xff && PayloadType(v.header) != PAYLOAD_TYPE_TRACE
  {
    hide PathByteLen, IsValidPathLen, HasTransportCodes, WithHashCount, HashCount, HashSize, PacketHash, IsMultipartAck, IsHashMatch,
      Sealed, PathBack, RouteFlood;
    FloodOrDirect(v.header);
    var w := if IsMisrouted(v, a) then Marked(v) else v;
    SameKey(p, w, OnRecv(p, pub, seen, v, a).pkt);
    if PayloadType(v.header) == PAYLOAD_TYPE_TRACE {
      OneByteEntries(v.pathLen);
    } else if HashCount(v.pathLen) > 0 {
      CountRange(v.pathLen);
      SameHead(v, pub);
    } else {
      DirectIsNotFlooded(v, pub, a.allowForward);
    }
  }

  lemma SameHead(v: View, pub: seq<byte>)
    requires |pub| == 32 && |v.path| == PathByteLen(v.pathLen) && HashCount(v.pathLen) > 0
    ensures IsHashMatch(Marked(v), pub) <==> IsHashMatch(v, pub)
  {
    IsHashMatchDef(v, pub);
    IsHashMatchDef(Marked(v), pub);
  }

  lemma DirectIsNotFlooded(v: View, pub: seq<byte>, allow: bool)
    requires |pub| == 32 && |v.path| == PathByteLen(v.pathLen) && !IsRouteFlood(v.header)
    ensures RouteFlood(v, pub, allow) == (Release, v)
  {
  }

  lemma FloodFacts(p: Primitives, pub: seq<byte>, seen: set<Hash>, v: View, a: Answers)
    requires Sound(p) && |pub| == 32 && |v.path| == PathByteLen(v.pathLen) && OnRecv(p, pub, seen, v, a).action.Retransmit?
    requires IsRouteFlood(v.header) && !IsRouteDirect(v.header)
    ensures var o := OnRecv(p, pub, seen, v, a);
            && PacketHash(p, v) !in seen && o.seen == seen + {PacketHash(p, v)}
            && Floods(v, a.allowForward) && o.pkt == WithSelf(v, pub)
            && (PayloadType(v.header) != PAYLOAD_TYPE_TRACE ==> PacketHash(p, o.pkt) == PacketHash(p, v))
            && |o.pkt.path| == PathByteLen(o.pkt.pathLen)
  {
    hide PathByteLen, IsValidPathLen, HasTransportCodes, WithHashCount, HashCount, HashSize, PacketHash, IsMultipartAck, Sealed, PathBack;
    PathBackType(p, pub, v, a);
    SameKey(p, v, OnRecv(p, pub, seen, v, a).pkt);
    NextCount(v.pathLen);
    WithSelfLength(v, pub, a.allowForward);
  }

  /** The acknowledgement of four bytes that a node awaits, with the node itself at the head of one hop: it goes on, as another packet. */
  lemma AwaitedAckGoesOn(p: Primitives, pub: seq<byte>, ack: seq<byte>, a: Answers)
    requires Sound(p) && |pub| == 32 && |ack| == 4 && a.ackForSelf && a.allowForward
    ensures var v := View(4 * PAYLOAD_TYPE_ACK + 2, 0, 0, 1, pub[..1], ack);
            && |v.path| == PathByteLen(v.pathLen) && IsMisrouted(v, a)
            && OnRecv(p, pub, {}, v, a) == Outcome(Retransmit(0), View(0xff, 0, 0, 0, [], ack), {PacketHash(p, Marked(v))}, [])
  {
    hide PacketHash, Sealed, OnArrival, OnDirect, RouteFlood, PathByteLen, HashCount, HashSize, WithHashCount;
    var v := View(4 * PAYLOAD_TYPE_ACK + 2, 0, 0, 1, pub[..1], ack);
    OneEntry();
    AwaitedIsTaken(p, pub, v, a);
  }

  lemma AwaitedIsTaken(p: Primitives, pub: seq<byte>, v: View, a: Answers)
    requires Sound(p) && |pub| == 32 && a.allowForward && IsAwaited(v, a)
    requires v.pathLen == 1 && v.path == pub[..1] && HashCount(1) == 1 && PathByteLen(1) == 1
    ensures OnDirect(p, pub, {}, v, a) == Outcome(Retransmit(0), Marked(v).(pathLen := 0, path := []), {PacketHash(p, Marked(v))}, [])
  {
    OneEntry();
    CountRange(1);
    hide PacketHash, IsAwaited, PathByteLen, HashCount, HashSize, WithHashCount;
    IsHashMatchDef(Marked(v), pub);
    assert v.path[..1] == pub[..1] && v.path[1..] == [];
    assert {} + {PacketHash(p, Marked(v))} == {PacketHash(p, Marked(v))};
  }

  lemma OneEntry()
    ensures PathByteLen(1) == 1 && HashCount(1) == 1 && HashSize(1) == 1
  {
  }

  /** A marked packet does not flood, so that the retry of a return path in onAckRecv, which asks for a flood, never happens. */
  lemma MarkedDoesNotFlood(v: View)
    ensures !IsRouteFlood(Marked(v).header) && IsRouteDirect(Marked(v).header)
  {
  }

  lemma FloodOrDirect(h: byte)
    ensures IsRouteDirect(h) <==> !IsRouteFlood(h)
  {
  }

  lemma SameKey(p: Primitives, v: View, w: View)
    requires Sound(p)
    ensures PayloadType(v.header) == PayloadType(w.header) != PAYLOAD_TYPE_TRACE && v.payload == w.payload ==>
              PacketHash(p, v) == PacketHash(p, w)
  {
  }

  lemma WithSelfLength(v: View, pub: seq<byte>, allow: bool)
    requires |pub| == 32 && |v.path| == PathByteLen(v.pathLen)
    ensures Floods(v, allow) ==> |WithSelf(v, pub).path| == PathByteLen(WithSelf(v, pub).pathLen)
  {
    if Floods(v, allow) {
      FloodCount(v.pathLen);
      if HashCount(v.pathLen) < 63 {
        NextCount(v.pathLen);
      } else {
        LastCount(v.pathLen);
      }
    }
  }

  lemma FloodCount(n: byte)
    requires (HashCount(n) + 1) * HashSize(n) <= MAX_PATH_SIZE
    ensures HashCount(n) == 63 ==> HashSize(n) == 1
    ensures HashSize(n) >= 1
  {
  }

  /** The entry is appended, and counted, exactly while fewer than 63 are there. */
  lemma AppendExactly(v: View, pub: seq<byte>, allow: bool)
    requires |pub| == 32 && |v.path| == PathByteLen(v.pathLen) && Floods(v, allow)
    ensures HashCount(v.pathLen) < 63 <==>
            WithSelf(v, pub) == v.(pathLen := v.pathLen + 1, path := v.path + pub[..HashSize(v.pathLen)])
    ensures HashCount(v.pathLen) < 63 ==>
            HashCount(v.pathLen + 1) == HashCount(v.pathLen) + 1 && HashSize(v.pathLen + 1) == HashSize(v.pathLen)
    ensures HashCount(v.pathLen) == 63 ==> WithSelf(v, pub).pathLen == 64 && WithSelf(v, pub).path == []
  {
    FloodCount(v.pathLen);
    NextCount(v.pathLen);
    if HashCount(v.pathLen) == 63 {
      LastCount(v.pathLen);
      hide PathByteLen, WithHashCount;
      assert |v.path + pub[..HashSize(v.pathLen)]| > 0;
    } else {
      hide PathByteLen, WithHashCount, HashCount, HashSize;
      var q := v.path + pub[..HashSize(v.pathLen)];
      assert q[..|q|] == q;
    }
  }

  // -------------------------------------------------------------------------
  // Recording
  // -------------------------------------------------------------------------

  /** The first sz bytes of each key, one after the other. */
  ghost function Prefixes(hops: seq<seq<byte>>, sz: nat): (s: seq<byte>)
    requires sz <= 32 && forall i :: 0 <= i < |hops| ==> |hops[i]| == 32
    ensures |s| == |hops| * sz
  {
    if |hops| == 0 then [] else Prefixes(hops[..|hops| - 1], sz) + hops[|hops| - 1][..sz]
  }

  ghost predicate Keys(hops: seq<seq<byte>>) {
    forall i :: 0 <= i < |hops| ==> |hops[i]| == 32
  }

  /** The path length byte for n entries of sz bytes. */
  function PathLenOf(sz: nat, n: nat): (b: byte)
    requires 1 <= sz <= 3 && n <= 63
    ensures HashSize(b) == sz && HashCount(b) == n && PathByteLen(b) == n * sz
  {
    var b: byte := 64 * (sz - 1) + n;
    assert b / 64 == sz - 1 && b % 64 == n;
    b
  }

  /** A packet as it is after the hops. */
  ghost function Recorded(v: View, hops: seq<seq<byte>>, sz: nat): (w: View)
    requires 1 <= sz <= 3 && |hops| <= 63 && Keys(hops)
    ensures w.header == v.header && w.payload == v.payload && w.code0 == v.code0 && w.code1 == v.code1
  {
    v.(pathLen := PathLenOf(sz, |hops|), path := Prefixes(hops, sz))
  }

  /** A packet as its originator floods it: with an empty path, and with or without transport codes. */
  ghost function Flooded(v: View, codes: Option<(uint16, uint16)>, sz: nat): View
    requires 1 <= sz <= 3
  {
    View(Routed(v.header, if codes.Some? then 0 else 1), if codes.Some? then codes.value.0 else 0, if codes.Some? then codes.value.1 else 0,
         PathLenOf(sz, 0), [], v.payload)
  }

  /** A flood starts as recorded over no hops, and has the hash that its packet had before. */
  lemma FloodStarts(p: Primitives, v: View, codes: Option<(uint16, uint16)>, sz: nat)
    requires Sound(p) && 1 <= sz <= 3
    ensures IsRouteFlood(Flooded(v, codes, sz).header) && Flooded(v, codes, sz) == Recorded(Flooded(v, codes, sz), [], sz)
    ensures Routable(v) ==> Routable(Flooded(v, codes, sz))
    ensures PayloadType(v.header) != PAYLOAD_TYPE_TRACE ==> PacketHash(p, Flooded(v, codes, sz)) == PacketHash(p, v)
  {
    hide PacketHash, PayloadType, RouteType, PathByteLen, HashSize, HashCount, Sound, Flooded;
    FloodedFields(v, codes, sz);
    SameKey(p, v, Flooded(v, codes, sz));
  }

  lemma FloodedFields(v: View, codes: Option<(uint16, uint16)>, sz: nat)
    requires 1 <= sz <= 3
    ensures var f := Flooded(v, codes, sz);
            && RouteType(f.header) == (if codes.Some? then 0 else 1) && PayloadType(f.header) == PayloadType(v.header)
            && PayloadVer(f.header) == PayloadVer(v.header) && f.pathLen == PathLenOf(sz, 0) && f.path == [] && f.payload == v.payload
            && f.code0 == (if codes.Some? then codes.value.0 else 0) && f.code1 == (if codes.Some? then codes.value.1 else 0)
  {
    hide Routed, PayloadType, PayloadVer, RouteType, PathByteLen, HashSize, HashCount;
  }

  /** A packet sent directly keeps type, version, payload and hash; a TRACE gets its route at the end of the payload instead of a path. */
  lemma DirectStarts(p: Primitives, v: View, path: seq<byte>, pathLen: byte)
    requires Sound(p) && Reaches(v.header, path, pathLen)
    ensures var w := Addressed(v, path, pathLen);
            && RouteType(w.header) == 2 && PayloadType(w.header) == PayloadType(v.header) && PayloadVer(w.header) == PayloadVer(v.header)
            && w.code0 == 0 && w.code1 == 0
    ensures PayloadType(v.header) != PAYLOAD_TYPE_TRACE ==>
              var w := Addressed(v, path, pathLen);
              && PacketHash(p, w) == PacketHash(p, v) && w.payload == v.payload && w.pathLen == pathLen
              && (IsValidPathLen(pathLen) ==> w.path == path[..PathByteLen(pathLen)])
    ensures PayloadType(v.header) == PAYLOAD_TYPE_TRACE ==>
              var w := Addressed(v, path, pathLen); w.payload == v.payload + path[..pathLen] && w.path == [] && w.pathLen == 0
  {
    hide PacketHash, PayloadType, PayloadVer, RouteType, PathByteLen, HashSize, HashCount, Sound, Routed, IsValidPathLen;
    SameKey(p, v, Addressed(v, path, pathLen));
  }

  lemma EmptyPath(sz: nat)
    requires 1 <= sz <= 3
    ensures Shl(sz - 1, 6) == PathLenOf(sz, 0) && Or(Shl(sz - 1, 6), 0) == PathLenOf(sz, 0) && IsValidPathLen(PathLenOf(sz, 0))
  {
    Pow2Small();
    hide Pow2;
  }

  /** Both forms of sendFlood, but for the queue: the priority, or nothing for a TRACE or a size that does not exist. */
  method SendFlood(m: Mesh, p: Primitives, pkt: Packet, codes: Option<(uint16, uint16)>, sz: byte) returns (priority: Option<nat>)
    requires Sound(p) && pkt.Valid()
    modifies m, pkt
    ensures pkt.Valid()
    ensures priority.None? <==> PayloadType(old(pkt.header)) == PAYLOAD_TYPE_TRACE || sz == 0 || sz > 3
    ensures priority.None? ==> pkt.Contents() == old(pkt.Contents()) && m.seen == old(m.seen)
    ensures priority.Some? ==>
              && pkt.Contents() == Flooded(old(pkt.Contents()), codes, sz)
              && m.seen == old(m.seen) + {PacketHash(p, old(pkt.Contents()))}
    ensures var t := PayloadType(old(pkt.header));
            priority.Some? ==> priority.value == if t == PAYLOAD_TYPE_PATH then 2 else if t == PAYLOAD_TYPE_ADVERT then 3 else 1
  {
    hide PathByteLen, IsValidPathLen, HasTransportCodes, HashCount, HashSize, PacketHash, Sound, PayloadType, RouteType, Routed, Or, Shl;
    PacketView(pkt);
    if PayloadType(pkt.header) == PAYLOAD_TYPE_TRACE || sz == 0 || sz > 3 {
      return None;
    }
    ghost var v := pkt.Contents();
    FloodStarts(p, v, codes, sz);
    EmptyPath(sz);
    if codes.Some? {
      pkt.header := Routed(pkt.header, 0);
      pkt.code0, pkt.code1 := codes.value.0, codes.value.1;
    } else {
      pkt.header := Routed(pkt.header, 1);
    }
    pkt.pathLen := Or(Shl(sz - 1, 6), 0);
    CodesByRoute(pkt.header);
    PacketView(pkt);
    var _ := m.HasSeen(p, pkt);
    var t := PayloadType(pkt.header);
    priority := Some(if t == PAYLOAD_TYPE_PATH then 2 else if t == PAYLOAD_TYPE_ADVERT then 3 else 1);
  }

  /** Each willing hop that has not seen the packet relays it with itself added at the end of the path. */
  lemma FloodRecords(p: Primitives, v: View, hops: seq<seq<byte>>, sz: nat, i: nat, seen: set<Hash>, a: Answers)
    requires Sound(p) && 1 <= sz <= 3 && |hops| <= 63 && |hops| * sz <= MAX_PATH_SIZE && Keys(hops) && i < |hops|
    requires IsRouteFlood(v.header) && Routable(v) && Willing(v, a) && PacketHash(p, v) !in seen
    ensures OnRecv(p, hops[i], seen, Recorded(v, hops[..i], sz), a)
            == Outcome(Retransmit(i + 1), Recorded(v, hops[..i + 1], sz), seen + {PacketHash(p, v)}, [])
  {
    hide PathByteLen, HashCount, HashSize, WithHashCount, PacketHash, Prefixes, IsRouteFlood, IsRouteDirect, PayloadType;
    var w := Recorded(v, hops[..i], sz);
    FloodOrDirect(v.header);
    FloodNotMarked(v.header);
    RoutableIsRouted(v);
    SameKey(p, v, w);
    PrefixesStep(hops, sz, i);
    MulMono(i + 1, |hops|, sz);
    assert HashCount(w.pathLen) == i && HashSize(w.pathLen) == sz && |w.path| == PathByteLen(w.pathLen);
    assert Floods(w, a.allowForward);
    AppendExactly(w, hops[i], a.allowForward);
    PathLenNext(sz, i);
  }

  lemma PathLenNext(sz: nat, i: nat)
    requires 1 <= sz <= 3 && i < 63
    ensures PathLenOf(sz, i + 1) == PathLenOf(sz, i) + 1
  {
  }

  lemma PrefixesStep(hops: seq<seq<byte>>, sz: nat, i: nat)
    requires sz <= 32 && Keys(hops) && i < |hops|
    ensures Prefixes(hops[..i + 1], sz) == Prefixes(hops[..i], sz) + hops[i][..sz]
  {
    assert hops[..i + 1][..i] == hops[..i];
  }

  lemma FloodNotMarked(h: byte)
    ensures IsRouteFlood(h) ==> h != 0xff
  {
  }

  lemma RoutableIsRouted(v: View)
    requires Routable(v)
    ensures PayloadType(v.header) !in {PAYLOAD_TYPE_TRACE, PAYLOAD_TYPE_CONTROL, PAYLOAD_TYPE_MULTIPART, PAYLOAD_TYPE_RAW_CUSTOM}
  {
  }

  // -------------------------------------------------------------------------
  // Returning
  // -------------------------------------------------------------------------

  /** A contact with its learned path. */
  class Contact {
    var outPathLen: byte
    const outPath: array<byte>

    constructor ()
      ensures outPathLen == 0xff && outPath.Length == MAX_PATH_SIZE && fresh(outPath)
    {
      outPathLen := 0xff;
      outPath := new byte[64];
    }

    /**
     * The PATH branch of onRecvPacket, and onContactPathRecv: the sender's path replaces the one on record as far as it
     * fits, and the rest of the data are the extra ones, exactly when the path ends within the data.
     */
    method OnPathData(data: array<byte>, len: nat) returns (extraType: byte, from: nat, extraLen: byte)
      requires outPath.Length == MAX_PATH_SIZE && data != outPath && 0 < len <= data.Length
      requires 1 + PathByteLen(data[0]) < data.Length
      modifies this, outPath
      ensures outPathLen == data[0] && from == 2 + PathByteLen(data[0])
      ensures PathByteLen(data[0]) <= MAX_PATH_SIZE ==> outPath[..PathByteLen(data[0])] == data[1..1 + PathByteLen(data[0])]
      ensures PathByteLen(data[0]) > MAX_PATH_SIZE ==> outPath[..] == old(outPath[..])
      ensures extraType == data[from - 1] % 16 && extraLen == (len - from) % 256
      ensures len <= 184 ==> (from + extraLen == len <==> from <= len)
    {
      hide PathByteLen, HashCount, HashSize;
      ByteLenOf(data[0]);
      ghost var was := outPath[..];
      var k := 0;
      var pathLen := data[k];
      k := k + 1;
      var n := HashSize(pathLen) * HashCount(pathLen);
      k := k + n;
      Low4(data[k]);
      extraType := And(data[k], 15);
      k := k + 1;
      from := k;
      extraLen := (len - k) % 256;
      var end := WritePath(outPath, 0, data, 1, pathLen);
      outPathLen := pathLen;
    }
  }

  lemma ByteLenOf(pathLen: byte)
    ensures PathByteLen(pathLen) == HashCount(pathLen) * HashSize(pathLen) == HashSize(pathLen) * HashCount(pathLen) <= 252
  {
    MulMono(pathLen % 64, 63, pathLen / 64 + 1);
  }

  /** The path and the extra data come out of the encrypted data as they went in, followed by zeros. */
  lemma ReturnSurvives(p: Primitives, secret: seq<byte>, pathLen: byte, path: seq<byte>, extraType: byte, extra: seq<byte>, random: seq<byte>)
    requires Sound(p) && |secret| == 32 && |random| == 4 && IsValidPathLen(pathLen) && |path| == PathByteLen(pathLen)
    requires |path| + |extra| + 5 <= MAX_COMBINED_PATH
    ensures var d := Opened(p, secret, Sealed(p, secret, PathData(pathLen, path, extraType, extra, random)));
            && 2 + |path| <= |d| <= MAX_PACKET_PAYLOAD && d[0] == pathLen && d[1..1 + |path|] == path
            && (|extra| > 0 ==> d[1 + |path|] == extraType && 2 + |path| + |extra| <= |d|
                                && d[2 + |path|..] == extra + Zeros(|d| - 2 - |path| - |extra|))
            && (|extra| == 0 ==> d[1 + |path|] == 0xff)
  {
    hide Sealed, Opened, Encrypted, Decrypted, PathByteLen, IsValidPathLen;
    var m := PathData(pathLen, path, extraType, extra, random);
    OpenSealed(p, secret, m);
    ReturnFits(|m|);
    var d := m + Zeros(Ceil16(|m|) - |m|);
    assert d[1..1 + |path|] == path;
    if |extra| > 0 {
      assert d[2 + |path|..] == extra + Zeros(Ceil16(|m|) - |m|);
    }
  }

  // -------------------------------------------------------------------------
  // Using
  // -------------------------------------------------------------------------


  /** A packet with the first i hops gone from its path. */
  ghost function Remaining(v: View, hops: seq<seq<byte>>, sz: nat, i: nat): (w: View)
    requires 1 <= sz <= 3 && |hops| <= 63 && Keys(hops) && i <= |hops|
    ensures w.header == v.header && w.payload == v.payload && w.code0 == v.code0 && w.code1 == v.code1
  {
    v.(pathLen := PathLenOf(sz, |hops| - i), path := Prefixes(hops[i..], sz))
  }

  lemma {:induction false} PrefixesHead(hops: seq<seq<byte>>, sz: nat)
    requires sz <= 32 && Keys(hops) && |hops| > 0
    ensures Prefixes(hops, sz) == hops[0][..sz] + Prefixes(hops[1..], sz)
  {
    var n := |hops| - 1;
    if n == 0 {
      assert hops[..0] == [] && hops[1..] == [];
    } else {
      PrefixesHead(hops[..n], sz);
      assert hops[..n][1..] == hops[1..][..n - 1] && hops[1..][n - 1] == hops[n];
    }
  }

  /** Types that a hop passes on as they are; acknowledgements are copied instead. */
  ghost predicate Forwardable(v: View) {
    IsRouteDirect(v.header) && PayloadType(v.header) !in {PAYLOAD_TYPE_TRACE, PAYLOAD_TYPE_MULTIPART, PAYLOAD_TYPE_ACK}
  }

  /** Each hop that has not seen the packet finds itself at the head, takes exactly that away, and sends the rest on. */
  lemma DirectForwards(p: Primitives, v: View, hops: seq<seq<byte>>, sz: nat, i: nat, seen: set<Hash>, a: Answers)
    requires Sound(p) && 1 <= sz <= 3 && |hops| <= 63 && Keys(hops) && i < |hops|
    requires Forwardable(v) && Willing(v, a) && PacketHash(p, v) !in seen
    ensures OnRecv(p, hops[i], seen, Remaining(v, hops, sz, i), a)
            == Outcome(Retransmit(0), Remaining(v, hops, sz, i + 1), seen + {PacketHash(p, v)}, [])
  {
    hide PathByteLen, HashCount, HashSize, WithHashCount, PacketHash, Prefixes, IsRouteDirect;
    var w := Remaining(v, hops, sz, i);
    FloodOrDirect(v.header);
    SameKey(p, v, w);
    PrefixesHead(hops[i..], sz);
    assert hops[i..][1..] == hops[i + 1..];
    CountRange(w.pathLen);
    IsHashMatchDef(w, hops[i]);
    PathLenNext(sz, |hops| - i - 1);
    assert w.path[sz..] == Prefixes(hops[i + 1..], sz);
  }

  /** The acknowledgement of a direct packet: a hop sends a new one with the same payload over the rest of the path. */
  lemma AckForwards(p: Primitives, v: View, hops: seq<seq<byte>>, sz: nat, i: nat, seen: set<Hash>, a: Answers)
    requires Sound(p) && 1 <= sz <= 3 && |hops| <= 63 && Keys(hops) && i < |hops|
    requires v.header == 4 * PAYLOAD_TYPE_ACK + 2 && v.code0 == v.code1 == 0
    requires Willing(v, a) && PacketHash(p, v) !in seen
    ensures OnRecv(p, hops[i], seen, Remaining(v, hops, sz, i), a)
            == Outcome(Release, Remaining(v, hops, sz, i + 1), seen + {PacketHash(p, v)},
                       Acks(Remaining(v, hops, sz, i + 1), v.payload, a.pool, a.extraAcks))
    ensures AckCopy(Remaining(v, hops, sz, i + 1), v.payload) == Remaining(v, hops, sz, i + 1)
  {
    hide PathByteLen, HashCount, HashSize, WithHashCount, PacketHash, Prefixes, Acks;
    var w := Remaining(v, hops, sz, i);
    SameKey(p, v, w);
    PrefixesHead(hops[i..], sz);
    assert hops[i..][1..] == hops[i + 1..];
    CountRange(w.pathLen);
    IsHashMatchDef(w, hops[i]);
    PathLenNext(sz, |hops| - i - 1);
    assert w.path[sz..] == Prefixes(hops[i + 1..], sz);
  }

  /** At the destination the path is empty: the packet is looked at, not forwarded, whatever its hooks answer. */
  lemma ArrivesEmpty(p: Primitives, v: View, hops: seq<seq<byte>>, sz: nat, pub: seq<byte>, seen: set<Hash>, a: Answers)
    requires Sound(p) && 1 <= sz <= 3 && |hops| <= 63 && Keys(hops) && |pub| == 32
    requires IsRouteDirect(v.header) && Routable(v) && (PayloadType(v.header) == PAYLOAD_TYPE_ADVERT ==> !a.selfAdvert) && PacketHash(p, v) !in seen
    ensures Remaining(v, hops, sz, |hops|).path == [] && HashCount(Remaining(v, hops, sz, |hops|).pathLen) == 0
    ensures var o := OnRecv(p, pub, seen, Remaining(v, hops, sz, |hops|), a);
            o.action == Release && o.seen == seen + {PacketHash(p, v)}
  {
    hide PathByteLen, HashSize, WithHashCount, PacketHash;
    var w := Remaining(v, hops, sz, |hops|);
    SameKey(p, v, w);
    assert hops[|hops|..] == [];
    FloodOrDirect(v.header);
  }

  /** What a node sends on: the packet, or the acknowledgement in its place, behind any extra copies. */
  ghost function HandedOn(o: Outcome): Option<View> {
    if o.action.Retransmit? then Some(o.pkt) else if |o.sent| > 0 then Some(o.sent[|o.sent| - 1]) else None
  }

  /** Only the willing send a flood on, */
  lemma OnlyTheWillingFlood(p: Primitives, v: View, hops: seq<seq<byte>>, sz: nat, i: nat, seen: set<Hash>, a: Answers)
    requires Sound(p) && 1 <= sz <= 3 && |hops| <= 63 && |hops| * sz <= MAX_PATH_SIZE && Keys(hops) && i < |hops|
    requires IsRouteFlood(v.header) && Routable(v) && PacketHash(p, v) !in seen
    ensures OnRecv(p, hops[i], seen, Recorded(v, hops[..i], sz), a).action.Retransmit? <==> Willing(v, a)
  {
    if Willing(v, a) {
      FloodRecords(p, v, hops, sz, i, seen, a);
    } else {
      FloodOrDirect(v.header);
      RoutableIsRouted(v);
      hide PathByteLen, HashCount, HashSize, WithHashCount, PacketHash, Prefixes, IsRouteFlood, IsRouteDirect, Sealed, PathData;
    }
  }

  /** and only they a direct packet or an acknowledgement. */
  lemma OnlyTheWillingForward(p: Primitives, v: View, hops: seq<seq<byte>>, sz: nat, i: nat, seen: set<Hash>, a: Answers)
    requires Sound(p) && 1 <= sz <= 3 && |hops| <= 63 && Keys(hops) && i < |hops| && PacketHash(p, v) !in seen
    requires Forwardable(v) || (v.header == 4 * PAYLOAD_TYPE_ACK + 2 && v.code0 == v.code1 == 0)
    ensures HandedOn(OnRecv(p, hops[i], seen, Remaining(v, hops, sz, i), a)) == Some(Remaining(v, hops, sz, i + 1)) <==> Willing(v, a)
  {
    if Willing(v, a) {
      if Forwardable(v) {
        DirectForwards(p, v, hops, sz, i, seen, a);
      } else {
        AckForwards(p, v, hops, sz, i, seen, a);
        LastOfAcks(Remaining(v, hops, sz, i + 1), v.payload, a.pool, a.extraAcks);
        hide Acks;
      }
    } else {
      var w := Remaining(v, hops, sz, i);
      AckHeader();
      hide PathByteLen, HashSize, PacketHash, Prefixes, IsRouteDirect, IsRouteFlood, PayloadType, OnRecv;
      Refuses(p, w, hops[i], seen, a);
    }
  }

  lemma AckHeader()
    ensures IsRouteDirect(4 * PAYLOAD_TYPE_ACK + 2) && PayloadType(4 * PAYLOAD_TYPE_ACK + 2) == PAYLOAD_TYPE_ACK
    ensures PayloadType(0xff) == PAYLOAD_TYPE_RAW_CUSTOM
  {
  }

  /**
   * An unwilling node keeps a direct packet, but for an awaited acknowledgement, which it may send on with its mark, and
   * for extra copies of one, if the pool has no more packets.
   */
  lemma Refuses(p: Primitives, w: View, pub: seq<byte>, seen: set<Hash>, a: Answers)
    requires Sound(p) && |pub| == 32 && |w.path| == PathByteLen(w.pathLen) && HashCount(w.pathLen) > 0
    requires IsRouteDirect(w.header) && PayloadType(w.header) !in {PAYLOAD_TYPE_TRACE, PAYLOAD_TYPE_MULTIPART} && !Willing(w, a)
    ensures var o := HandedOn(OnRecv(p, pub, seen, w, a));
            o.None? || (PayloadType(w.header) == PAYLOAD_TYPE_ACK && o.value.header in {0xff, 4 * PAYLOAD_TYPE_MULTIPART + 2})
  {
    CountRange(w.pathLen);
    LastOfAcks(WithoutHead(w), w.payload, a.pool, a.extraAcks);
    FloodOrDirect(w.header);
    AckHeader();
    hide PathByteLen, HashCount, HashSize, WithHashCount, PacketHash, IsRouteDirect, IsRouteFlood, IsHashMatch, PayloadType, Acks, AckCopy, WithoutHead;
  }

  /** The packet handed from node to node, from node i on: each does what onRecvPacket says, and must send it or a copy on. */
  ghost function Passed(p: Primitives, v: View, hops: seq<seq<byte>>, seen: seq<set<Hash>>, a: seq<Answers>, i: nat): Option<View>
    requires Sound(p) && Keys(hops) && |seen| == |a| == |hops| && i <= |hops| && |v.path| == PathByteLen(v.pathLen)
    decreases |hops| - i
  {
    if i == |hops| then Some(v) else
    var o := OnRecv(p, hops[i], seen[i], v, a[i]);
    var w := HandedOn(o);
    if w.Some? && |w.value.path| == PathByteLen(w.value.pathLen) then Passed(p, w.value, hops, seen, a, i + 1) else None
  }

  /** Every node on the way is willing, and none has seen the packet. */
  ghost predicate Open(p: Primitives, v: View, seen: seq<set<Hash>>, a: seq<Answers>)
    requires Sound(p)
  {
    && (forall i :: 0 <= i < |seen| ==> PacketHash(p, v) !in seen[i])
    && (forall i :: 0 <= i < |a| ==> Willing(v, a[i]))
  }

  lemma {:induction false} FloodRun(p: Primitives, v: View, hops: seq<seq<byte>>, sz: nat, seen: seq<set<Hash>>, a: seq<Answers>, i: nat)
    requires Sound(p) && 1 <= sz <= 3 && |hops| <= 63 && |hops| * sz <= MAX_PATH_SIZE && Keys(hops)
    requires IsRouteFlood(v.header) && Routable(v) && |seen| == |a| == |hops| && Open(p, v, seen, a) && i <= |hops|
    ensures Passed(p, Recorded(v, hops[..i], sz), hops, seen, a, i) == Some(Recorded(v, hops, sz))
    decreases |hops| - i
  {
    hide PathByteLen, HashCount, HashSize, PacketHash, Prefixes, OnRecv, Routable, IsRouteFlood;
    if i == |hops| {
      assert hops[..i] == hops;
    } else {
      FloodRecords(p, v, hops, sz, i, seen[i], a[i]);
      FloodRun(p, v, hops, sz, seen, a, i + 1);
    }
  }

  lemma {:induction false} DirectRun(p: Primitives, v: View, hops: seq<seq<byte>>, sz: nat, seen: seq<set<Hash>>, a: seq<Answers>, i: nat)
    requires Sound(p) && 1 <= sz <= 3 && |hops| <= 63 && Keys(hops)
    requires Forwardable(v) && |seen| == |a| == |hops| && Open(p, v, seen, a) && i <= |hops|
    ensures Passed(p, Remaining(v, hops, sz, i), hops, seen, a, i) == Some(Remaining(v, hops, sz, |hops|))
    decreases |hops| - i
  {
    hide PathByteLen, HashCount, HashSize, PacketHash, Prefixes, OnRecv, Forwardable;
    if i < |hops| {
      DirectForwards(p, v, hops, sz, i, seen[i], a[i]);
      DirectRun(p, v, hops, sz, seen, a, i + 1);
    }
  }

  /** An acknowledgement travels over the hops as a chain of copies. */
  lemma {:induction false} AckRun(p: Primitives, v: View, hops: seq<seq<byte>>, sz: nat, seen: seq<set<Hash>>, a: seq<Answers>, i: nat)
    requires Sound(p) && 1 <= sz <= 3 && |hops| <= 63 && Keys(hops)
    requires v.header == 4 * PAYLOAD_TYPE_ACK + 2 && v.code0 == v.code1 == 0
    requires |seen| == |a| == |hops| && Open(p, v, seen, a) && i <= |hops|
    ensures Passed(p, Remaining(v, hops, sz, i), hops, seen, a, i) == Some(Remaining(v, hops, sz, |hops|))
    decreases |hops| - i
  {
    hide PathByteLen, HashCount, HashSize, PacketHash, Prefixes, OnRecv;
    if i < |hops| {
      AckForwards(p, v, hops, sz, i, seen[i], a[i]);
      LastOfAcks(Remaining(v, hops, sz, i + 1), v.payload, a[i].pool, a[i].extraAcks);
      AckRun(p, v, hops, sz, seen, a, i + 1);
    }
  }

  /** What the originator of a flood has in hand when the path that a copy recorded has come back to it. */
  ghost function Returned(p: Primitives, P: View, secret: seq<byte>, extraType: byte, extra: seq<byte>, random: seq<byte>): seq<byte>
    requires Sound(p) && |secret| == 32
  {
    Opened(p, secret, Sealed(p, secret, PathData(P.pathLen, P.path, extraType, extra, random)))
  }

  /**
   * A recorded path, returned under encryption and stored, takes a fresh packet over the recorded hops in order; it
   * arrives unchanged and with an empty path. So does an acknowledgement, as a chain of copies.
   */
  lemma ReturnedPathWorks(p: Primitives, flood: View, hops: seq<seq<byte>>, sz: nat,
                          secret: seq<byte>, extraType: byte, extra: seq<byte>, random: seq<byte>,
                          data: View, seen: seq<set<Hash>>, a: seq<Answers>)
    requires Sound(p) && 1 <= sz <= 3 && |hops| <= 63 && |hops| * sz <= MAX_PATH_SIZE && Keys(hops) && |secret| == 32 && |random| == 4
    requires |hops| * sz + |extra| + 5 <= MAX_COMBINED_PATH
    requires var w := Directed(data, [], 0);
      && |seen| == |a| == |hops| && Open(p, w, seen, a)
      && (Forwardable(w) || w.header == 4 * PAYLOAD_TYPE_ACK + 2)
    ensures var P := Recorded(flood, hops, sz);
            var d := Returned(p, P, secret, extraType, extra, random);
            && IsValidPathLen(P.pathLen) && 2 + |P.path| <= |d| && d[0] == P.pathLen
            && |d[1..1 + |P.path|]| == PathByteLen(d[0])
            && var arrived := Passed(p, Directed(data, d[1..1 + |P.path|], d[0]), hops, seen, a, 0);
               && arrived == Some(Directed(data, [], PathLenOf(sz, 0)))
               && arrived.value.payload == data.payload && arrived.value.path == [] && RouteType(arrived.value.header) == 2
               && PayloadType(arrived.value.header) == PayloadType(data.header) && PayloadVer(arrived.value.header) == PayloadVer(data.header)
  {
    hide Sealed, Opened, PathByteLen, HashCount, HashSize, Prefixes, PacketHash, OnRecv, Passed, Forwardable, Open, Routed;
    var P := Recorded(flood, hops, sz);
    assert |P.path| == PathByteLen(P.pathLen);
    RecordedIsValid(sz, |hops|);
    ReturnSurvives(p, secret, P.pathLen, P.path, extraType, extra, random);
    assert hops[0..] == hops;
    var w := Directed(data, [], 0);
    assert Directed(data, P.path, P.pathLen) == Remaining(w, hops, sz, 0);
    if Forwardable(w) {
      DirectRun(p, w, hops, sz, seen, a, 0);
    } else {
      AckRun(p, w, hops, sz, seen, a, 0);
    }
    assert hops[|hops|..] == [];
  }

  /**
   * A path learned by flooding works for direct routing: recorded over some hops, returned under encryption and
   * stored, it takes a fresh packet over the same hops in order, which arrives unchanged and with an empty path.
   */
  lemma LearnedPathWorks(p: Primitives, flood: View, hops: seq<seq<byte>>, sz: nat, seen: seq<set<Hash>>, a: seq<Answers>,
                         secret: seq<byte>, extraType: byte, extra: seq<byte>, random: seq<byte>,
                         data: View, seen': seq<set<Hash>>, a': seq<Answers>)
    requires Sound(p) && 1 <= sz <= 3 && |hops| <= 63 && |hops| * sz <= MAX_PATH_SIZE && Keys(hops) && |secret| == 32 && |random| == 4
    requires IsRouteFlood(flood.header) && Routable(flood) && |seen| == |a| == |hops| && Open(p, flood, seen, a)
    requires |hops| * sz + |extra| + 5 <= MAX_COMBINED_PATH
    requires var w := Directed(data, [], 0);
      && |seen'| == |a'| == |hops| && Open(p, w, seen', a')
      && (Forwardable(w) || w.header == 4 * PAYLOAD_TYPE_ACK + 2)
    ensures Passed(p, Recorded(flood, [], sz), hops, seen, a, 0) == Some(Recorded(flood, hops, sz))
    ensures var P := Recorded(flood, hops, sz);
            var d := Returned(p, P, secret, extraType, extra, random);
            && IsValidPathLen(P.pathLen) && 2 + |P.path| <= |d| && d[0] == P.pathLen
            && |d[1..1 + |P.path|]| == PathByteLen(d[0])
            && var arrived := Passed(p, Directed(data, d[1..1 + |P.path|], d[0]), hops, seen', a', 0);
               && arrived == Some(Directed(data, [], PathLenOf(sz, 0)))
               && arrived.value.payload == data.payload && arrived.value.path == [] && RouteType(arrived.value.header) == 2
               && PayloadType(arrived.value.header) == PayloadType(data.header) && PayloadVer(arrived.value.header) == PayloadVer(data.header)
  {
    hide *;
    assert hops[..0] == [];
    FloodRun(p, flood, hops, sz, seen, a, 0);
    ReturnedPathWorks(p, flood, hops, sz, secret, extraType, extra, random, data, seen', a');
  }

  lemma RecordedIsValid(sz: nat, n: nat)
    requires 1 <= sz <= 3 && n <= 63 && n * sz <= MAX_PATH_SIZE
    ensures IsValidPathLen(PathLenOf(sz, n))
  {
    hide PathByteLen;
  }

  // -------------------------------------------------------------------------
  // TRACE: the route is in the payload, and the path collects readings
  // -------------------------------------------------------------------------

  /** Behind nine fixed bytes the payload lists the hops, each by the first bytes of its key. */
  ghost predicate IsTrace(v: View, hops: seq<seq<byte>>)
    requires Keys(hops)
  {
    && IsRouteDirect(v.header) && PayloadType(v.header) == PAYLOAD_TYPE_TRACE
    && 9 <= |v.payload| <= MAX_PACKET_PAYLOAD && v.payload[9..] == Prefixes(hops, EntrySize(v.payload[8]))
  }

  lemma {:induction false} PrefixAt(hops: seq<seq<byte>>, sz: nat, i: nat)
    requires sz <= 32 && Keys(hops) && i < |hops|
    ensures (i + 1) * sz <= |hops| * sz && Prefixes(hops, sz)[i * sz..(i + 1) * sz] == hops[i][..sz]
  {
    var n := |hops| - 1;
    if i < n {
      PrefixAt(hops[..n], sz, i);
      assert (n + 1) * sz == n * sz + sz;
      var front := Prefixes(hops[..n], sz);
      assert Prefixes(hops, sz)[..|front|] == front;
    }
  }

  lemma RouteEntry(v: View, hops: seq<seq<byte>>, pub: seq<byte>, memory: Memory)
    requires Keys(hops) && IsTrace(v, hops) && |pub| == 32 && memory[..|v.payload|] == v.payload
    ensures var sz := EntrySize(v.payload[8]); TraceIsHere(v, pub, memory) <==> v.pathLen < |hops| && hops[v.pathLen][..sz] == pub[..sz]
  {
    hide Prefixes, IsRouteDirect, PayloadType;
    var i, sz := v.pathLen, EntrySize(v.payload[8]);
    assert memory[8] == memory[..|v.payload|][8];
    MultipleBelow(i, |hops|, sz);
    if i < |hops| {
      PrefixAt(hops, sz, i);
      InPayload(memory, |v.payload|, i * sz, (i + 1) * sz);
    }
  }

  lemma InPayload(memory: seq<byte>, n: nat, from: nat, to: nat)
    requires from <= to && 9 + to <= n <= |memory|
    ensures memory[9 + from..9 + to] == memory[..n][9..][from..to]
  {
    var payload := memory[..n];
    var rest := payload[9..];
    forall k: nat | k < to - from
      ensures memory[9 + from..9 + to][k] == rest[from..to][k]
    {
      assert payload[9 + from + k] == rest[from + k];
    }
  }

  lemma MultipleBelow(i: nat, n: nat, sz: nat)
    requires sz > 0
    ensures i * sz < n * sz <==> i < n
  {
    if i < n {
      MulMono(i + 1, n, sz);
    } else {
      MulMono(n, i, sz);
    }
  }

  /** Exactly the node that the route names next sends a TRACE on, with its reading; behind the last node nobody does. */
  lemma TraceForwards(p: Primitives, v: View, hops: seq<seq<byte>>, pub: seq<byte>, seen: set<Hash>, a: Answers)
    requires Sound(p) && Keys(hops) && IsTrace(v, hops) && |pub| == 32 && v.pathLen < 64 && |v.path| == PathByteLen(v.pathLen)
    requires a.memory[..|v.payload|] == v.payload
    ensures var sz, h := EntrySize(v.payload[8]), PacketHash(p, v);
            OnRecv(p, pub, seen, v, a)
            == if v.pathLen < |hops| && hops[v.pathLen][..sz] == pub[..sz] && a.allowForward && h !in seen
               then Outcome(Retransmit(5), WithReading(v, a.snr), seen + {h}, []) else Outcome(Release, v, seen, [])
  {
    RouteEntry(v, hops, pub, a.memory);
    hide Prefixes, PacketHash, TraceIsHere, PathByteLen, IsRouteDirect, PayloadType;
  }

  /** The TRACE with the readings of the first i nodes. */
  ghost function Traced(v: View, a: seq<Answers>, i: nat): (w: View)
    requires i <= |a| && i <= 63
    ensures w.header == v.header && w.payload == v.payload && w.code0 == v.code0 && w.code1 == v.code1
    ensures w.pathLen == |w.path| == i && forall k :: 0 <= k < i ==> w.path[k] == a[k].snr
  {
    v.(pathLen := i, path := Readings(a[..i]))
  }

  ghost function Readings(a: seq<Answers>): (s: seq<byte>)
    ensures |s| == |a| && forall k :: 0 <= k < |a| ==> s[k] == a[k].snr
  {
    if |a| == 0 then [] else Readings(a[..|a| - 1]) + [a[|a| - 1].snr]
  }

  lemma NextReading(v: View, a: seq<Answers>, i: nat)
    requires i < |a| && i < 63
    ensures |Readings(a[..i])| == PathByteLen(i) && WithReading(Traced(v, a, i), a[i].snr) == Traced(v, a, i + 1)
  {
    OneByteEntries(i);
    hide PathByteLen;
    assert a[..i + 1][..i] == a[..i];
  }

  /** Over willing nodes a TRACE follows the whole route, and ends with a reading of each node in order. */
  lemma {:induction false} TraceRun(p: Primitives, v: View, hops: seq<seq<byte>>, seen: seq<set<Hash>>, a: seq<Answers>, i: nat)
    requires Sound(p) && Keys(hops) && IsTrace(v, hops) && |seen| == |a| == |hops| <= 63 && i <= |hops|
    requires forall k :: 0 <= k < |hops| ==>
               a[k].allowForward && a[k].memory[..|v.payload|] == v.payload && PacketHash(p, Traced(v, a, k)) !in seen[k]
    ensures |Readings(a[..i])| == PathByteLen(i)
    ensures Passed(p, Traced(v, a, i), hops, seen, a, i) == Some(Traced(v, a, |hops|))
    decreases |hops| - i
  {
    OneByteEntries(i);
    hide Prefixes, PacketHash, PathByteLen, IsRouteDirect, PayloadType, OnRecv, Readings, WithReading;
    if i < |hops| {
      TraceForwards(p, Traced(v, a, i), hops, hops[i], seen[i], a[i]);
      NextReading(v, a, i);
      OneByteEntries(i + 1);
      TraceRun(p, v, hops, seen, a, i + 1);
    }
  }
}

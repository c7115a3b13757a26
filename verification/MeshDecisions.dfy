/** When a node sends a packet on, and what it learns: Mesh.cpp, kind by kind. */
module MeshDecisions {
  import opened Arith
  import opened Bits
  import opened Buffers
  import opened Options
  import opened MeshPacket
  import opened MeshCrypto
  import opened MeshRouting
  import opened MeshPaths

  // -------------------------------------------------------------------------
  // Floods
  // -------------------------------------------------------------------------

  /** A flood goes on exactly if its type is routed, the hooks are willing, it is new, and the path has room for one entry more. */
  lemma FloodExactly(p: Primitives, pub: seq<byte>, seen: set<Hash>, v: View, a: Answers)
    requires Sound(p) && |pub| == 32 && |v.path| == PathByteLen(v.pathLen) && IsRouteFlood(v.header)
    ensures OnRecv(p, pub, seen, v, a).action
            == if Routable(v) && Willing(v, a) && PacketHash(p, v) !in seen && (HashCount(v.pathLen) + 1) * HashSize(v.pathLen) <= MAX_PATH_SIZE
               then Retransmit(if HashCount(v.pathLen) < 63 then HashCount(v.pathLen) + 1 else 0) else Release
  {
    FloodOrDirect(v.header);
    RouteExactly(v, pub, a.allowForward);
    hide PathByteLen, HashCount, HashSize, PacketHash, IsRouteFlood, IsRouteDirect, PayloadType, PathBack, IsMultipartAck, RouteFlood;
  }

  /** The shortest payload that is routed, by type: request, response, text, acknowledgement, advertisement, group text and data, anonymous request, path. */
  lemma RoutableExactly(v: View)
    ensures Routable(v) <==> v.header / 4 % 16 <= 8 && |v.payload| >= [5, 5, 5, 4, 100, 4, 4, 36, 5][v.header / 4 % 16]
  {
    var t := PayloadType(v.header);
    assert t == v.header / 4 % 16;
    hide PayloadType;
  }

  lemma RouteExactly(v: View, pub: seq<byte>, allow: bool)
    requires |pub| == 32 && |v.path| == PathByteLen(v.pathLen) && IsRouteFlood(v.header)
    ensures RouteFlood(v, pub, allow).0
            == if allow && (HashCount(v.pathLen) + 1) * HashSize(v.pathLen) <= MAX_PATH_SIZE
               then Retransmit(if HashCount(v.pathLen) < 63 then HashCount(v.pathLen) + 1 else 0) else Release
  {
    FloodNotMarked(v.header);
    if Floods(v, allow) {
      AppendExactly(v, pub, allow);
      ZeroCount();
    }
    hide PathByteLen, HashCount, HashSize, WithHashCount, IsRouteFlood, WithSelf;
  }

  lemma ZeroCount()
    ensures HashCount(64) == 0
  {
  }

  /** A new flood is known afterwards unless it is filtered, too short, or the own advertisement; nothing else is learned but the path sent back. */
  lemma FloodLearns(p: Primitives, pub: seq<byte>, seen: set<Hash>, v: View, a: Answers)
    requires Sound(p) && |pub| == 32 && |v.path| == PathByteLen(v.pathLen) && IsRouteFlood(v.header)
    requires PayloadType(v.header) != PAYLOAD_TYPE_MULTIPART && PacketHash(p, v) !in seen
    ensures var o := OnRecv(p, pub, seen, v, a);
            if Routable(v) && !a.filterFlood && !(PayloadType(v.header) == PAYLOAD_TYPE_ADVERT && a.selfAdvert)
            then o.seen == seen + {PacketHash(p, v)} + HashesOf(p, PathBack(p, pub, v, a)) && o.sent == Sendable(PathBack(p, pub, v, a))
            else o.seen == seen && o.sent == []
  {
    FloodOrDirect(v.header);
    PathBackType(p, pub, v, a);
    hide PathByteLen, HashCount, HashSize, WithHashCount, PacketHash, IsRouteFlood, IsRouteDirect, PayloadType, WithSelf, PathBack, IsMultipartAck,
      RouteFlood;
  }

  // -------------------------------------------------------------------------
  // Direct packets with hops left
  // -------------------------------------------------------------------------

  /** The head of the path is the beginning of the own key. */
  ghost predicate IsNext(v: View, pub: seq<byte>) {
    |pub| == 32 && HashSize(v.pathLen) <= |v.path| && HashSize(v.pathLen) <= 32 && v.path[..HashSize(v.pathLen)] == pub[..HashSize(v.pathLen)]
  }

  /** A node that is not next keeps the packet and learns nothing; the next one sends it on once if it forwards, without the head. */
  lemma DirectExactly(p: Primitives, pub: seq<byte>, seen: set<Hash>, v: View, a: Answers)
    requires Sound(p) && |pub| == 32 && |v.path| == PathByteLen(v.pathLen) && IsRouteDirect(v.header) && HashCount(v.pathLen) > 0
    requires PayloadType(v.header) !in {PAYLOAD_TYPE_TRACE, PAYLOAD_TYPE_MULTIPART} && !IsAwaited(v, a)
    requires PayloadType(v.header) == PAYLOAD_TYPE_CONTROL ==> a.memory[0] < 128
    ensures var o, h := OnRecv(p, pub, seen, v, a), PacketHash(p, v);
            if IsNext(v, pub) && a.allowForward && h !in seen then
              o.seen == seen + {h}
              && if PayloadType(v.header) == PAYLOAD_TYPE_ACK
                 then o.action == Release && o.sent == Acks(WithoutHead(v), v.payload, a.pool, a.extraAcks)
                 else o == Outcome(Retransmit(0), WithoutHead(v), seen + {h}, [])
            else o == Outcome(Release, v, seen, [])
    ensures var w := WithoutHead(v);
            && w.header == v.header && w.payload == v.payload && HashCount(w.pathLen) == HashCount(v.pathLen) - 1
            && HashSize(w.pathLen) == HashSize(v.pathLen) && HashSize(v.pathLen) <= |v.path| && w.path == v.path[HashSize(v.pathLen)..]
  {
    CountRange(v.pathLen);
    LessOne(v.pathLen);
    IsHashMatchDef(v, pub);
    SizeBound(v.pathLen);
    hide PathByteLen, HashCount, HashSize, WithHashCount, PacketHash, IsRouteDirect, PayloadType, IsHashMatch, Acks;
  }

  lemma LessOne(n: byte)
    requires HashCount(n) > 0
    ensures var m := WithHashCount(n, HashCount(n) - 1);
            0 <= m < 256 && HashCount(m) == HashCount(n) - 1 && HashSize(m) == HashSize(n)
  {
    hide HashCount, HashSize, WithHashCount;
    assert WithHashCount(n, HashCount(n) - 1) == n - 1;
  }

  lemma SizeBound(n: byte)
    ensures HashSize(n) <= 4
  {
  }

  /** Control packets with the top bit of the first byte set go no hop further. */
  lemma ZeroHopControl(p: Primitives, pub: seq<byte>, seen: set<Hash>, v: View, a: Answers)
    requires Sound(p) && |pub| == 32 && |v.path| == PathByteLen(v.pathLen) && IsRouteDirect(v.header)
    requires v.header / 4 % 16 == 11 && a.memory[0] >= 128
    ensures OnRecv(p, pub, seen, v, a) == Outcome(Release, v, seen, [])
  {
    hide PathByteLen, IsRouteDirect, PayloadType, OnDirect, OnArrival;
  }

  /** Of a multipart packet the next node sends on the acknowledgement inside, once; no multipart packet goes on itself. */
  lemma MultipartExactly(p: Primitives, pub: seq<byte>, seen: set<Hash>, v: View, a: Answers)
    requires Sound(p) && |pub| == 32 && |v.path| == PathByteLen(v.pathLen) && IsRouteDirect(v.header) && HashCount(v.pathLen) > 0
    requires PayloadType(v.header) == PAYLOAD_TYPE_MULTIPART
    ensures OnRecv(p, pub, seen, v, a).action == Release
    ensures var o := OnRecv(p, pub, seen, v, a);
            if IsNext(v, pub) && a.allowForward && |v.payload| >= 5 && v.payload[0] % 16 == PAYLOAD_TYPE_ACK then
              var part := v.(payload := v.payload[1..]);
              && o.seen == seen + {PacketHash(p, part)}
              && o.sent == if PacketHash(p, part) in seen then [] else Acks(WithoutHead(part), v.payload[1..], a.pool, a.extraAcks)
            else o.seen == seen && o.sent == []
  {
    CountRange(v.pathLen);
    IsHashMatchDef(v, pub);
    SizeBound(v.pathLen);
    hide PathByteLen, HashCount, HashSize, WithHashCount, PacketHash, IsRouteDirect, PayloadType, IsHashMatch, Acks;
  }

  /** A TRACE is routed by its payload whatever the length of that: a payload of n < 9 bytes has n + 247 bytes of route in a uint8_t. */
  lemma TraceExactly(p: Primitives, pub: seq<byte>, seen: set<Hash>, v: View, a: Answers)
    requires Sound(p) && |pub| == 32 && |v.path| == PathByteLen(v.pathLen) && IsRouteDirect(v.header) && v.header / 4 % 16 == 9
    requires |v.payload| <= MAX_PACKET_PAYLOAD
    ensures var sz := EntrySize(a.memory[8]); var from, h := v.pathLen * sz, PacketHash(p, v);
            OnRecv(p, pub, seen, v, a)
            == if v.pathLen < 64 && from < (if |v.payload| < 9 then |v.payload| + 247 else |v.payload| - 9)
                  && a.memory[9 + from..9 + from + sz] == pub[..sz] && a.allowForward && h !in seen
               then Outcome(Retransmit(5), WithReading(v, a.snr), seen + {h}, []) else Outcome(Release, v, seen, [])
  {
    hide PathByteLen, PacketHash, IsRouteDirect, PayloadType;
  }

  // -------------------------------------------------------------------------
  // What arrives and is not routed
  // -------------------------------------------------------------------------

  /** At the end of its path nothing goes on; a multipart acknowledgement counts as seen, and so does a raw packet that came directly. */
  lemma ArrivalExactly(p: Primitives, pub: seq<byte>, seen: set<Hash>, v: View, a: Answers)
    requires Sound(p) && |pub| == 32 && |v.path| == PathByteLen(v.pathLen)
    requires IsRouteFlood(v.header) || HashCount(v.pathLen) == 0
    requires PayloadType(v.header) in {PAYLOAD_TYPE_MULTIPART, PAYLOAD_TYPE_RAW_CUSTOM, PAYLOAD_TYPE_CONTROL, 12, 13, 14}
    ensures var o := OnRecv(p, pub, seen, v, a);
            && o.action == Release && o.sent == []
            && o.seen == seen + if IsRouteFlood(v.header) && a.filterFlood then {}
                                else if PayloadType(v.header) == PAYLOAD_TYPE_MULTIPART && |v.payload| >= 5 && v.payload[0] % 16 == PAYLOAD_TYPE_ACK
                                then {PacketHash(p, v.(payload := v.payload[1..]))}
                                else if PayloadType(v.header) == PAYLOAD_TYPE_RAW_CUSTOM && IsRouteDirect(v.header) then {PacketHash(p, v)} else {}
  {
    FloodOrDirect(v.header);
    hide PathByteLen, HashCount, HashSize, WithHashCount, PacketHash, IsRouteFlood, IsRouteDirect, PayloadType, RouteFlood, PathBack;
  }

  // -------------------------------------------------------------------------
  // What is sent besides
  // -------------------------------------------------------------------------

  /** When a path goes back: to a path that flooded in for this node, from a known peer that accepts, if the pool has a packet and the path fits. */
  lemma PathBackExactly(p: Primitives, pub: seq<byte>, v: View, a: Answers)
    requires Sound(p) && |pub| == 32
    ensures PathBack(p, pub, v, a).Some? <==>
            && v.header / 4 % 16 == 8 && v.header % 4 <= 1 && |v.payload| > 4 && a.forSelf && a.pathFrom.Some?
            && a.pool > 0 && (v.pathLen % 64) * (v.pathLen / 64 + 1) + 5 <= 166
  {
    hide Sealed, PathData, HashCount, HashSize, PayloadType, RouteType, Addressed;
  }

  /** A path goes back to the sender of one that flooded in for this node and was accepted: who sent and who received it, and under encryption its path. */
  lemma PathBackMeans(p: Primitives, pub: seq<byte>, v: View, a: Answers)
    requires Sound(p) && |pub| == 32 && |v.path| == PathByteLen(v.pathLen) && IsValidPathLen(v.pathLen) && PathBack(p, pub, v, a).Some?
    ensures PayloadType(v.header) == PAYLOAD_TYPE_PATH && IsRouteFlood(v.header) && a.forSelf && a.pathFrom.Some? && |v.payload| > 4
    ensures var w, r := PathBack(p, pub, v, a).value, a.pathFrom.value;
            && PayloadType(w.header) == PAYLOAD_TYPE_PATH && RouteType(w.header) == 2 && w.pathLen == r.pathLen
            && (IsValidPathLen(r.pathLen) ==> w.path == r.path)
            && |w.payload| > 2 && w.payload[0] == v.payload[1] && w.payload[1] == pub[0]
            && var d := Opened(p, r.secret, w.payload[2..]);
               2 + |v.path| <= |d| && d[0] == v.pathLen && d[1..1 + |v.path|] == v.path && d[1 + |v.path|] == 0xff
  {
    PathBackType(p, pub, v, a);
    BackForm(p, pub, v, a);
    var r := a.pathFrom.value;
    hide Sealed, Opened, PathData, PathByteLen, HashCount, HashSize, IsValidPathLen, IsRouteFlood, PayloadType, RouteType, PathBack;
    PathRoom(v.pathLen);
    ReturnSurvives(p, r.secret, v.pathLen, v.path, 0, [], r.random);
  }

  lemma PathRoom(n: byte)
    requires IsValidPathLen(n)
    ensures PathByteLen(n) + 5 <= MAX_COMBINED_PATH
  {
  }

  lemma BackForm(p: Primitives, pub: seq<byte>, v: View, a: Answers)
    requires Sound(p) && |pub| == 32 && PathBack(p, pub, v, a).Some? && a.pathFrom.Some? && |v.payload| > 1
    ensures var w, r := PathBack(p, pub, v, a).value, a.pathFrom.value;
            && PayloadType(w.header) == PAYLOAD_TYPE_PATH && RouteType(w.header) == 2 && w.pathLen == r.pathLen
            && (IsValidPathLen(r.pathLen) ==> w.path == r.path)
            && |w.payload| > 2 && w.payload[0] == v.payload[1] && w.payload[1] == pub[0]
            && w.payload[2..] == Sealed(p, r.secret, PathData(v.pathLen, v.path, 0, [], r.random))
  {
    var r := a.pathFrom.value;
    var sealed := Sealed(p, r.secret, PathData(v.pathLen, v.path, 0, [], r.random));
    SealedLonger(p, r.secret, PathData(v.pathLen, v.path, 0, [], r.random));
    var payload := [v.payload[1], pub[0]] + sealed;
    assert payload[2..] == sealed;
    PathType();
    var u := View(4 * PAYLOAD_TYPE_PATH, 0, 0, 0, [], payload);
    DirectStarts(p, u, r.path, r.pathLen);
    assert r.path[..PathByteLen(r.pathLen)] == r.path;
    hide Sealed, PathData, PathByteLen, HashCount, HashSize, IsValidPathLen, IsRouteFlood, PayloadType, RouteType, Addressed;
  }

  lemma PathType()
    ensures PayloadType(4 * PAYLOAD_TYPE_PATH) == PAYLOAD_TYPE_PATH
  {
  }

  lemma SealedLonger(p: Primitives, secret: seq<byte>, m: seq<byte>)
    requires Sound(p) && |secret| == 32
    ensures |Sealed(p, secret, m)| >= 2
  {
  }

  /** The copies of an acknowledgement: direct, over the path that is left, with the same bytes; the extra ones say how many are to come. */
  lemma AckCopies(v: View, payload: seq<byte>, n: byte)
    requires |payload| >= 4
    ensures var w := AckCopy(v, payload);
            && PayloadType(w.header) == PAYLOAD_TYPE_ACK && RouteType(w.header) == 2 && w.payload == payload
            && w.path == v.path && w.pathLen == v.pathLen && w.code0 == 0 && w.code1 == 0
    ensures var w := MultiAck(v, payload, n);
            && PayloadType(w.header) == PAYLOAD_TYPE_MULTIPART && RouteType(w.header) == 2 && w.path == v.path && w.pathLen == v.pathLen
            && IsMultipartAck(w) && Part(w).payload == payload && w.payload[0] / 16 == n % 16 && w.code0 == 0 && w.code1 == 0
  {
    AckTypes();
    hide PayloadType, RouteType;
    assert ([n % 16 * 16 + PAYLOAD_TYPE_ACK] + payload)[1..] == payload;
  }

  lemma AckTypes()
    ensures PayloadType(4 * PAYLOAD_TYPE_ACK + 2) == PAYLOAD_TYPE_ACK && RouteType(4 * PAYLOAD_TYPE_ACK + 2) == 2
    ensures PayloadType(4 * PAYLOAD_TYPE_MULTIPART + 2) == PAYLOAD_TYPE_MULTIPART && RouteType(4 * PAYLOAD_TYPE_MULTIPART + 2) == 2
  {
  }
}

/** Runs of a whole network: nodes send packets of their own, and any node may receive any copy, any number of times. */
module MeshNetwork {
  import opened Bits
  import opened FiniteSets
  import opened Options
  import opened MeshPacket
  import opened MeshCrypto
  import opened MeshRouting
  import opened MeshPaths

  /** Why a copy was sent: by its originator, as a relay of a copy heard, or as an acknowledgement passed on. */
  datatype Kind = Origin | Relay(heard: nat) | AckCopy(heard: nat)

  datatype Sent = Sent(node: nat, pkt: View, kind: Kind)

  /** The keys of the nodes, what each has seen, and all copies sent so far. */
  datatype Net = Net(keys: seq<seq<byte>>, seen: seq<set<Hash>>, air: seq<Sent>)

  datatype Event =
    | Originate(node: nat, pkt: View)
    | Deliver(node: nat, copy: nat, answers: Answers)

  ghost predicate Formed(net: Net) {
    && |net.seen| == |net.keys| && Keys(net.keys)
    && (forall i :: 0 <= i < |net.air| ==> |net.air[i].pkt.path| == PathByteLen(net.air[i].pkt.pathLen))
  }

  ghost predicate Possible(net: Net, e: Event) {
    match e
    case Originate(n, pkt) => n < |net.keys| && |pkt.path| == PathByteLen(pkt.pathLen)
    case Deliver(n, c, _) => n < |net.keys| && c < |net.air|
  }

  ghost function AckCopies(n: nat, c: nat, sent: seq<View>): (s: seq<Sent>)
    ensures |s| == |sent|
  {
    seq(|sent|, i requires 0 <= i < |sent| => Sent(n, sent[i], AckCopy(c)))
  }

  /** The senders mark what they send as seen; a receiver does what onRecvPacket says. */
  ghost function Next(p: Primitives, net: Net, e: Event): Net
    requires Sound(p) && Formed(net) && Possible(net, e)
  {
    match e
    case Originate(n, pkt) =>
      net.(seen := net.seen[n := net.seen[n] + {PacketHash(p, pkt)}], air := net.air + [Sent(n, pkt, Origin)])
    case Deliver(n, c, a) =>
      var o := OnRecv(p, net.keys[n], net.seen[n], net.air[c].pkt, a);
      net.(seen := net.seen[n := o.seen],
           air := net.air + (if o.action.Retransmit? then [Sent(n, o.pkt, Relay(c))] else []) + AckCopies(n, c, o.sent))
  }

  /** A flooded copy with a given hash. */
  ghost predicate IsFloodCopy(p: Primitives, s: Sent, h: Hash)
    requires Sound(p)
  {
    IsRouteFlood(s.pkt.header) && PacketHash(p, s.pkt) == h
  }

  /** The path of a relayed flood copy is the path heard and the relay's own entry; the rest of the copy is as heard. */
  ghost predicate Extends(heard: View, sent: View, key: seq<byte>) {
    && |key| == 32
    && sent.header == heard.header && sent.payload == heard.payload && sent.code0 == heard.code0 && sent.code1 == heard.code1
    && (HashCount(heard.pathLen) + 1) * HashSize(heard.pathLen) <= MAX_PATH_SIZE
    && (HashCount(heard.pathLen) < 63 ==>
          sent.pathLen == heard.pathLen + 1 && sent.path == heard.path + key[..HashSize(heard.pathLen)])
  }

  /** A flood copy is known to the node that sent it; a relayed one extends an earlier flood copy with the same hash. */
  ghost predicate Accounted(p: Primitives, net: Net, i: nat)
    requires Sound(p) && Formed(net) && i < |net.air|
  {
    var s := net.air[i];
    && s.node < |net.keys|
    && (IsRouteFlood(s.pkt.header) ==>
          && PacketHash(p, s.pkt) in net.seen[s.node]
          && (s.kind.Origin? || s.kind.Relay?)
          && (s.kind.Relay? ==>
                && s.kind.heard < i
                && PacketHash(p, net.air[s.kind.heard].pkt) == PacketHash(p, s.pkt)
                && Extends(net.air[s.kind.heard].pkt, s.pkt, net.keys[s.node])))
  }

  /** A relayed flood copy has a hash that its node had not sent before. */
  ghost predicate NewToNode(p: Primitives, net: Net, i: nat, j: nat)
    requires Sound(p) && i < |net.air| && j < |net.air|
  {
    var s, t := net.air[i], net.air[j];
    s.node == t.node && t.kind.Relay? && IsRouteFlood(s.pkt.header) && IsRouteFlood(t.pkt.header) ==>
      PacketHash(p, s.pkt) != PacketHash(p, t.pkt)
  }

  ghost predicate Inv(p: Primitives, net: Net)
    requires Sound(p)
  {
    && Formed(net)
    && (forall i :: 0 <= i < |net.air| ==> Accounted(p, net, i))
    && (forall i, j :: 0 <= i < j < |net.air| ==> NewToNode(p, net, i, j))
  }

  // -------------------------------------------------------------------------
  // The invariant
  // -------------------------------------------------------------------------

  lemma SentAcksAreDirect(p: Primitives, key: seq<byte>, seen: set<Hash>, v: View, a: Answers)
    requires Sound(p) && |key| == 32 && |v.path| == PathByteLen(v.pathLen)
    ensures forall s :: s in OnRecv(p, key, seen, v, a).sent ==> !IsRouteFlood(s.header) && |s.path| == PathByteLen(s.pathLen)
    ensures seen <= OnRecv(p, key, seen, v, a).seen
  {
    hide PathByteLen, IsValidPathLen, HasTransportCodes, WithHashCount, HashCount, HashSize, PacketHash, OnDirect, OnArrival, IsRouteFlood;
    if HashCount(v.pathLen) > 0 {
      CountRange(v.pathLen);
      DirectAcks(p, key, seen, v, a);
    }
    ArrivalLearns(p, key, seen, v, a);
  }

  lemma DirectAcks(p: Primitives, key: seq<byte>, seen: set<Hash>, v: View, a: Answers)
    requires Sound(p) && |key| == 32 && |v.path| == PathByteLen(v.pathLen) && HashCount(v.pathLen) > 0
    ensures forall s :: s in OnDirect(p, key, seen, v, a).sent ==> !IsRouteFlood(s.header) && |s.path| == PathByteLen(s.pathLen)
    ensures seen <= OnDirect(p, key, seen, v, a).seen
  {
    HeadAcks(p, key, seen, if IsAwaited(v, a) then Marked(v) else v, a);
    hide PathByteLen, HashCount, IsRouteFlood, AtHead;
  }

  lemma HeadAcks(p: Primitives, key: seq<byte>, seen: set<Hash>, w: View, a: Answers)
    requires Sound(p) && |key| == 32 && |w.path| == PathByteLen(w.pathLen) && HashCount(w.pathLen) > 0
    ensures forall s :: s in AtHead(p, key, seen, w, a).sent ==> !IsRouteFlood(s.header) && |s.path| == PathByteLen(s.pathLen)
    ensures seen <= AtHead(p, key, seen, w, a).seen
  {
    HeadlessAcks(w, a);
    if IsMultipartAck(w) {
      HeadlessAcks(Part(w), a);
    }
    hide PathByteLen, WithHashCount, HashCount, HashSize, PacketHash, IsMultipartAck, IsHashMatch, Acks, IsRouteFlood, WithoutHead, PayloadType;
  }

  lemma HeadlessAcks(w: View, a: Answers)
    requires |w.path| == PathByteLen(w.pathLen) && HashCount(w.pathLen) > 0
    ensures forall s :: s in Acks(WithoutHead(w), w.payload, a.pool, a.extraAcks) ==>
                          !IsRouteFlood(s.header) && |s.path| == PathByteLen(s.pathLen)
  {
    CountRange(w.pathLen);
    AcksForm(WithoutHead(w), w.payload, a.pool, a.extraAcks);
    FloodOrDirectAll();
    hide PathByteLen, WithHashCount, HashCount, HashSize, Acks, IsRouteDirect, IsRouteFlood;
  }

  lemma FloodOrDirectAll()
    ensures forall h: byte :: IsRouteDirect(h) <==> !IsRouteFlood(h)
  {
  }

  lemma ArrivalLearns(p: Primitives, key: seq<byte>, seen: set<Hash>, v: View, a: Answers)
    requires Sound(p) && |key| == 32 && |v.path| == PathByteLen(v.pathLen)
    ensures forall s :: s in OnArrival(p, key, seen, v, a).sent ==> !IsRouteFlood(s.header) && |s.path| == PathByteLen(s.pathLen)
    ensures seen <= OnArrival(p, key, seen, v, a).seen
  {
    BackIsDirect(p, key, v, a);
    hide PathByteLen, PacketHash, IsMultipartAck, RouteFlood, PathBack, IsRouteFlood, IsValidPathLen;
  }

  lemma BackIsDirect(p: Primitives, key: seq<byte>, v: View, a: Answers)
    requires Sound(p) && |key| == 32
    ensures forall s :: s in Sendable(PathBack(p, key, v, a)) ==> !IsRouteFlood(s.header) && |s.path| == PathByteLen(s.pathLen)
  {
    hide Sealed, PathData, PathByteLen, IsValidPathLen, HashCount, HashSize, Routed;
  }

  /** What the rest of the network keeps while one node learns a hash and copies are added. */
  lemma Grown(p: Primitives, net: Net, next: Net, i: nat)
    requires Sound(p) && Formed(net) && Formed(next) && i < |net.air| && Accounted(p, net, i)
    requires next.keys == net.keys && net.air <= next.air
    requires forall n :: 0 <= n < |net.seen| ==> net.seen[n] <= next.seen[n]
    ensures Accounted(p, next, i)
  {
    hide PacketHash, Extends, IsRouteFlood, PathByteLen;
    assert next.air[i] == net.air[i];
    if net.air[i].kind.Relay? && net.air[i].kind.heard < i {
      assert next.air[net.air[i].kind.heard] == net.air[net.air[i].kind.heard];
    }
  }

  lemma OriginateKeeps(p: Primitives, net: Net, e: Event)
    requires Sound(p) && Inv(p, net) && Possible(net, e) && e.Originate?
    ensures Inv(p, Next(p, net, e))
  {
    hide PacketHash, Extends, IsRouteFlood, PathByteLen, OnRecv;
    var next := Next(p, net, e);
    forall i | 0 <= i < |net.air|
      ensures Accounted(p, next, i)
    {
      Grown(p, net, next, i);
    }
    forall i, j | 0 <= i < j < |next.air|
      ensures NewToNode(p, next, i, j)
    {
      if j < |net.air| {
        assert NewToNode(p, net, i, j);
      }
    }
  }

  /** The relayed copy itself. */
  lemma RelayAccounted(p: Primitives, net: Net, next: Net, n: nat, c: nat, a: Answers)
    requires Sound(p) && Inv(p, net) && n < |net.keys| && c < |net.air|
    requires next == Next(p, net, Deliver(n, c, a)) && Formed(next)
    requires OnRecv(p, net.keys[n], net.seen[n], net.air[c].pkt, a).action.Retransmit?
    ensures |next.air| > |net.air| && Accounted(p, next, |net.air|)
    ensures IsRouteFlood(net.air[c].pkt.header) ==> PacketHash(p, next.air[|net.air|].pkt) !in net.seen[n]
  {
    var v := net.air[c].pkt;
    RelayFacts(p, net.keys[n], net.seen[n], v, a);
    var o := OnRecv(p, net.keys[n], net.seen[n], v, a);
    if IsRouteFlood(v.header) {
      AppendExactly(v, net.keys[n], a.allowForward);
      FloodType(p, net.keys[n], net.seen[n], v, a);
    }
    hide PacketHash, IsRouteFlood, PathByteLen, OnRecv, WithSelf, HashCount, HashSize;
    assert next.air[|net.air|] == Sent(n, o.pkt, Relay(c)) && next.air[c] == net.air[c];
  }

  lemma FloodType(p: Primitives, key: seq<byte>, seen: set<Hash>, v: View, a: Answers)
    requires Sound(p) && |key| == 32 && |v.path| == PathByteLen(v.pathLen) && IsRouteFlood(v.header)
    requires OnRecv(p, key, seen, v, a).action.Retransmit?
    ensures PayloadType(v.header) != PAYLOAD_TYPE_TRACE
  {
    hide PathByteLen, PacketHash, RouteFlood;
    FloodOrDirect(v.header);
  }

  lemma DeliverKeeps(p: Primitives, net: Net, e: Event)
    requires Sound(p) && Inv(p, net) && Possible(net, e) && e.Deliver?
    ensures Inv(p, Next(p, net, e))
  {
    hide PacketHash, Extends, IsRouteFlood, PathByteLen, OnRecv;
    var Deliver(n, c, a) := e;
    var next := Next(p, net, e);
    var v := net.air[c].pkt;
    var o := OnRecv(p, net.keys[n], net.seen[n], v, a);
    SentAcksAreDirect(p, net.keys[n], net.seen[n], v, a);
    if o.action.Retransmit? {
      RelayFacts(p, net.keys[n], net.seen[n], v, a);
    }
    assert Formed(next);
    var m := |net.air| + if o.action.Retransmit? then 1 else 0;
    forall i | 0 <= i < |next.air|
      ensures Accounted(p, next, i)
    {
      if i < |net.air| {
        Grown(p, net, next, i);
      } else if i < m {
        RelayAccounted(p, net, next, n, c, a);
      } else {
        assert next.air[i].pkt in o.sent;
      }
    }
    forall i, j | 0 <= i < j < |next.air|
      ensures NewToNode(p, next, i, j)
    {
      if j < |net.air| {
        assert NewToNode(p, net, i, j);
      } else if j < m {
        RelayAccounted(p, net, next, n, c, a);
        assert Accounted(p, net, i);
      }
    }
  }

  // -------------------------------------------------------------------------
  // Runs
  // -------------------------------------------------------------------------

  ghost function Start(keys: seq<seq<byte>>): Net {
    Net(keys, seq(|keys|, i => {}), [])
  }

  /** The network after a sequence of events, or nothing if one of them was not possible. */
  ghost function Run(p: Primitives, keys: seq<seq<byte>>, es: seq<Event>): Option<Net>
    requires Sound(p)
  {
    if |es| == 0 then (if Keys(keys) then Some(Start(keys)) else None) else
    var r := Run(p, keys, es[..|es| - 1]);
    if r.Some? && Formed(r.value) && Possible(r.value, es[|es| - 1]) then Some(Next(p, r.value, es[|es| - 1])) else None
  }

  /** The packets that a hook sends on its own, as events. */
  ghost function Originates(n: nat, replies: seq<View>): seq<Event> {
    seq(|replies|, i requires 0 <= i < |replies| => Originate(n, replies[i]))
  }

  ghost function OwnCopies(n: nat, replies: seq<View>): seq<Sent> {
    seq(|replies|, i requires 0 <= i < |replies| => Sent(n, replies[i], Origin))
  }

  /** A network in which a node has sent packets of its own. */
  ghost function AfterReplies(p: Primitives, net: Net, n: nat, replies: seq<View>): Net
    requires Sound(p) && n < |net.seen|
  {
    net.(seen := net.seen[n := net.seen[n] + HashesIn(p, replies)], air := net.air + OwnCopies(n, replies))
  }

  /** What hooks send makes no new runs: a node that has sent it is where a run with as many more events leaves it. */
  lemma {:induction false} RepliesAreEvents(p: Primitives, keys: seq<seq<byte>>, es: seq<Event>, n: nat, replies: seq<View>)
    requires Sound(p) && Run(p, keys, es).Some? && n < |keys|
    requires forall r :: r in replies ==> |r.path| == PathByteLen(r.pathLen)
    ensures n < |Run(p, keys, es).value.seen|
    ensures Run(p, keys, es + Originates(n, replies)) == Some(AfterReplies(p, Run(p, keys, es).value, n, replies))
  {
    hide *;
    RunForms(p, keys, es);
    var net, k := Run(p, keys, es).value, |replies|;
    if k == 0 {
      assert replies == [];
      NoReplies(p, net, n);
      assert es + Originates(n, []) == es;
    } else {
      var first, last := replies[..k - 1], replies[k - 1];
      assert replies == first + [last];
      RepliesAreEvents(p, keys, es, n, first);
      RunForms(p, keys, es + Originates(n, first));
      assert last in replies;
      OneMoreReply(p, net, n, first, last);
      RunMore(p, keys, es + Originates(n, first), n, last);
      assert es + Originates(n, replies) == es + Originates(n, first) + [Originate(n, last)];
    }
  }

  lemma RunForms(p: Primitives, keys: seq<seq<byte>>, es: seq<Event>)
    requires Sound(p) && Run(p, keys, es).Some?
    ensures Formed(Run(p, keys, es).value) && |Run(p, keys, es).value.keys| == |Run(p, keys, es).value.seen| == |keys|
  {
    RunKeepsInv(p, keys, es);
    hide PathByteLen, Keys, Accounted, NewToNode, Run;
  }

  lemma NoReplies(p: Primitives, net: Net, n: nat)
    requires Sound(p) && n < |net.seen|
    ensures AfterReplies(p, net, n, []) == net && Originates(n, []) == []
  {
    hide PacketHash;
    assert net.seen[n] + HashesIn(p, []) == net.seen[n];
    assert net.seen[n := net.seen[n]] == net.seen;
    assert net.air + OwnCopies(n, []) == net.air;
  }

  lemma OneMoreReply(p: Primitives, net: Net, n: nat, first: seq<View>, last: View)
    requires Sound(p) && Formed(net) && n < |net.seen| && |last.path| == PathByteLen(last.pathLen)
    requires Formed(AfterReplies(p, net, n, first))
    ensures Next(p, AfterReplies(p, net, n, first), Originate(n, last)) == AfterReplies(p, net, n, first + [last])
    ensures Originates(n, first + [last]) == Originates(n, first) + [Originate(n, last)]
  {
    hide PacketHash, PathByteLen, Keys, Formed, OnRecv;
    assert HashesIn(p, first + [last]) == HashesIn(p, first) + {PacketHash(p, last)};
    assert OwnCopies(n, first + [last]) == OwnCopies(n, first) + [Sent(n, last, Origin)];
    var net', h := AfterReplies(p, net, n, first), PacketHash(p, last);
    assert net'.seen[n] + {h} == net.seen[n] + HashesIn(p, first + [last]);
    assert net.seen[n := net'.seen[n]][n := net'.seen[n] + {h}] == net.seen[n := net'.seen[n] + {h}];
    assert net'.air + [Sent(n, last, Origin)] == net.air + OwnCopies(n, first + [last]);
  }

  lemma RunMore(p: Primitives, keys: seq<seq<byte>>, es: seq<Event>, n: nat, v: View)
    requires Sound(p) && Run(p, keys, es).Some? && Formed(Run(p, keys, es).value)
    requires n < |Run(p, keys, es).value.keys| && |v.path| == PathByteLen(v.pathLen)
    ensures Run(p, keys, es + [Originate(n, v)]) == Some(Next(p, Run(p, keys, es).value, Originate(n, v)))
  {
    hide Next, Formed, PathByteLen;
    var all := es + [Originate(n, v)];
    assert all[..|all| - 1] == es;
  }

  lemma {:induction false} RunKeepsInv(p: Primitives, keys: seq<seq<byte>>, es: seq<Event>)
    requires Sound(p) && Run(p, keys, es).Some?
    ensures Inv(p, Run(p, keys, es).value) && Run(p, keys, es).value.keys == keys
  {
    hide Inv, Next, Possible;
    if |es| == 0 {
      StartInv(p, keys);
    } else {
      var net, e := Run(p, keys, es[..|es| - 1]).value, es[|es| - 1];
      RunKeepsInv(p, keys, es[..|es| - 1]);
      if e.Originate? {
        OriginateKeeps(p, net, e);
      } else {
        DeliverKeeps(p, net, e);
      }
      KeysStay(p, net, e);
    }
  }

  lemma StartInv(p: Primitives, keys: seq<seq<byte>>)
    requires Sound(p) && Keys(keys)
    ensures Inv(p, Start(keys))
  {
  }

  lemma KeysStay(p: Primitives, net: Net, e: Event)
    requires Sound(p) && Formed(net) && Possible(net, e)
    ensures Next(p, net, e).keys == net.keys
  {
    hide OnRecv, PacketHash;
  }

  /** In every run a node relays a flood with a given hash at most once, and never after it sent that flood itself. */
  lemma RelaysOnce(p: Primitives, keys: seq<seq<byte>>, es: seq<Event>, h: Hash, i: nat, j: nat)
    requires Sound(p) && Run(p, keys, es).Some?
    requires i < j < |Run(p, keys, es).value.air|
    requires var air := Run(p, keys, es).value.air; IsFloodCopy(p, air[i], h) && IsFloodCopy(p, air[j], h) && air[j].kind.Relay?
    ensures Run(p, keys, es).value.air[i].node != Run(p, keys, es).value.air[j].node
  {
    RunKeepsInv(p, keys, es);
    hide Run;
    assert NewToNode(p, Run(p, keys, es).value, i, j);
  }

  /** In every run each relayed flood copy is an earlier copy with one more path entry. */
  lemma RelayExtends(p: Primitives, keys: seq<seq<byte>>, es: seq<Event>, i: nat)
    requires Sound(p) && Run(p, keys, es).Some? && i < |Run(p, keys, es).value.air|
    requires var s := Run(p, keys, es).value.air[i]; s.kind.Relay? && IsRouteFlood(s.pkt.header)
    ensures var air := Run(p, keys, es).value.air;
            && air[i].kind.heard < i && air[i].node < |keys|
            && PacketHash(p, air[air[i].kind.heard].pkt) == PacketHash(p, air[i].pkt)
            && Extends(air[air[i].kind.heard].pkt, air[i].pkt, keys[air[i].node])
  {
    RunKeepsInv(p, keys, es);
    hide Run, Extends, PacketHash;
    assert Accounted(p, Run(p, keys, es).value, i);
  }

  // -------------------------------------------------------------------------
  // The way of a copy
  // -------------------------------------------------------------------------

  /** The nodes that relayed a copy, from the first on, and the copy that its originator sent. */
  ghost function Chain(net: Net, i: nat): seq<nat>
    requires i < |net.air|
  {
    var s := net.air[i];
    if s.kind.Relay? && s.kind.heard < i then Chain(net, s.kind.heard) + [s.node] else []
  }

  ghost function OriginOf(net: Net, i: nat): (o: nat)
    requires i < |net.air|
    ensures o <= i
  {
    var s := net.air[i];
    if s.kind.Relay? && s.kind.heard < i then OriginOf(net, s.kind.heard) else i
  }

  /** The keys of some nodes. */
  ghost function KeysOf(net: Net, nodes: seq<nat>): (hops: seq<seq<byte>>)
    requires forall k :: 0 <= k < |nodes| ==> nodes[k] < |net.keys|
    ensures |hops| == |nodes|
  {
    seq(|nodes|, k requires 0 <= k < |nodes| => net.keys[nodes[k]])
  }

  /** The path of a flood copy lists the entries of the nodes that relayed it, in order, up to the 63 that the count can hold. */
  lemma {:induction false} PathIsChain(p: Primitives, net: Net, i: nat, sz: nat)
    requires Sound(p) && Inv(p, net) && i < |net.air| && IsRouteFlood(net.air[i].pkt.header) && 1 <= sz <= 3
    requires net.air[OriginOf(net, i)].pkt.pathLen == PathLenOf(sz, 0) && |Chain(net, i)| <= 63
    ensures forall k :: 0 <= k < |Chain(net, i)| ==> Chain(net, i)[k] < |net.keys|
    ensures net.air[OriginOf(net, i)].kind.Origin?
    ensures net.air[i].pkt == Recorded(net.air[OriginOf(net, i)].pkt, KeysOf(net, Chain(net, i)), sz)
    ensures |Chain(net, i)| * sz <= MAX_PATH_SIZE
    decreases i
  {
    hide PacketHash, IsRouteFlood, PathByteLen, HashCount, HashSize, Recorded, Extends, NewToNode, Keys;
    assert Accounted(p, net, i);
    ExtendsKeepsHeader();
    var s := net.air[i];
    if s.kind.Relay? {
      var j := s.kind.heard;
      PathIsChain(p, net, j, sz);
      var hops, nodes := KeysOf(net, Chain(net, i)), Chain(net, i);
      assert KeysOf(net, Chain(net, j)) == hops[..|nodes| - 1];
      KeysAreKeys(p, net, nodes);
      RecordedStep(net.air[OriginOf(net, i)].pkt, net.air[j].pkt, s.pkt, hops, sz);
    } else {
      NothingRecorded(s.pkt, sz);
    }
  }

  lemma ExtendsKeepsHeader()
    ensures forall heard: View, sent: View, key: seq<byte> :: Extends(heard, sent, key) ==> sent.header == heard.header
  {
  }

  lemma NothingRecorded(v: View, sz: nat)
    requires 1 <= sz <= 3 && v.pathLen == PathLenOf(sz, 0) && |v.path| == PathByteLen(v.pathLen)
    ensures v == Recorded(v, [], sz)
  {
    hide PathByteLen, HashCount, HashSize;
  }

  lemma RecordedStep(origin: View, heard: View, sent: View, hops: seq<seq<byte>>, sz: nat)
    requires 1 <= sz <= 3 && 0 < |hops| <= 63 && Keys(hops)
    requires heard == Recorded(origin, hops[..|hops| - 1], sz) && Extends(heard, sent, hops[|hops| - 1])
    ensures sent == Recorded(origin, hops, sz) && |hops| * sz <= MAX_PATH_SIZE
  {
    hide PathByteLen, HashCount, HashSize, Prefixes;
    PrefixesStep(hops, sz, |hops| - 1);
    assert hops[..|hops|] == hops;
    PathLenNext(sz, |hops| - 1);
  }

  /**
   * In every run: the path of a flood copy, returned to its originator, takes a fresh packet or an acknowledgement over
   * the nodes that relayed the copy, in order, if they are willing and have not seen it.
   */
  lemma RecordedPathWorks(p: Primitives, keys: seq<seq<byte>>, es: seq<Event>, i: nat, sz: nat,
                          secret: seq<byte>, extraType: byte, extra: seq<byte>, random: seq<byte>,
                          data: View, seen: seq<set<Hash>>, a: seq<Answers>)
    requires Sound(p) && Run(p, keys, es).Some? && 1 <= sz <= 3 && |secret| == 32 && |random| == 4
    requires var net := Run(p, keys, es).value;
      && i < |net.air| && IsRouteFlood(net.air[i].pkt.header) && net.air[OriginOf(net, i)].pkt.pathLen == PathLenOf(sz, 0)
      && |Chain(net, i)| <= 63 && |Chain(net, i)| * sz + |extra| + 5 <= MAX_COMBINED_PATH
      && |seen| == |a| == |Chain(net, i)|
    requires var w := Directed(data, [], 0);
      Open(p, w, seen, a) && (Forwardable(w) || w.header == 4 * PAYLOAD_TYPE_ACK + 2)
    ensures var net := Run(p, keys, es).value;
            var P := net.air[i].pkt;
            var d := Returned(p, P, secret, extraType, extra, random);
            && (forall k :: 0 <= k < |Chain(net, i)| ==> Chain(net, i)[k] < |net.keys|)
            && IsValidPathLen(P.pathLen) && 2 + |P.path| <= |d| && d[0] == P.pathLen && |d[1..1 + |P.path|]| == PathByteLen(d[0])
            && Keys(KeysOf(net, Chain(net, i)))
            && var arrived := Passed(p, Directed(data, d[1..1 + |P.path|], d[0]), KeysOf(net, Chain(net, i)), seen, a, 0);
               && arrived == Some(Directed(data, [], PathLenOf(sz, 0)))
               && arrived.value.payload == data.payload && arrived.value.path == [] && RouteType(arrived.value.header) == 2
               && PayloadType(arrived.value.header) == PayloadType(data.header) && PayloadVer(arrived.value.header) == PayloadVer(data.header)
  {
    RunKeepsInv(p, keys, es);
    var net := Run(p, keys, es).value;
    PathIsChain(p, net, i, sz);
    KeysAreKeys(p, net, Chain(net, i));
    hide *;
    ReturnedPathWorks(p, net.air[OriginOf(net, i)].pkt, KeysOf(net, Chain(net, i)), sz, secret, extraType, extra, random, data, seen, a);
  }

  lemma KeysAreKeys(p: Primitives, net: Net, nodes: seq<nat>)
    requires Sound(p) && Inv(p, net) && forall k :: 0 <= k < |nodes| ==> nodes[k] < |net.keys|
    ensures Keys(KeysOf(net, nodes))
  {
  }

  // -------------------------------------------------------------------------
  // How many copies
  // -------------------------------------------------------------------------

  ghost predicate IsRelay(p: Primitives, s: Sent, h: Hash)
    requires Sound(p)
  {
    s.kind.Relay? && IsFloodCopy(p, s, h)
  }

  /** The relays of a flood among the first n copies, and the nodes that made them. */
  ghost function RelayCount(p: Primitives, air: seq<Sent>, h: Hash, n: nat): nat
    requires Sound(p) && n <= |air|
  {
    if n == 0 then 0 else RelayCount(p, air, h, n - 1) + if IsRelay(p, air[n - 1], h) then 1 else 0
  }

  ghost function RelayNodes(p: Primitives, air: seq<Sent>, h: Hash, n: nat): set<nat>
    requires Sound(p) && n <= |air|
  {
    if n == 0 then {} else RelayNodes(p, air, h, n - 1) + if IsRelay(p, air[n - 1], h) then {air[n - 1].node} else {}
  }

  lemma {:induction false} NodesAreRelays(p: Primitives, air: seq<Sent>, h: Hash, n: nat, x: nat)
    requires Sound(p) && n <= |air|
    ensures x in RelayNodes(p, air, h, n) <==> exists i :: 0 <= i < n && IsRelay(p, air[i], h) && air[i].node == x
  {
    hide IsRelay;
    if n > 0 {
      NodesAreRelays(p, air, h, n - 1, x);
    }
  }

  lemma {:induction false} OneRelayPerNode(p: Primitives, net: Net, h: Hash, n: nat)
    requires Sound(p) && Inv(p, net) && n <= |net.air|
    ensures |RelayNodes(p, net.air, h, n)| == RelayCount(p, net.air, h, n)
  {
    hide PacketHash, Extends, IsFloodCopy, Inv;
    if n > 0 {
      OneRelayPerNode(p, net, h, n - 1);
      if IsRelay(p, net.air[n - 1], h) {
        NodesAreRelays(p, net.air, h, n - 1, net.air[n - 1].node);
        forall i | 0 <= i < n - 1 && IsRelay(p, net.air[i], h)
          ensures net.air[i].node != net.air[n - 1].node
        {
          RelayElsewhere(p, net, h, i, n - 1);
        }
        assert net.air[n - 1].node !in RelayNodes(p, net.air, h, n - 1);
      }
    }
  }

  /** A relay is made by a node that sent no earlier copy of the flood. */
  lemma RelayElsewhere(p: Primitives, net: Net, h: Hash, i: nat, j: nat)
    requires Sound(p) && Inv(p, net) && i < j < |net.air| && IsFloodCopy(p, net.air[i], h) && IsRelay(p, net.air[j], h)
    ensures net.air[i].node != net.air[j].node
  {
    hide PacketHash, Extends;
    assert NewToNode(p, net, i, j);
  }

  /** Every flood copy goes back to one that its originator sent no later. */
  lemma {:induction false} ComesFromOrigin(p: Primitives, net: Net, h: Hash, i: nat) returns (o: nat)
    requires Sound(p) && Inv(p, net) && i < |net.air| && IsFloodCopy(p, net.air[i], h)
    ensures o <= i && net.air[o].kind.Origin? && IsFloodCopy(p, net.air[o], h)
    decreases i
  {
    assert Accounted(p, net, i);
    hide PacketHash;
    if net.air[i].kind.Origin? {
      o := i;
    } else {
      o := ComesFromOrigin(p, net, h, net.air[i].kind.heard);
    }
  }

  /** The flood was sent by an originator once, as copy o. */
  ghost predicate OnlyOrigin(p: Primitives, air: seq<Sent>, h: Hash, o: nat)
    requires Sound(p) && o < |air|
  {
    && air[o].kind.Origin? && IsFloodCopy(p, air[o], h)
    && forall i :: 0 <= i < |air| && air[i].kind.Origin? && IsFloodCopy(p, air[i], h) ==> i == o
  }

  /** In every run a flood is relayed at most once by each node; one that was sent once is sent at most N times in all. */
  lemma FloodBound(p: Primitives, keys: seq<seq<byte>>, es: seq<Event>, h: Hash)
    requires Sound(p) && Run(p, keys, es).Some?
    ensures var air := Run(p, keys, es).value.air;
            && RelayCount(p, air, h, |air|) <= |keys|
            && (forall o :: 0 <= o < |air| && OnlyOrigin(p, air, h, o) ==> 1 + RelayCount(p, air, h, |air|) <= |keys|)
  {
    RunKeepsInv(p, keys, es);
    hide Run;
    var net := Run(p, keys, es).value;
    var nodes := RelayNodes(p, net.air, h, |net.air|);
    OneRelayPerNode(p, net, h, |net.air|);
    RelaysAreNodes(p, net, h);
    SubsetSize(nodes, Range(|keys|));
    forall o | 0 <= o < |net.air| && OnlyOrigin(p, net.air, h, o)
      ensures 1 + RelayCount(p, net.air, h, |net.air|) <= |keys|
    {
      OriginatorNeverRelays(p, net, h, o);
      SubsetSize(nodes + {net.air[o].node}, Range(|keys|));
    }
  }

  lemma RelaysAreNodes(p: Primitives, net: Net, h: Hash)
    requires Sound(p) && Inv(p, net)
    ensures RelayNodes(p, net.air, h, |net.air|) <= Range(|net.keys|)
  {
    hide PacketHash, IsRelay, RelayNodes;
    forall x | x in RelayNodes(p, net.air, h, |net.air|)
      ensures x in Range(|net.keys|)
    {
      NodesAreRelays(p, net.air, h, |net.air|, x);
      var i :| 0 <= i < |net.air| && IsRelay(p, net.air[i], h) && net.air[i].node == x;
      assert Accounted(p, net, i);
    }
  }

  lemma OriginatorNeverRelays(p: Primitives, net: Net, h: Hash, o: nat)
    requires Sound(p) && Inv(p, net) && o < |net.air| && OnlyOrigin(p, net.air, h, o)
    ensures net.air[o].node !in RelayNodes(p, net.air, h, |net.air|) && net.air[o].node < |net.keys|
  {
    hide PacketHash, RelayNodes, Extends, IsFloodCopy;
    var x := net.air[o].node;
    assert Accounted(p, net, o);
    NodesAreRelays(p, net.air, h, |net.air|, x);
    forall i | 0 <= i < |net.air| && IsRelay(p, net.air[i], h)
      ensures net.air[i].node != x
    {
      var first := ComesFromOrigin(p, net, h, i);
      RelayElsewhere(p, net, h, o, i);
    }
  }
}

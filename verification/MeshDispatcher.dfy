/** Where the pooled packets are: Dispatcher.cpp over the queues of StaticPoolPacketManager.cpp. */
module MeshDispatcher {
  import opened Arith
  import opened Options

  /** A pooled packet, by its place in the pool. */
  type Slot = nat

  type uint32 = x: int | 0 <= x < 0x1_0000_0000
  type priority = x: int | 0 <= x < 256

  /** futureMillis: the clock wraps. */
  function Future(now: uint32, delay: int): uint32 {
    var n: int := now;
    (n + delay) % 0x1_0000_0000
  }

  /** (int32_t)(when - now) > 0. */
  predicate IsFuture(when: uint32, now: uint32) {
    var w: int, n: int := when, now;
    0 < (w - n) % 0x1_0000_0000 < 0x8000_0000
  }

  /** Across the wrap of the clock, what was put off at a start is in the future exactly until the delay is over. */
  lemma DueExactly(start: uint32, delay: int, now: uint32)
    requires 0 <= delay < 0x8000_0000
    ensures var s: int, n: int := start, now; var elapsed := (n - s) % 0x1_0000_0000;
            elapsed < 0x8000_0000 ==> (IsFuture(Future(start, delay), now) <==> elapsed < delay)
  {
    var m, s: int, n: int := 0x1_0000_0000, start, now;
    var elapsed := (n - s) % m;
    SameDifference(s + delay, n, m);
    DivModUnique(n, m, 0, n);
    SameDifference(delay, n - s, m);
    DivModUnique(delay, m, 0, delay);
    assert (s + delay) - n == delay - (n - s);
    if elapsed <= delay {
      DivModUnique(delay - elapsed, m, 0, delay - elapsed);
    } else if elapsed < 0x8000_0000 {
      DivModUnique(delay - elapsed, m, -1, delay - elapsed + m);
    }
  }

  lemma SameDifference(x: int, y: int, m: int)
    requires m > 0
    ensures (x % m - y % m) % m == (x - y) % m
  {
    assert x - y == (x / m - y / m) * m + (x % m - y % m);
    AddMultiple(x % m - y % m, x / m - y / m, m);
    ModOfSum(x % m - y % m, x / m - y / m, m);
  }

  lemma ModOfSum(n: int, k: int, m: int)
    requires m > 0
    ensures (n + k * m) % m == n % m
  {
    DivModUnique(n + k * m, m, n / m + k, n % m);
  }

  datatype Entry = Entry(pkt: Slot, pri: priority, when: uint32)

  ghost function Slots(q: seq<Entry>): multiset<Slot> {
    if |q| == 0 then multiset{} else multiset{q[0].pkt} + Slots(q[1..])
  }

  lemma SlotsStep(q: seq<Entry>)
    ensures |q| > 0 ==> Slots(q) == multiset{q[0].pkt} + Slots(q[1..])
    ensures |q| == 0 ==> Slots(q) == multiset{}
  {
  }

  lemma UnionMore(a: multiset<Slot>, b: multiset<Slot>, c: multiset<Slot>)
    ensures a + b + c == a + (b + c) && multiset{} + c == c
  {
  }

  lemma {:induction false} SlotsMore(q: seq<Entry>, r: seq<Entry>)
    ensures Slots(q + r) == Slots(q) + Slots(r)
  {
    hide Slots;
    SlotsStep(q);
    SlotsStep(q + r);
    if |q| == 0 {
      assert q + r == r;
      UnionMore(multiset{}, multiset{}, Slots(r));
    } else {
      SlotsMore(q[1..], r);
      assert (q + r)[1..] == q[1..] + r;
      UnionMore(multiset{q[0].pkt}, Slots(q[1..]), Slots(r));
    }
  }

  lemma OneSlot(e: Entry)
    ensures Slots([e]) == multiset{e.pkt}
  {
    assert [e][1..] == [];
  }

  lemma SlotsWithout(q: seq<Entry>, i: nat)
    requires i < |q|
    ensures Slots(q) == Slots(q[..i] + q[i + 1..]) + multiset{q[i].pkt}
  {
    hide Slots;
    var e := [q[i]];
    assert q == q[..i] + (e + q[i + 1..]);
    SlotsMore(q[..i], e + q[i + 1..]);
    SlotsMore(e, q[i + 1..]);
    SlotsMore(q[..i], q[i + 1..]);
    OneSlot(q[i]);
    UnionSwap(Slots(q[..i]), Slots(e), Slots(q[i + 1..]));
  }

  lemma UnionSwap(a: multiset<Slot>, b: multiset<Slot>, c: multiset<Slot>)
    ensures a + (b + c) == a + c + b
  {
  }

  lemma {:induction false} SlotsSize(q: seq<Entry>)
    ensures |Slots(q)| == |q|
  {
    if |q| > 0 {
      SlotsSize(q[1..]);
    }
  }

  // -------------------------------------------------------------------------
  // The queue
  // -------------------------------------------------------------------------

  /** An entry that get may return: its time has come. Priority 255 is never less than the starting bound. */
  predicate Eligible(e: Entry, now: uint32) {
    !IsFuture(e.when, now) && e.pri < 255
  }

  /** The first of the most urgent eligible entries. */
  ghost predicate IsNext(q: seq<Entry>, now: uint32, i: nat)
    requires i < |q|
  {
    && Eligible(q[i], now)
    && (forall j :: 0 <= j < |q| && Eligible(q[j], now) ==> q[i].pri <= q[j].pri)
    && (forall j :: 0 <= j < i && Eligible(q[j], now) ==> q[i].pri < q[j].pri)
  }

  class PacketQueue {
    var entries: seq<Entry>
    const size: nat

    constructor (size: nat)
      ensures this.size == size && entries == []
    {
      this.size := size;
      entries := [];
    }

    /** get: the first of the most urgent entries that are due, taken out. */
    method Get(now: uint32) returns (top: Option<Slot>)
      modifies this
      ensures top.None? ==> entries == old(entries) && forall j :: 0 <= j < |entries| ==> !Eligible(entries[j], now)
      ensures top.Some? ==> exists i :: 0 <= i < |old(entries)| && IsNext(old(entries), now, i)
                                        && top.value == old(entries)[i].pkt && entries == old(entries)[..i] + old(entries)[i + 1..]
      ensures Slots(old(entries)) == Slots(entries) + if top.Some? then multiset{top.value} else multiset{}
    {
      hide IsFuture;
      var minPri, best := 255, -1;
      for j := 0 to |entries|
        invariant -1 <= best < j && entries == old(entries)
        invariant best < 0 ==> minPri == 255
        invariant best >= 0 ==> minPri == entries[best].pri < 255 && Eligible(entries[best], now)
        invariant forall k :: 0 <= k < j && Eligible(entries[k], now) ==> best >= 0 && minPri <= entries[k].pri
        invariant forall k :: 0 <= k < best && Eligible(entries[k], now) ==> minPri < entries[k].pri
      {
        if IsFuture(entries[j].when, now) {
          continue;
        }
        if entries[j].pri < minPri {
          minPri, best := entries[j].pri, j;
        }
      }
      if best < 0 {
        return None;
      }
      assert IsNext(entries, now, best);
      SlotsWithout(entries, best);
      top := Some(entries[best].pkt);
      entries := entries[..best] + entries[best + 1..];
    }

    /** add. */
    method Add(pkt: Slot, pri: priority, when: uint32) returns (ok: bool)
      modifies this
      ensures ok <==> |old(entries)| != size
      ensures entries == if ok then old(entries) + [Entry(pkt, pri, when)] else old(entries)
      ensures ok ==> Slots(entries) == Slots(old(entries)) + multiset{pkt}
    {
      if |entries| == size {
        return false;
      }
      SlotsMore(entries, [Entry(pkt, pri, when)]);
      OneSlot(Entry(pkt, pri, when));
      entries := entries + [Entry(pkt, pri, when)];
      ok := true;
    }

    /** The pool, loaded at the start. */
    method Load()
      requires entries == []
      modifies this
      ensures Slots(entries) == Pool(size) && |entries| == size && forall i :: 0 <= i < size ==> entries[i] == Entry(i, 0, 0)
    {
      hide Pool, Slots;
      PoolStep(0);
      SlotsStep([]);
      for n := 0 to size
        invariant |entries| == n && Slots(entries) == Pool(n) && forall i :: 0 <= i < n ==> entries[i] == Entry(i, 0, 0)
      {
        var _ := Add(n, 0, 0);
        PoolStep(n);
      }
    }

    /** removeByIdx(0). */
    method TakeFirst() returns (item: Option<Slot>)
      modifies this
      ensures |old(entries)| == 0 ==> item.None? && entries == []
      ensures |old(entries)| > 0 ==> item == Some(old(entries)[0].pkt) && entries == old(entries)[1..]
      ensures Slots(old(entries)) == Slots(entries) + if item.Some? then multiset{item.value} else multiset{}
    {
      if |entries| == 0 {
        return None;
      }
      item := Some(entries[0].pkt);
      entries := entries[1..];
    }
  }

  // -------------------------------------------------------------------------
  // The dispatcher
  // -------------------------------------------------------------------------

  /** What a packet handler does besides: packets it takes from the pool and sends, gives back, or keeps. */
  datatype Op = SendNew(valid: bool, pri: priority, delay: nat) | ReturnNew | KeepNew

  datatype Action = ActionRelease | ActionHold | ActionRetransmit(pri: priority, delay: nat)

  /** How a received packet is handled. */
  datatype Handling = Handling(ops: seq<Op>, action: Action)

  /** What the radio has received. */
  datatype Received = Nothing | Unparsable | Parsed(flood: bool, delay: int, handling: Handling)

  /** Clock, radio and budget as one pass of the loop finds them. */
  datatype Tick = Tick(now: uint32, sendComplete: bool, expired: bool, due: Handling, received: Received,
                       mayTransmit: bool, tooLong: bool, started: bool)

  /** What happens to the slot for the packet in flight. */
  datatype Turn = Taken(pkt: Slot) | Released(pkt: Slot)

  /** Each packet taken is released before the next one is taken; the last one may still be in flight. */
  ghost predicate IsPaired(log: seq<Turn>, flight: Option<Slot>) {
    if |log| == 0 then flight.None?
    else match log[|log| - 1]
      case Taken(x) => flight == Some(x) && IsPaired(log[..|log| - 1], None)
      case Released(x) => flight.None? && IsPaired(log[..|log| - 1], Some(x))
  }

  lemma PairedNothing()
    ensures IsPaired([], None)
  {
  }

  lemma PairedMore(log: seq<Turn>, x: Slot)
    ensures IsPaired(log, None) ==> IsPaired(log + [Taken(x)], Some(x))
    ensures IsPaired(log, Some(x)) ==> IsPaired(log + [Released(x)], None)
  {
    assert (log + [Taken(x)])[..|log|] == log && (log + [Released(x)])[..|log|] == log;
  }

  /** Every packet taken is released once, as the next thing, or is the one still in flight; and nothing else is released. */
  lemma {:induction false} ReleasedOnce(log: seq<Turn>, flight: Option<Slot>, i: nat)
    requires IsPaired(log, flight) && i < |log|
    ensures log[i].Taken? <==> i % 2 == 0
    ensures log[i].Taken? ==> if i + 1 < |log| then log[i + 1] == Released(log[i].pkt) else flight == Some(log[i].pkt)
    ensures log[i].Released? ==> i > 0 && log[i - 1] == Taken(log[i].pkt)
    ensures |log| % 2 == if flight.Some? then 1 else 0
  {
    var n := |log| - 1;
    var before := match log[n] case Taken(_) => None case Released(x) => Some(x);
    if n > 0 {
      ReleasedOnce(log[..n], before, n - 1);
      if i < n {
        ReleasedOnce(log[..n], before, i);
      }
    }
  }

  /** A call that the rest of the program makes: a pass of loop, a new packet sent, taken or given back, or one in hand sent. */
  datatype Call =
    | Pass(tick: Tick)
    | Send(valid: bool, pri: priority, delay: nat, now: uint32)
    | Obtain
    | Return(pkt: Slot)
    | SendHeld(pkt: Slot, valid: bool, pri: priority, delay: nat, now: uint32)

  // -------------------------------------------------------------------------
  // What one pass does
  // -------------------------------------------------------------------------

  /** Where all packets are, and what is written of the flights. */
  datatype Places = Places(unused: seq<Entry>, toSend: seq<Entry>, received: seq<Entry>, outbound: Option<Slot>,
                           held: multiset<Slot>, log: seq<Turn>)

  ghost function Without(q: seq<Entry>, i: nat): seq<Entry>
    requires i < |q|
  {
    q[..i] + q[i + 1..]
  }

  ghost predicate NoneDue(q: seq<Entry>, now: uint32) {
    forall j :: 0 <= j < |q| ==> !Eligible(q[j], now)
  }

  /** One packet taken from the pool, if it has one, and sent, given back or kept. */
  ghost function AfterOp(a: Places, op: Op, now: uint32): Places {
    if |a.unused| == 0 then a else
    var x := a.unused[0].pkt;
    match op
    case SendNew(valid, pri, delay) =>
      if valid then a.(unused := a.unused[1..], toSend := a.toSend + [Entry(x, pri, Future(now, delay))])
      else a.(unused := a.unused[1..] + [Entry(x, 0, 0)])
    case ReturnNew => a.(unused := a.unused[1..] + [Entry(x, 0, 0)])
    case KeepNew => a.(unused := a.unused[1..], held := a.held + multiset{x})
  }

  ghost function AfterOps(a: Places, ops: seq<Op>, now: uint32): Places {
    if |ops| == 0 then a else AfterOp(AfterOps(a, ops[..|ops| - 1], now), ops[|ops| - 1], now)
  }

  /** A packet in hand is handled: what the handler does besides, then the pool, the hand or the send queue, as it says. */
  ghost function AfterHandling(a: Places, x: Slot, h: Handling, now: uint32): Places {
    var e := AfterOps(a, h.ops, now);
    match h.action
    case ActionRelease => e.(unused := e.unused + [Entry(x, 0, 0)], held := e.held - multiset{x})
    case ActionHold => e
    case ActionRetransmit(pri, delay) => e.(toSend := e.toSend + [Entry(x, pri, Future(now, delay))], held := e.held - multiset{x})
  }

  /** The end of a transmission: its packet is back in the pool. */
  ghost function AfterFlight(a: Places): Places {
    if a.outbound.None? then a
    else a.(unused := a.unused + [Entry(a.outbound.value, 0, 0)], outbound := None, log := a.log + [Released(a.outbound.value)])
  }

  /** The next due packet of the inbound queue, if any, has left it and is handled. */
  ghost predicate DueHandled(a: Places, t: Tick, due: Option<Slot>, b: Places) {
    if due.None? then NoneDue(a.received, t.now) && b == a
    else exists i :: 0 <= i < |a.received| && IsNext(a.received, t.now, i) && due.value == a.received[i].pkt
                     && b == AfterHandling(a.(received := Without(a.received, i), held := a.held + multiset{due.value}), due.value, t.due, t.now)
  }

  /** What was received is in a packet of the pool, if it has one: back there, put off or handled. */
  ghost predicate ReceivedOne(a: Places, t: Tick, got: Option<Slot>, b: Places) {
    if t.received.Nothing? || |a.unused| == 0 then got.None? && b == a
    else
      var x := a.unused[0].pkt;
      && got == Some(x)
      && match t.received
         case Nothing => b == a
         case Unparsable => b == a.(unused := a.unused[1..] + [Entry(x, 0, 0)])
         case Parsed(flood, delay, handling) =>
           if flood && delay >= 50
           then b == a.(unused := a.unused[1..],
                        received := a.received + [Entry(x, 0, Future(t.now, if delay > 32000 then 32000 else delay))])
           else b == AfterHandling(a.(unused := a.unused[1..], held := a.held + multiset{x}), x, handling, t.now)
  }

  /** The next due packet of the send queue is in flight, or has been and is in the pool; none if there is none or the radio must wait. */
  ghost predicate SentOff(a: Places, t: Tick, taken: Option<Slot>, b: Places) {
    if taken.None? then b == a && (t.mayTransmit ==> NoneDue(a.toSend, t.now))
    else
      && t.mayTransmit
      && exists i :: 0 <= i < |a.toSend| && IsNext(a.toSend, t.now, i) && taken.value == a.toSend[i].pkt
                     && b == if t.tooLong || !t.started
                             then a.(toSend := Without(a.toSend, i), unused := a.unused + [Entry(taken.value, 0, 0)],
                                     log := a.log + [Taken(taken.value), Released(taken.value)])
                             else a.(toSend := Without(a.toSend, i), outbound := taken, log := a.log + [Taken(taken.value)])
  }

  /** One pass of loop. */
  ghost predicate Passed(a: Places, t: Tick, b: Places) {
    if a.outbound.Some? && !t.sendComplete && !t.expired then b == a
    else exists due, c, got, d, taken :: DueHandled(AfterFlight(a), t, due, c) && ReceivedOne(c, t, got, d) && SentOff(d, t, taken, b)
  }

  /** One call. */
  ghost predicate Called(a: Places, c: Call, b: Places) {
    match c
    case Pass(t) => Passed(a, t, b)
    case Send(valid, pri, delay, now) => b == AfterOp(a, SendNew(valid, pri, delay), now)
    case Obtain => b == AfterOp(a, KeepNew, 0)
    case Return(pkt) => b == if pkt in a.held then a.(unused := a.unused + [Entry(pkt, 0, 0)], held := a.held - multiset{pkt}) else a
    case SendHeld(pkt, valid, pri, delay, now) =>
      b == if pkt !in a.held then a
           else if valid then a.(toSend := a.toSend + [Entry(pkt, pri, Future(now, delay))], held := a.held - multiset{pkt})
           else a.(unused := a.unused + [Entry(pkt, 0, 0)], held := a.held - multiset{pkt})
  }

  lemma SentOffShows(a: Places, t: Tick, taken: Option<Slot>, b: Places)
    requires SentOff(a, t, taken, b) && a.outbound.None? && t.mayTransmit
    ensures if taken.None? then NoneDue(b.toSend, t.now) else b.outbound == if t.tooLong || !t.started then None else taken
  {
    hide IsNext, Eligible;
  }

  class Dispatcher {
    const unused: PacketQueue
    const sendQueue: PacketQueue
    const rxQueue: PacketQueue
    var outbound: Option<Slot>

    /** Packets that the application has in hand. */
    var held: multiset<Slot>

    /** The packets taken into flight and released from it so far. */
    ghost var log: seq<Turn>

    /** The size of the pool. */
    const poolSize: nat

    ghost predicate Shape() {
      unused != sendQueue && unused != rxQueue && sendQueue != rxQueue
      && unused.size == sendQueue.size == rxQueue.size == poolSize
    }

    ghost function InFlight(): multiset<Slot>
      reads this
    {
      if outbound.Some? then multiset{outbound.value} else multiset{}
    }

    ghost function Now(): Places
      reads this, unused, sendQueue, rxQueue
    {
      Places(unused.entries, sendQueue.entries, rxQueue.entries, outbound, held, log)
    }

    /** Every place a packet can be in, together. */
    ghost function Everywhere(): multiset<Slot>
      reads this, unused, sendQueue, rxQueue
    {
      Slots(unused.entries) + Slots(sendQueue.entries) + Slots(rxQueue.entries) + InFlight() + held
    }

    /** Each pooled packet is in exactly one place, once, and each packet taken into flight was released or is there. */
    ghost predicate Valid()
      reads this, unused, sendQueue, rxQueue
    {
      Shape() && Everywhere() == Pool(poolSize) && IsPaired(log, outbound)
    }

    /** The pool manager loads the pool; nothing is in flight. */
    constructor (poolSize: nat)
      ensures Valid() && this.poolSize == poolSize && outbound.None? && held == multiset{} && log == []
      ensures |unused.entries| == poolSize && forall i :: 0 <= i < poolSize ==> unused.entries[i] == Entry(i, 0, 0)
      ensures sendQueue.entries == rxQueue.entries == []
      ensures fresh(unused) && fresh(sendQueue) && fresh(rxQueue)
    {
      hide IsPaired, Pool, Slots;
      PairedNothing();
      SlotsStep([]);
      var pool := new PacketQueue(poolSize);
      var toSend := new PacketQueue(poolSize);
      var received := new PacketQueue(poolSize);
      pool.Load();
      NothingElse(Slots(pool.entries), Slots(toSend.entries), Slots(received.entries));
      this.poolSize := poolSize;
      unused, sendQueue, rxQueue := pool, toSend, received;
      outbound := None;
      held := multiset{};
      log := [];
      new;
    }

    /** free: a packet in hand goes back to the pool. */
    method Free(pkt: Slot)
      requires Valid() && pkt in held
      modifies this`held, unused
      ensures Valid() && held == old(held) - multiset{pkt}
      ensures unused.entries == old(unused.entries) + [Entry(pkt, 0, 0)]
    {
      hide IsPaired, Slots, Pool;
      ghost var a, b, c := Slots(unused.entries), Slots(sendQueue.entries), Slots(rxQueue.entries);
      Moves(a, b, c, InFlight(), held, pkt);
      Room(unused.entries, b, c, InFlight(), held, pkt, poolSize);
      held := held - multiset{pkt};
      var _ := unused.Add(pkt, 0, 0);
    }

    /** obtainNewPacket, and the allocation in checkRecv. */
    method ObtainNewPacket() returns (pkt: Option<Slot>)
      requires Valid()
      modifies this`held, unused
      ensures Valid() && (pkt.None? <==> |old(unused.entries)| == 0)
      ensures pkt.None? ==> unused.entries == old(unused.entries) && held == old(held)
      ensures pkt.Some? ==> pkt.value == old(unused.entries)[0].pkt && held == old(held) + multiset{pkt.value}
                            && unused.entries == old(unused.entries)[1..]
    {
      hide IsPaired, Slots, Pool;
      pkt := unused.TakeFirst();
      if pkt.Some? {
        ghost var a, b, c := Slots(unused.entries), Slots(sendQueue.entries), Slots(rxQueue.entries);
        Moves(a, b, c, InFlight(), held, pkt.value);
        held := held + multiset{pkt.value};
      }
    }

    /** queueOutbound: the queue is as large as the pool, so it is never full. */
    method QueueOutbound(pkt: Slot, pri: priority, when: uint32)
      requires Valid() && pkt in held
      modifies this`held, sendQueue
      ensures Valid() && held == old(held) - multiset{pkt}
      ensures sendQueue.entries == old(sendQueue.entries) + [Entry(pkt, pri, when)]
    {
      hide IsPaired, Slots, Pool;
      ghost var a, b, c := Slots(sendQueue.entries), Slots(unused.entries), Slots(rxQueue.entries);
      Moves(a, b, c, InFlight(), held, pkt);
      Room(sendQueue.entries, b, c, InFlight(), held, pkt, poolSize);
      held := held - multiset{pkt};
      var ok := sendQueue.Add(pkt, pri, when);
      if !ok {
        assert false;
      }
    }

    /** queueInbound. */
    method QueueInbound(pkt: Slot, when: uint32)
      requires Valid() && pkt in held
      modifies this`held, rxQueue
      ensures Valid() && held == old(held) - multiset{pkt}
      ensures rxQueue.entries == old(rxQueue.entries) + [Entry(pkt, 0, when)]
    {
      hide IsPaired, Slots, Pool;
      ghost var a, b, c := Slots(rxQueue.entries), Slots(unused.entries), Slots(sendQueue.entries);
      Moves(a, b, c, InFlight(), held, pkt);
      Room(rxQueue.entries, b, c, InFlight(), held, pkt, poolSize);
      held := held - multiset{pkt};
      var ok := rxQueue.Add(pkt, 0, when);
      if !ok {
        assert false;
      }
    }

    /** sendPacket: a packet with an invalid path or payload length goes back to the pool instead. */
    method SendPacket(pkt: Slot, valid: bool, pri: priority, delay: nat, now: uint32)
      requires Valid() && pkt in held
      modifies this`held, sendQueue, unused
      ensures Valid() && held == old(held) - multiset{pkt}
      ensures valid ==> sendQueue.entries == old(sendQueue.entries) + [Entry(pkt, pri, Future(now, delay))] && unused.entries == old(unused.entries)
      ensures !valid ==> sendQueue.entries == old(sendQueue.entries) && unused.entries == old(unused.entries) + [Entry(pkt, 0, 0)]
    {
      hide IsPaired, Slots, Pool, Everywhere;
      if !valid {
        Free(pkt);
      } else {
        QueueOutbound(pkt, pri, Future(now, delay));
      }
    }

    /** What a handler does with packets other than the received one. */
    method RunOps(ops: seq<Op>, now: uint32)
      requires Valid()
      modifies this`held, sendQueue, unused
      ensures Valid() && old(held) <= held && Now() == AfterOps(old(Now()), ops, now)
    {
      hide IsPaired, Slots, Pool, Everywhere;
      for i := 0 to |ops|
        invariant Valid() && old(held) <= held && Now() == AfterOps(old(Now()), ops[..i], now)
      {
        assert ops[..i + 1][..i] == ops[..i];
        RunOp(ops[i], now);
      }
      assert ops[..|ops|] == ops;
    }

    method RunOp(op: Op, now: uint32)
      requires Valid()
      modifies this`held, sendQueue, unused
      ensures Valid() && old(held) <= held && Now() == AfterOp(old(Now()), op, now)
    {
      hide IsPaired, Slots, Pool, Everywhere;
      ghost var before := held;
      var pkt := ObtainNewPacket();
      if pkt.Some? {
        PutBack(before, pkt.value);
        match op
        case SendNew(valid, pri, delay) => SendPacket(pkt.value, valid, pri, delay, now);
        case ReturnNew => Free(pkt.value);
        case KeepNew =>
      }
    }

    /** processRecvPacket: released, held by the handler, or queued for sending. */
    method ProcessRecvPacket(pkt: Slot, h: Handling, now: uint32)
      requires Valid() && pkt in held
      modifies this`held, sendQueue, unused
      ensures Valid() && old(held) - multiset{pkt} <= held && Now() == AfterHandling(old(Now()), pkt, h, now)
      ensures h.action.ActionHold? ==> pkt in held
      ensures h.action.ActionRelease? ==> |unused.entries| > 0 && unused.entries[|unused.entries| - 1] == Entry(pkt, 0, 0)
      ensures h.action.ActionRetransmit? ==> |sendQueue.entries| > 0
      ensures h.action.ActionRetransmit? ==>
                sendQueue.entries[|sendQueue.entries| - 1] == Entry(pkt, h.action.pri, Future(now, h.action.delay))
    {
      hide IsPaired, Slots, Pool, Everywhere;
      ghost var before := held;
      RunOps(h.ops, now);
      Survives(before, held, pkt);
      match h.action
      case ActionRelease => Free(pkt);
      case ActionHold =>
      case ActionRetransmit(pri, delay) => QueueOutbound(pkt, pri, Future(now, delay));
    }

    /** checkRecv. */
    method CheckRecv(t: Tick) returns (ghost got: Option<Slot>)
      requires Valid()
      modifies this`held, sendQueue, rxQueue, unused
      ensures Valid() && old(held) <= held && ReceivedOne(old(Now()), t, got, Now())
    {
      hide IsPaired, Slots, Pool, Everywhere, AfterHandling;
      got := None;
      if t.received.Nothing? {
        return;
      }
      var pkt := ObtainNewPacket();
      got := pkt;
      if pkt.Some? {
        PutBack(old(held), pkt.value);
        Dispose(pkt.value, t);
      }
    }

    /** A received packet in hand: freed, queued with a delay, or handled at once. */
    method Dispose(pkt: Slot, t: Tick)
      requires Valid() && pkt in held && !t.received.Nothing?
      modifies this`held, sendQueue, rxQueue, unused
      ensures Valid() && old(held) - multiset{pkt} <= held
      ensures Now() == match t.received
                       case Nothing => old(Now())
                       case Unparsable => old(Now()).(unused := old(unused.entries) + [Entry(pkt, 0, 0)], held := old(held) - multiset{pkt})
                       case Parsed(flood, delay, handling) =>
                         if flood && delay >= 50
                         then old(Now()).(received := old(rxQueue.entries)
                                                      + [Entry(pkt, 0, Future(t.now, if delay > 32000 then 32000 else delay))],
                                          held := old(held) - multiset{pkt})
                         else AfterHandling(old(Now()), pkt, handling, t.now)
    {
      hide IsPaired, Slots, Pool, Everywhere, AfterHandling;
      match t.received
      case Unparsable => Free(pkt);
      case Parsed(flood, delay, handling) =>
        if flood && delay >= 50 {
          QueueInbound(pkt, Future(t.now, if delay > 32000 then 32000 else delay));
        } else {
          ProcessRecvPacket(pkt, handling, t.now);
        }
    }

    /** The part of loop that waits for a transmission: the packet in flight is freed once it completed or timed out. */
    method FinishSend(t: Tick) returns (waiting: bool)
      requires Valid()
      modifies this`outbound, this`log, this`held, unused
      ensures Valid() && held == old(held)
      ensures waiting <==> old(outbound).Some? && !t.sendComplete && !t.expired
      ensures waiting || old(outbound).None? ==> outbound == old(outbound) && unused.entries == old(unused.entries)
      ensures !waiting && old(outbound).Some? ==>
                && outbound.None? && unused.entries == old(unused.entries) + [Entry(old(outbound).value, 0, 0)]
                && log == old(log) + [Released(old(outbound).value)]
      ensures waiting || old(outbound).None? ==> log == old(log)
      ensures Now() == if waiting then old(Now()) else AfterFlight(old(Now()))
    {
      hide IsPaired, Slots, Pool, Everywhere;
      if outbound.Some? {
        if t.sendComplete || t.expired {
          ReleaseOutbound();
        } else {
          return true;
        }
      }
      waiting := false;
    }

    /** The packet in flight goes back to the pool. */
    method ReleaseOutbound()
      requires Valid() && outbound.Some?
      modifies this`outbound, this`log, this`held, unused
      ensures Valid() && outbound.None? && held == old(held) && log == old(log) + [Released(old(outbound).value)]
      ensures unused.entries == old(unused.entries) + [Entry(old(outbound).value, 0, 0)]
    {
      hide IsPaired, Slots, Pool;
      var pkt := outbound.value;
      Moves(Slots(unused.entries), Slots(sendQueue.entries), Slots(rxQueue.entries), multiset{}, held, pkt);
      held := held + multiset{pkt};
      PairedMore(log, pkt);
      log := log + [Released(pkt)];
      outbound := None;
      Free(pkt);
      PutBack(old(held), pkt);
    }

    /** The next packet of the send queue, if one is due, becomes the packet in flight. */
    method TakeOutbound(now: uint32)
      requires Valid() && outbound.None?
      modifies this`outbound, this`log, sendQueue
      ensures Valid()
      ensures log == old(log) + if outbound.Some? then [Taken(outbound.value)] else []
      ensures outbound.None? ==> sendQueue.entries == old(sendQueue.entries)
                                 && forall j :: 0 <= j < |sendQueue.entries| ==> !Eligible(sendQueue.entries[j], now)
      ensures outbound.Some? ==> exists i :: 0 <= i < |old(sendQueue.entries)| && TakenAt(old(sendQueue.entries), now, i)
    {
      hide IsPaired, Slots, Pool, IsNext, Eligible;
      ghost var before := sendQueue.entries;
      var next := sendQueue.Get(now);
      if next.Some? {
        ghost var i :| 0 <= i < |before| && IsNext(before, now, i) && next.value == before[i].pkt
                       && sendQueue.entries == before[..i] + before[i + 1..];
        TakenOut(Slots(unused.entries), Slots(before), Slots(sendQueue.entries), Slots(rxQueue.entries), held, next.value);
        Launch(next.value);
        assert TakenAt(before, now, i);
      }
    }

    /** A packet taken from the send queue is in flight; until then it is in no place. */
    method Launch(pkt: Slot)
      requires Shape() && outbound.None? && Everywhere() + multiset{pkt} == Pool(poolSize) && IsPaired(log, None)
      modifies this`outbound, this`log
      ensures Valid() && outbound == Some(pkt) && log == old(log) + [Taken(pkt)]
    {
      hide IsPaired, Slots, Pool;
      Launched(Slots(unused.entries) + Slots(sendQueue.entries) + Slots(rxQueue.entries), held, pkt);
      PairedMore(log, pkt);
      log := log + [Taken(pkt)];
      outbound := Some(pkt);
    }

    /** The packet in flight was the next one of the queue q. */
    ghost predicate TakenAt(q: seq<Entry>, now: uint32, i: nat)
      requires i < |q|
      reads this, sendQueue
    {
      IsNext(q, now, i) && outbound == Some(q[i].pkt) && sendQueue.entries == q[..i] + q[i + 1..]
    }

    /**
     * checkSend: only with nothing in flight, so the packet in flight is never overwritten. A packet that is too long
     * or cannot be started goes back to the pool.
     */
    method CheckSend(t: Tick) returns (ghost taken: Option<Slot>)
      requires Valid() && outbound.None?
      modifies this`outbound, this`log, this`held, sendQueue, unused
      ensures Valid() && held == old(held)
      ensures !t.mayTransmit ==> taken.None?
      ensures log == old(log) + if taken.None? then [] else [Taken(taken.value)] + if outbound.Some? then [] else [Released(taken.value)]
      ensures taken.None? ==> outbound.None? && sendQueue.entries == old(sendQueue.entries) && unused.entries == old(unused.entries)
      ensures t.mayTransmit && taken.None? ==> forall j :: 0 <= j < |sendQueue.entries| ==> !Eligible(sendQueue.entries[j], t.now)
      ensures taken.Some? ==> if t.tooLong || !t.started then outbound.None? && unused.entries == old(unused.entries) + [Entry(taken.value, 0, 0)]
                              else outbound == taken && unused.entries == old(unused.entries)
      ensures taken.Some? ==> exists i :: 0 <= i < |old(sendQueue.entries)| && IsNext(old(sendQueue.entries), t.now, i)
                                          && taken.value == old(sendQueue.entries)[i].pkt
      ensures SentOff(old(Now()), t, taken, Now())
    {
      hide IsPaired, Slots, Pool, Everywhere, IsNext, Eligible;
      taken := None;
      if !t.mayTransmit {
        return;
      }
      ghost var before := sendQueue.entries;
      TakeOutbound(t.now);
      taken := outbound;
      if outbound.Some? {
        ghost var i :| 0 <= i < |before| && TakenAt(before, t.now, i);
        assert sendQueue.entries == Without(before, i);
      }
      if outbound.Some? {
        if t.tooLong {
          ReleaseOutbound();
        } else if !t.started {
          ReleaseOutbound();
        }
      }
    }

    /** The inbound queue's packet whose delay is over, if any, is taken in hand. */
    method TakeInbound(now: uint32) returns (pkt: Option<Slot>)
      requires Valid()
      modifies this`held, rxQueue
      ensures Valid() && held == old(held) + if pkt.Some? then multiset{pkt.value} else multiset{}
      ensures pkt.None? ==> rxQueue.entries == old(rxQueue.entries) && NoneDue(rxQueue.entries, now)
      ensures pkt.Some? ==> exists i :: 0 <= i < |old(rxQueue.entries)| && IsNext(old(rxQueue.entries), now, i)
                                        && pkt.value == old(rxQueue.entries)[i].pkt && rxQueue.entries == Without(old(rxQueue.entries), i)
    {
      hide IsPaired, Slots, Pool, IsNext, Eligible;
      ghost var before := rxQueue.entries;
      pkt := rxQueue.Get(now);
      if pkt.Some? {
        Moves(Slots(rxQueue.entries), Slots(unused.entries), Slots(sendQueue.entries), InFlight(), held, pkt.value);
        held := held + multiset{pkt.value};
        ghost var i :| 0 <= i < |before| && IsNext(before, now, i) && pkt.value == before[i].pkt
                       && rxQueue.entries == before[..i] + before[i + 1..];
        assert rxQueue.entries == Without(before, i);
      }
    }

    /** That packet is handled. */
    method HandleDue(t: Tick) returns (ghost due: Option<Slot>)
      requires Valid()
      modifies this`held, sendQueue, rxQueue, unused
      ensures Valid() && old(held) <= held && DueHandled(old(Now()), t, due, Now())
    {
      hide IsPaired, Slots, Pool, Everywhere, IsNext, Eligible, AfterHandling;
      ghost var before := Now();
      var pkt := TakeInbound(t.now);
      due := pkt;
      if pkt.Some? {
        PutBack(old(held), pkt.value);
        ghost var i :| 0 <= i < |before.received| && IsNext(before.received, t.now, i) && pkt.value == before.received[i].pkt
                       && rxQueue.entries == Without(before.received, i);
        assert Now() == before.(received := Without(before.received, i), held := before.held + multiset{pkt.value});
        ProcessRecvPacket(pkt.value, t.due, t.now);
      }
    }

    /** loop: nothing while a transmission goes on; otherwise its end, the packet that is due, what was received, and the next to send. */
    method Loop(t: Tick) returns (ghost due: Option<Slot>, ghost got: Option<Slot>, ghost taken: Option<Slot>,
                                  ghost afterDue: Places, ghost afterReceived: Places)
      requires Valid()
      modifies this`outbound, this`log, this`held, sendQueue, rxQueue, unused
      ensures Valid() && old(held) <= held && old(log) <= log
      ensures old(outbound).Some? && !t.sendComplete && !t.expired ==> Now() == old(Now())
      ensures old(outbound).Some? && (t.sendComplete || t.expired) ==> old(log) + [Released(old(outbound).value)] <= log
      ensures old(outbound).None? || t.sendComplete || t.expired ==>
                && DueHandled(AfterFlight(old(Now())), t, due, afterDue)
                && ReceivedOne(afterDue, t, got, afterReceived)
                && SentOff(afterReceived, t, taken, Now())
      ensures (old(outbound).None? || t.sendComplete || t.expired) && t.mayTransmit ==>
                if taken.None? then NoneDue(sendQueue.entries, t.now) else outbound == if t.tooLong || !t.started then None else taken
    {
      hide IsPaired, Slots, Pool, Everywhere, DueHandled, ReceivedOne, SentOff;
      due, got, taken := None, None, None;
      afterDue, afterReceived := Now(), Now();
      var waiting := FinishSend(t);
      if waiting {
        return;
      }
      due := HandleDue(t);
      afterDue := Now();
      got := CheckRecv(t);
      afterReceived := Now();
      taken := CheckSend(t);
      if t.mayTransmit {
        SentOffShows(afterReceived, t, taken, Now());
      }
    }

    /** One call; only what is in hand can be given back or sent. */
    method Answer(c: Call)
      requires Valid()
      modifies this`outbound, this`log, this`held, sendQueue, rxQueue, unused
      ensures Valid() && old(log) <= log && Called(old(Now()), c, Now())
      ensures c.Pass? || c.Send? || c.Obtain? ==> old(held) <= held
    {
      hide IsPaired, Slots, Pool, Everywhere, DueHandled, ReceivedOne, SentOff, AfterFlight;
      match c
      case Pass(t) =>
        ghost var before := Now();
        ghost var due, got, taken, m, n := Loop(t);
        assert before.outbound.None? || t.sendComplete || t.expired ==>
            DueHandled(AfterFlight(before), t, due, m) && ReceivedOne(m, t, got, n) && SentOff(n, t, taken, Now());
      case Send(valid, pri, delay, now) => RunOp(SendNew(valid, pri, delay), now);
      case Obtain => RunOp(KeepNew, 0);
      case Return(pkt) =>
        if pkt in held {
          Free(pkt);
        }
      case SendHeld(pkt, valid, pri, delay, now) =>
        if pkt in held {
          SendPacket(pkt, valid, pri, delay, now);
        }
    }

    /** Any calls in any order: each has its effect in turn, and every packet stays accounted for. */
    method Serve(calls: seq<Call>) returns (ghost trace: seq<Places>)
      requires Valid()
      modifies this`outbound, this`log, this`held, sendQueue, rxQueue, unused
      ensures Valid() && old(log) <= log
      ensures |trace| == |calls| + 1 && trace[0] == old(Now()) && trace[|calls|] == Now()
      ensures forall i :: 0 <= i < |calls| ==> Called(trace[i], calls[i], trace[i + 1])
      ensures (forall c :: c in calls ==> c.Pass? || c.Send? || c.Obtain?) ==> old(held) <= held
    {
      hide IsPaired, Slots, Pool, Everywhere, Called;
      trace := [Now()];
      for i := 0 to |calls|
        invariant Valid() && old(log) <= log
        invariant |trace| == i + 1 && trace[0] == old(Now()) && trace[i] == Now()
        invariant forall k :: 0 <= k < i ==> Called(trace[k], calls[k], trace[k + 1])
        invariant (forall c :: c in calls ==> c.Pass? || c.Send? || c.Obtain?) ==> old(held) <= held
      {
        assert calls[i] in calls;
        Answer(calls[i]);
        trace := trace + [Now()];
      }
    }
  }

  /** The slots of a pool, each once. */
  ghost function Pool(n: nat): (m: multiset<Slot>)
    ensures |m| == n && forall s: Slot :: m[s] == if s < n then 1 else 0
  {
    if n == 0 then multiset{} else Pool(n - 1) + multiset{n - 1}
  }

  lemma PoolStep(n: nat)
    ensures Pool(0) == multiset{} && Pool(n + 1) == Pool(n) + multiset{n}
  {
  }

  lemma NothingElse(m: multiset<Slot>, a: multiset<Slot>, b: multiset<Slot>)
    requires a == b == multiset{}
    ensures m + a + b + multiset{} + multiset{} == m
  {
  }

  /** A queue is shorter than the pool while a packet is in hand. */
  lemma Room(q: seq<Entry>, b: multiset<Slot>, c: multiset<Slot>, f: multiset<Slot>, h: multiset<Slot>, x: Slot, n: nat)
    requires x in h
    requires Slots(q) + b + c + f + h == Pool(n) || b + Slots(q) + c + f + h == Pool(n) || b + c + Slots(q) + f + h == Pool(n)
    ensures |q| < n
  {
    SlotsSize(q);
    hide IsPaired, Slots, Pool;
    assert h == multiset{x} + (h - multiset{x});
  }

  /** A packet moves from hand to the place a, or from the place a to hand. */
  lemma Moves(a: multiset<Slot>, b: multiset<Slot>, c: multiset<Slot>, f: multiset<Slot>, h: multiset<Slot>, x: Slot)
    ensures x in h ==> (a + multiset{x}) + b + c + f + (h - multiset{x}) == a + b + c + f + h
    ensures x in h ==> b + (a + multiset{x}) + c + f + (h - multiset{x}) == b + a + c + f + h
    ensures x in h ==> b + c + (a + multiset{x}) + f + (h - multiset{x}) == b + c + a + f + h
    ensures a + b + c + f + (h + multiset{x}) == (a + multiset{x}) + b + c + f + h
    ensures b + a + c + f + (h + multiset{x}) == b + (a + multiset{x}) + c + f + h
    ensures b + c + a + f + (h + multiset{x}) == b + c + (a + multiset{x}) + f + h
    ensures a + b + c + multiset{x} + h == a + (b + multiset{x}) + c + multiset{} + h
    ensures a + b + c + multiset{} + (h + multiset{x}) == a + b + c + multiset{x} + h
  {
  }

  lemma TakenOut(a: multiset<Slot>, b: multiset<Slot>, b': multiset<Slot>, c: multiset<Slot>, h: multiset<Slot>, x: Slot)
    requires b == b' + multiset{x}
    ensures a + b + c + multiset{} + h == a + b' + c + multiset{} + h + multiset{x}
  {
  }

  lemma Launched(q: multiset<Slot>, h: multiset<Slot>, x: Slot)
    ensures q + multiset{} + h + multiset{x} == q + multiset{x} + h
  {
  }

  lemma PutBack(h: multiset<Slot>, x: Slot)
    ensures x in h + multiset{x} && h + multiset{x} - multiset{x} == h
  {
  }

  lemma Survives(before: multiset<Slot>, after: multiset<Slot>, pkt: Slot)
    requires pkt in before && before <= after
    ensures pkt in after && before - multiset{pkt} <= after - multiset{pkt}
  {
    assert before[pkt] <= after[pkt];
  }
}

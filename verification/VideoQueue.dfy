/** The buffer queues of a video stream, as interleaved atomic steps of producers, consumers and interrupts: esp_video.c. */
module VideoQueue {

  import opened FiniteSets
  import opened Options

  /** Elements of a stream's buffer, by index. */
  type Elem = nat

  /** What the lock protects, and the semaphore, which it does not. The newest element is at the front of a list. */
  datatype Stream = Stream(free: seq<bool>, queued: seq<Elem>, done: seq<Elem>, sem: nat)

  /** Where a thread (or an interrupt) is: gives that it still owes, or a take whose element it has yet to fetch. */
  datatype Thread = Idle | Owes(gives: seq<nat>) | Took(stream: nat)

  datatype Video = Video(streams: seq<Stream>, threads: seq<Thread>)

  // -------------------------------------------------------------------------
  // The critical sections
  // -------------------------------------------------------------------------

  /** The end of esp_video_queue_element's section: the element, if free, becomes the head of the queued list. */
  function Queue(s: Stream, e: Elem): (r: Option<Stream>)
    requires e < |s.free|
  {
    if s.free[e] then Some(s.(free := s.free[e := false], queued := [e] + s.queued)) else None
  }

  /** The section of esp_video_done_element. */
  function Done(s: Stream, e: Elem): (r: Option<Stream>)
    requires e < |s.free|
  {
    if s.free[e] then Some(s.(free := s.free[e := false], done := [e] + s.done)) else None
  }

  /** The section of esp_video_get_queued_element. */
  function Unqueue(s: Stream): (r: Option<(Elem, Stream)>) {
    if |s.queued| == 0 then None
    else if s.queued[0] >= |s.free| then None
    else Some((s.queued[0], s.(free := s.free[s.queued[0] := true], queued := s.queued[1..])))
  }

  /** The section of esp_video_get_done_element. */
  function Undone(s: Stream): (r: Option<(Elem, Stream)>) {
    if |s.done| == 0 then None
    else if s.done[0] >= |s.free| then None
    else Some((s.done[0], s.(free := s.free[s.done[0] := true], done := s.done[1..])))
  }

  // The element put in last is the one taken out.

  /** Queueing succeeds exactly for a free element, which then leads the list; taking it out again undoes that. */
  lemma QueueExactly(s: Stream, e: Elem)
    requires e < |s.free|
    ensures Queue(s, e).Some? <==> s.free[e]
    ensures s.free[e] ==>
              var q := Queue(s, e).value;
              && q.queued == [e] + s.queued && !q.free[e] && q.done == s.done && q.sem == s.sem && |q.free| == |s.free|
              && (forall f :: 0 <= f < |s.free| && f != e ==> q.free[f] == s.free[f])
              && Unqueue(q) == Some((e, s))
  {
    if s.free[e] {
      var q := Queue(s, e).value;
      assert q.free[e := true] == s.free && q.queued[1..] == s.queued;
    }
  }

  lemma DoneExactly(s: Stream, e: Elem)
    requires e < |s.free|
    ensures Done(s, e).Some? <==> s.free[e]
    ensures s.free[e] ==>
              var q := Done(s, e).value;
              && q.done == [e] + s.done && !q.free[e] && q.queued == s.queued && q.sem == s.sem && |q.free| == |s.free|
              && (forall f :: 0 <= f < |s.free| && f != e ==> q.free[f] == s.free[f])
              && Undone(q) == Some((e, s))
  {
    if s.free[e] {
      var q := Done(s, e).value;
      assert q.free[e := true] == s.free && q.done[1..] == s.done;
    }
  }

  /** In a consistent stream an element comes out exactly if the list is not empty: the leading one, which is free from then on. */
  lemma UnqueueExactly(s: Stream)
    requires Placed(s)
    ensures Unqueue(s).Some? <==> |s.queued| > 0
    ensures |s.queued| > 0 ==>
              var (e, q) := Unqueue(s).value;
              && e == s.queued[0] && e < |s.free| && q.queued == s.queued[1..] && q.done == s.done && q.sem == s.sem
              && q.free == s.free[e := true] && !s.free[e]
  {
    if |s.queued| > 0 {
      assert Count(s.queued, s.queued[0]) > 0;
    }
  }

  lemma UndoneExactly(s: Stream)
    requires Placed(s)
    ensures Undone(s).Some? <==> |s.done| > 0
    ensures |s.done| > 0 ==>
              var (e, q) := Undone(s).value;
              && e == s.done[0] && e < |s.free| && q.done == s.done[1..] && q.queued == s.queued && q.sem == s.sem
              && q.free == s.free[e := true] && !s.free[e]
  {
    if |s.done| > 0 {
      assert Count(s.done, s.done[0]) > 0;
    }
  }

  /** The same sections on a stream object. */
  class StreamObject {
    var free: seq<bool>
    var queued: seq<Elem>
    var done: seq<Elem>
    var sem: nat

    ghost function Value(): Stream
      reads this
    {
      Stream(free, queued, done, sem)
    }

    /** esp_video_setup_buffer: all elements free, the semaphore empty; its limit is the number of elements. */
    constructor (count: nat)
      ensures Value() == Fresh(count)
    {
      free := seq(count, i => true);
      queued, done, sem := [], [], 0;
    }

    method QueueElement(e: Elem) returns (ok: bool)
      requires e < |free|
      modifies this
      ensures ok <==> Queue(old(Value()), e).Some?
      ensures Value() == if ok then Queue(old(Value()), e).value else old(Value())
    {
      if !free[e] {
        return false;
      }
      free := free[e := false];
      queued := [e] + queued;
      ok := true;
    }

    method InsertDone(e: Elem) returns (ok: bool)
      requires e < |free|
      modifies this
      ensures ok <==> Done(old(Value()), e).Some?
      ensures Value() == if ok then Done(old(Value()), e).value else old(Value())
    {
      if !free[e] {
        return false;
      }
      free := free[e := false];
      done := [e] + done;
      ok := true;
    }

    method GetQueuedElement() returns (element: Option<Elem>)
      requires forall i :: 0 <= i < |queued| ==> queued[i] < |free|
      modifies this
      ensures element.Some? <==> |old(queued)| > 0
      ensures element.None? ==> Unqueue(old(Value())).None? && Value() == old(Value())
      ensures element.Some? ==> Unqueue(old(Value())) == Some((element.value, Value()))
    {
      element := None;
      if |queued| != 0 {
        element := Some(queued[0]);
        queued := queued[1..];
        free := free[element.value := true];
      }
    }

    method GetDoneElement() returns (element: Option<Elem>)
      requires forall i :: 0 <= i < |done| ==> done[i] < |free|
      modifies this
      ensures element.Some? <==> |old(done)| > 0
      ensures element.None? ==> Undone(old(Value())).None? && Value() == old(Value())
      ensures element.Some? ==> Undone(old(Value())) == Some((element.value, Value()))
    {
      element := None;
      if |done| != 0 {
        element := Some(done[0]);
        done := done[1..];
        free := free[element.value := true];
      }
    }

    /** xSemaphoreGive. */
    method Give()
      modifies this
      ensures Value() == Given(old(Value()))
    {
      if sem < |free| {
        sem := sem + 1;
      }
    }

    /** xSemaphoreTake; without success the caller has waited in vain. */
    method Take() returns (ok: bool)
      modifies this
      ensures ok <==> old(sem) > 0
      ensures Value() == if ok then old(Value()).(sem := old(sem) - 1) else old(Value())
    {
      ok := sem > 0;
      if ok {
        sem := sem - 1;
      }
    }

    /** The stream's part of esp_video_stop_capture: the semaphore is drained, the lists are emptied, all elements freed. */
    method Drain()
      modifies this
      ensures Value() == Fresh(|old(free)|)
    {
      while sem > 0
        invariant free == old(free) && queued == old(queued) && done == old(done)
      {
        sem := sem - 1;
      }
      queued, done := [], [];
      ResetFlags();
    }

    /** The flags of esp_video_buffer_reset. */
    method ResetFlags()
      modifies this`free
      ensures free == seq(|old(free)|, i => true)
    {
      for i := 0 to |free|
        invariant |free| == |old(free)| && forall j :: 0 <= j < i ==> free[j]
      {
        free := free[i := true];
      }
    }
  }

  /** esp_video_queue_m2m_elements: both elements or none. */
  method QueueM2M(a: StreamObject, e: Elem, b: StreamObject, f: Elem) returns (ok: bool)
    requires a != b && e < |a.free| && f < |b.free|
    modifies a, b
    ensures ok <==> Queue(old(a.Value()), e).Some? && Queue(old(b.Value()), f).Some?
    ensures ok ==> Some(a.Value()) == Queue(old(a.Value()), e) && Some(b.Value()) == Queue(old(b.Value()), f)
    ensures !ok ==> a.Value() == old(a.Value()) && b.Value() == old(b.Value())
  {
    ok := a.free[e] && b.free[f];
    if ok {
      a.free := a.free[e := false];
      a.queued := [e] + a.queued;
      b.free := b.free[f := false];
      b.queued := [f] + b.queued;
    }
  }

  /** The section of esp_video_done_m2m_elements; the two gives follow outside of it. */
  method InsertDoneM2M(a: StreamObject, e: Elem, b: StreamObject, f: Elem) returns (ok: bool)
    requires a != b && e < |a.free| && f < |b.free|
    modifies a, b
    ensures ok <==> Done(old(a.Value()), e).Some? && Done(old(b.Value()), f).Some?
    ensures ok ==> Some(a.Value()) == Done(old(a.Value()), e) && Some(b.Value()) == Done(old(b.Value()), f)
    ensures !ok ==> a.Value() == old(a.Value()) && b.Value() == old(b.Value())
  {
    ok := a.free[e] && b.free[f];
    if ok {
      a.free := a.free[e := false];
      a.done := [e] + a.done;
      b.free := b.free[f := false];
      b.done := [f] + b.done;
    }
  }

  /** esp_video_get_m2m_queued_elements: the heads of both lists or none. */
  method GetM2MQueued(a: StreamObject, b: StreamObject) returns (ok: bool, e: Elem, f: Elem)
    requires a != b
    requires forall i :: 0 <= i < |a.queued| ==> a.queued[i] < |a.free|
    requires forall i :: 0 <= i < |b.queued| ==> b.queued[i] < |b.free|
    modifies a, b
    ensures ok <==> Unqueue(old(a.Value())).Some? && Unqueue(old(b.Value())).Some?
    ensures ok ==> Some((e, a.Value())) == Unqueue(old(a.Value())) && Some((f, b.Value())) == Unqueue(old(b.Value()))
    ensures !ok ==> a.Value() == old(a.Value()) && b.Value() == old(b.Value())
  {
    e, f := 0, 0;
    ok := |a.queued| != 0 && |b.queued| != 0;
    if ok {
      e := a.queued[0];
      a.queued := a.queued[1..];
      a.free := a.free[e := true];
      f := b.queued[0];
      b.queued := b.queued[1..];
      b.free := b.free[f := true];
    }
  }

  ghost function Fresh(count: nat): Stream {
    Stream(seq(count, i => true), [], [], 0)
  }

  // -------------------------------------------------------------------------
  // Steps
  // -------------------------------------------------------------------------

  /** One atomic step of a thread. */
  datatype Step =
    | StepQueue(s: nat, e: Elem)
    | StepUnqueue(s: nat)
    | StepDone(s: nat, e: Elem)
    | StepQueueM2M(s: nat, e: Elem, d: nat, f: Elem)
    | StepUnqueueM2M(s: nat, d: nat)
    | StepDoneM2M(s: nat, e: Elem, d: nat, f: Elem)
    | StepGive
    | StepTake(s: nat)
    | StepFetch

  datatype Event = Event(thread: nat, step: Step)

  ghost predicate HasElem(v: Video, s: nat, e: Elem) {
    s < |v.streams| && e < |v.streams[s].free|
  }

  /** The step is one that the thread can be at, with a stream and element that exist. The two streams of a pair differ. */
  ghost predicate Enabled(v: Video, ev: Event) {
    && ev.thread < |v.threads|
    && var t := v.threads[ev.thread];
       match ev.step
       case StepQueue(s, e) => t.Idle? && HasElem(v, s, e)
       case StepUnqueue(s) => t.Idle? && s < |v.streams|
       case StepDone(s, e) => t.Idle? && HasElem(v, s, e)
       case StepQueueM2M(s, e, d, f) => t.Idle? && s != d && HasElem(v, s, e) && HasElem(v, d, f)
       case StepUnqueueM2M(s, d) => t.Idle? && s != d && s < |v.streams| && d < |v.streams|
       case StepDoneM2M(s, e, d, f) => t.Idle? && s != d && HasElem(v, s, e) && HasElem(v, d, f)
       case StepGive => t.Owes? && |t.gives| > 0 && t.gives[0] < |v.streams|
       case StepTake(s) => t.Idle? && s < |v.streams|
       case StepFetch => t.Took? && t.stream < |v.streams|
  }

  ghost function WithStream(v: Video, i: nat, s: Stream): Video
    requires i < |v.streams|
  {
    v.(streams := v.streams[i := s])
  }

  ghost function WithThread(v: Video, i: nat, t: Thread): Video
    requires i < |v.threads|
  {
    v.(threads := v.threads[i := t])
  }

  ghost function AfterGive(t: Thread): Thread
    requires t.Owes? && |t.gives| > 0
  {
    if |t.gives| == 1 then Idle else Owes(t.gives[1..])
  }

  /** xSemaphoreGive: a counting semaphore stays at its limit. */
  function Given(s: Stream): Stream {
    if s.sem < |s.free| then s.(sem := s.sem + 1) else s
  }

  ghost function Next(v: Video, ev: Event): Video
    requires Enabled(v, ev)
  {
    var n, t := ev.thread, v.threads[ev.thread];
    match ev.step
    case StepQueue(s, e) => (match Queue(v.streams[s], e) case Some(q) => WithStream(v, s, q) case None => v)
    case StepUnqueue(s) => (match Unqueue(v.streams[s]) case Some(q) => WithStream(v, s, q.1) case None => v)
    case StepDone(s, e) =>
      (match Done(v.streams[s], e) case Some(q) => WithThread(WithStream(v, s, q), n, Owes([s])) case None => v)
    case StepQueueM2M(s, e, d, f) =>
      var a, b := Queue(v.streams[s], e), Queue(v.streams[d], f);
      if a.Some? && b.Some? then WithStream(WithStream(v, s, a.value), d, b.value) else v
    case StepUnqueueM2M(s, d) =>
      var a, b := Unqueue(v.streams[s]), Unqueue(v.streams[d]);
      if a.Some? && b.Some? then WithStream(WithStream(v, s, a.value.1), d, b.value.1) else v
    case StepDoneM2M(s, e, d, f) =>
      var a, b := Done(v.streams[s], e), Done(v.streams[d], f);
      if a.Some? && b.Some? then WithThread(WithStream(WithStream(v, s, a.value), d, b.value), n, Owes([s, d])) else v
    case StepGive => WithThread(WithStream(v, t.gives[0], Given(v.streams[t.gives[0]])), n, AfterGive(t))
    case StepTake(s) =>
      if v.streams[s].sem > 0
      then WithThread(WithStream(v, s, v.streams[s].(sem := v.streams[s].sem - 1)), n, Took(s)) else v
    case StepFetch =>
      (match Undone(v.streams[t.stream])
       case Some(q) => WithThread(WithStream(v, t.stream, q.1), n, Idle)
       case None => WithThread(v, n, Idle))
  }

  // -------------------------------------------------------------------------
  // The invariant
  // -------------------------------------------------------------------------

  /** How often e is in a list. */
  ghost function Count(l: seq<Elem>, e: Elem): nat {
    if |l| == 0 then 0 else (if l[0] == e then 1 else 0) + Count(l[1..], e)
  }

  /** Each element is in at most one list, once; free elements are in none, and all others are in one. */
  ghost predicate Placed(s: Stream) {
    && (forall e :: 0 <= e < |s.free| ==> Count(s.queued, e) + Count(s.done, e) == if s.free[e] then 0 else 1)
    && (forall e: Elem :: e >= |s.free| ==> Count(s.queued, e) == 0 && Count(s.done, e) == 0)
  }

  /** Gives that a thread owes to stream s, and fetches from it that are outstanding. */
  ghost function OwedBy(t: Thread, s: nat): nat {
    match t
    case Owes(gives) => Count(gives, s)
    case Took(r) => if r == s then 1 else 0
    case Idle => 0
  }

  ghost function Outstanding(threads: seq<Thread>, s: nat): nat {
    if |threads| == 0 then 0 else OwedBy(threads[0], s) + Outstanding(threads[1..], s)
  }

  /** Done elements = semaphore count + receivers past the take + producers before the give. */
  ghost predicate Balanced(v: Video, i: nat)
    requires i < |v.streams|
  {
    |v.streams[i].done| == v.streams[i].sem + Outstanding(v.threads, i)
  }

  ghost predicate Inv(v: Video) {
    forall i :: 0 <= i < |v.streams| ==> Placed(v.streams[i]) && Balanced(v, i)
  }

  lemma {:induction false} OutstandingUpdate(threads: seq<Thread>, n: nat, t: Thread, s: nat)
    requires n < |threads|
    ensures Outstanding(threads[n := t], s) + OwedBy(threads[n], s) == Outstanding(threads, s) + OwedBy(t, s)
  {
    if n == 0 {
      assert threads[0 := t][1..] == threads[1..];
    } else {
      OutstandingUpdate(threads[1..], n - 1, t, s);
      assert threads[n := t][1..] == threads[1..][n - 1 := t];
    }
  }

  lemma CountPush(l: seq<Elem>, x: Elem, e: Elem)
    ensures Count([x] + l, e) == Count(l, e) + if x == e then 1 else 0
  {
    assert ([x] + l)[1..] == l;
  }

  lemma QueuePlaced(s: Stream, e: Elem)
    requires Placed(s) && e < |s.free| && Queue(s, e).Some?
    ensures Placed(Queue(s, e).value)
  {
    var r := Queue(s, e).value;
    hide Count;
    forall x: Elem
      ensures Count(r.queued, x) == Count(s.queued, x) + if e == x then 1 else 0
    {
      CountPush(s.queued, e, x);
    }
  }

  lemma DonePlaced(s: Stream, e: Elem)
    requires Placed(s) && e < |s.free| && Done(s, e).Some?
    ensures Placed(Done(s, e).value)
  {
    var r := Done(s, e).value;
    hide Count;
    forall x: Elem
      ensures Count(r.done, x) == Count(s.done, x) + if e == x then 1 else 0
    {
      CountPush(s.done, e, x);
    }
  }

  lemma HeadCount(l: seq<Elem>)
    requires |l| > 0
    ensures Count(l, l[0]) >= 1
    ensures forall x: Elem :: Count(l, x) == Count(l[1..], x) + if l[0] == x then 1 else 0
  {
  }

  /** The head of a list is an element of the stream. */
  lemma UnqueuePlaced(s: Stream)
    requires Placed(s) && |s.queued| > 0
    ensures Unqueue(s).Some? && s.queued[0] < |s.free| && !s.free[s.queued[0]] && Placed(Unqueue(s).value.1)
  {
    HeadCount(s.queued);
    hide Count;
  }

  lemma UndonePlaced(s: Stream)
    requires Placed(s) && |s.done| > 0
    ensures Undone(s).Some? && s.done[0] < |s.free| && !s.free[s.done[0]] && Placed(Undone(s).value.1)
  {
    HeadCount(s.done);
    hide Count;
  }

  // -------------------------------------------------------------------------
  // Room for the semaphore
  // -------------------------------------------------------------------------

  ghost function Elems(l: seq<Elem>): set<Elem> {
    set x | x in l
  }

  lemma {:induction false} CountZero(l: seq<Elem>, e: Elem)
    ensures Count(l, e) == 0 <==> e !in l
  {
    if |l| > 0 {
      CountZero(l[1..], e);
      assert l == [l[0]] + l[1..];
    }
  }

  lemma {:induction false} NoRepeats(l: seq<Elem>)
    requires forall e: Elem :: Count(l, e) <= 1
    ensures |Elems(l)| == |l|
  {
    if |l| == 0 {
      assert Elems(l) == {};
    } else {
      HeadCount(l);
      var rest := l[1..];
      assert forall e: Elem :: Count(rest, e) <= 1;
      NoRepeats(rest);
      CountZero(rest, l[0]);
      assert l == [l[0]] + rest;
      assert Elems(l) == {l[0]} + Elems(rest);
    }
  }

  /** No list is longer than the stream has elements. */
  lemma DoneFits(s: Stream)
    requires Placed(s)
    ensures |s.done| <= |s.free|
  {
    hide Count;
    assert forall e: Elem :: Count(s.done, e) <= 1;
    NoRepeats(s.done);
    forall e | e in Elems(s.done)
      ensures e in Range(|s.free|)
    {
      CountZero(s.done, e);
    }
    SubsetSize(Elems(s.done), Range(|s.free|));
  }

  lemma {:induction false} OneOfAll(threads: seq<Thread>, n: nat, s: nat)
    requires n < |threads|
    ensures OwedBy(threads[n], s) <= Outstanding(threads, s)
  {
    if n > 0 {
      OneOfAll(threads[1..], n - 1, s);
    }
  }

  /** A give never finds the semaphore at its limit. */
  lemma GiveHasRoom(v: Video, n: nat)
    requires Inv(v) && n < |v.threads| && v.threads[n].Owes? && |v.threads[n].gives| > 0 && v.threads[n].gives[0] < |v.streams|
    ensures v.streams[v.threads[n].gives[0]].sem < |v.streams[v.threads[n].gives[0]].free|
  {
    var i := v.threads[n].gives[0];
    assert Placed(v.streams[i]) && Balanced(v, i);
    OneOfAll(v.threads, n, i);
    HeadCount(v.threads[n].gives);
    DoneFits(v.streams[i]);
  }

  /** A thread past its take finds an element. */
  lemma FetchFinds(v: Video, n: nat)
    requires Inv(v) && n < |v.threads| && v.threads[n].Took? && v.threads[n].stream < |v.streams|
    ensures Undone(v.streams[v.threads[n].stream]).Some?
  {
    var i := v.threads[n].stream;
    assert Placed(v.streams[i]) && Balanced(v, i);
    OneOfAll(v.threads, n, i);
    UndonePlaced(v.streams[i]);
  }

  // -------------------------------------------------------------------------
  // Every step keeps the invariant
  // -------------------------------------------------------------------------

  /** What a step must keep of each stream while it moves one thread from where it was to t. */
  ghost predicate Moves(v: Video, w: Video, n: nat, t: Thread, i: nat)
    requires n < |v.threads| && i < |v.streams| == |w.streams|
  {
    && Placed(w.streams[i])
    && |w.streams[i].done| - w.streams[i].sem - OwedBy(t, i) == |v.streams[i].done| - v.streams[i].sem - OwedBy(v.threads[n], i)
  }

  lemma Keeps(v: Video, w: Video, n: nat, t: Thread)
    requires Inv(v) && n < |v.threads| && |w.streams| == |v.streams| && w.threads == v.threads[n := t]
    requires forall i :: 0 <= i < |v.streams| ==> Moves(v, w, n, t, i)
    ensures Inv(w)
  {
    hide Placed, OwedBy, Outstanding;
    forall i | 0 <= i < |w.streams|
      ensures Placed(w.streams[i]) && Balanced(w, i)
    {
      assert Balanced(v, i) && Moves(v, w, n, t, i);
      OutstandingUpdate(v.threads, n, t, i);
    }
  }

  lemma Unmoved(v: Video, n: nat)
    requires n < |v.threads|
    ensures v.threads[n := v.threads[n]] == v.threads
  {
  }

  lemma OwesOne(s: nat, i: nat)
    ensures OwedBy(Owes([s]), i) == if s == i then 1 else 0
  {
    CountPush([], s, i);
    assert [s] + [] == [s];
  }

  lemma OwesTwo(s: nat, d: nat, i: nat)
    ensures OwedBy(Owes([s, d]), i) == (if s == i then 1 else 0) + (if d == i then 1 else 0)
  {
    OwesOne(d, i);
    CountPush([d], s, i);
    assert [s] + [d] == [s, d];
  }

  lemma OwesRest(t: Thread, i: nat)
    requires t.Owes? && |t.gives| > 0
    ensures OwedBy(t, i) == OwedBy(AfterGive(t), i) + if t.gives[0] == i then 1 else 0
  {
    HeadCount(t.gives);
    if |t.gives| == 1 {
      assert t.gives[1..] == [];
    }
  }

  /** Steps on one list, without the semaphore and without moving the thread. */
  lemma ListStepKeeps(v: Video, ev: Event)
    requires Inv(v) && Enabled(v, ev) && (ev.step.StepQueue? || ev.step.StepUnqueue? || ev.step.StepQueueM2M? || ev.step.StepUnqueueM2M?)
    ensures Inv(Next(v, ev))
  {
    hide Placed, Outstanding, Queue, Unqueue;
    var w, n := Next(v, ev), ev.thread;
    Unmoved(v, n);
    forall i | 0 <= i < |v.streams|
      ensures Moves(v, w, n, v.threads[n], i)
    {
      QueueKeeps(v.streams[i]);
    }
    Keeps(v, w, n, v.threads[n]);
  }

  /** Queueing and unqueueing on one stream keep the placement, the done list and the semaphore. */
  lemma QueueKeeps(s: Stream)
    requires Placed(s)
    ensures forall e: Elem :: e < |s.free| && Queue(s, e).Some? ==>
              Placed(Queue(s, e).value) && Queue(s, e).value.done == s.done && Queue(s, e).value.sem == s.sem
    ensures Unqueue(s).Some? ==> Placed(Unqueue(s).value.1) && Unqueue(s).value.1.done == s.done && Unqueue(s).value.1.sem == s.sem
  {
    hide Placed;
    forall e: Elem | e < |s.free| && Queue(s, e).Some?
      ensures Placed(Queue(s, e).value)
    {
      QueuePlaced(s, e);
    }
    if Unqueue(s).Some? {
      UnqueuePlaced(s);
    }
  }

  lemma DoneKeeps(s: Stream, e: Elem)
    requires Placed(s) && e < |s.free| && Done(s, e).Some?
    ensures Placed(Done(s, e).value) && |Done(s, e).value.done| == |s.done| + 1 && Done(s, e).value.sem == s.sem
  {
    DonePlaced(s, e);
  }

  lemma DoneStepKeeps(v: Video, ev: Event)
    requires Inv(v) && Enabled(v, ev) && (ev.step.StepDone? || ev.step.StepDoneM2M?)
    ensures Inv(Next(v, ev))
  {
    hide Placed, Outstanding, Done, OwedBy;
    var w, n := Next(v, ev), ev.thread;
    if w != v {
      var t := w.threads[n];
      assert w.threads == v.threads[n := t];
      forall i | 0 <= i < |v.streams|
        ensures Moves(v, w, n, t, i)
      {
        IdleOwes(i);
        match ev.step
        case StepDone(s, e) =>
          OwesOne(s, i);
          DoneKeeps(v.streams[s], e);
        case StepDoneM2M(s, e, d, f) =>
          OwesTwo(s, d, i);
          DoneKeeps(v.streams[s], e);
          DoneKeeps(v.streams[d], f);
      }
      Keeps(v, w, n, t);
    }
  }

  lemma IdleOwes(i: nat)
    ensures OwedBy(Idle, i) == 0
  {
  }

  lemma SemStepKeeps(v: Video, ev: Event)
    requires Inv(v) && Enabled(v, ev) && (ev.step.StepGive? || ev.step.StepTake?)
    ensures Inv(Next(v, ev))
  {
    hide Outstanding, Count, Placed;
    var w, n := Next(v, ev), ev.thread;
    if w != v {
      var t := w.threads[n];
      if ev.step.StepGive? {
        GiveHasRoom(v, n);
      }
      forall i | 0 <= i < |v.streams|
        ensures Moves(v, w, n, t, i)
      {
        if ev.step.StepGive? {
          OwesRest(v.threads[n], i);
        }
        SemOnly(v.streams[i], w.streams[i]);
      }
      Keeps(v, w, n, t);
    }
  }

  lemma SemOnly(s: Stream, r: Stream)
    requires Placed(s) && r.free == s.free && r.queued == s.queued && r.done == s.done
    ensures Placed(r)
  {
  }

  lemma FetchKeeps(v: Video, ev: Event)
    requires Inv(v) && Enabled(v, ev) && ev.step.StepFetch?
    ensures Inv(Next(v, ev))
  {
    hide Outstanding, Count, Placed;
    var w, n := Next(v, ev), ev.thread;
    FetchFinds(v, n);
    UndonePlaced(v.streams[v.threads[n].stream]);
    forall i | 0 <= i < |v.streams|
      ensures Moves(v, w, n, Idle, i)
    {
    }
    Keeps(v, w, n, Idle);
  }

  lemma StepKeepsInv(v: Video, ev: Event)
    requires Inv(v) && Enabled(v, ev)
    ensures Inv(Next(v, ev))
  {
    hide Inv, Next;
    match ev.step
    case StepQueue(_, _) => ListStepKeeps(v, ev);
    case StepUnqueue(_) => ListStepKeeps(v, ev);
    case StepQueueM2M(_, _, _, _) => ListStepKeeps(v, ev);
    case StepUnqueueM2M(_, _) => ListStepKeeps(v, ev);
    case StepDone(_, _) => DoneStepKeeps(v, ev);
    case StepDoneM2M(_, _, _, _) => DoneStepKeeps(v, ev);
    case StepGive => SemStepKeeps(v, ev);
    case StepTake(_) => SemStepKeeps(v, ev);
    case StepFetch => FetchKeeps(v, ev);
  }

  // -------------------------------------------------------------------------
  // Runs
  // -------------------------------------------------------------------------

  /** Buffers set up, streams started, no thread inside. */
  ghost function Start(counts: seq<nat>, threads: nat): Video {
    Video(seq(|counts|, i requires 0 <= i < |counts| => Fresh(counts[i])), seq(threads, i => Idle))
  }

  /** The state after an interleaving, if each of its steps was one its thread could take. */
  ghost function Run(counts: seq<nat>, threads: nat, es: seq<Event>): Option<Video> {
    if |es| == 0 then Some(Start(counts, threads)) else
    var r := Run(counts, threads, es[..|es| - 1]);
    if r.Some? && Enabled(r.value, es[|es| - 1]) then Some(Next(r.value, es[|es| - 1])) else None
  }

  lemma {:induction false} IdleOutstanding(n: nat, s: nat)
    ensures Outstanding(seq(n, i => Idle), s) == 0
  {
    if n > 0 {
      IdleOutstanding(n - 1, s);
      assert seq(n, i => Idle)[1..] == seq(n - 1, i => Idle);
    }
  }

  lemma {:induction false} RunKeepsInv(counts: seq<nat>, threads: nat, es: seq<Event>)
    requires Run(counts, threads, es).Some?
    ensures Inv(Run(counts, threads, es).value)
  {
    if |es| == 0 {
      forall i | 0 <= i < |counts|
        ensures Placed(Start(counts, threads).streams[i]) && Balanced(Start(counts, threads), i)
      {
        IdleOutstanding(threads, i);
      }
    } else {
      hide Inv, Next, Enabled;
      RunKeepsInv(counts, threads, es[..|es| - 1]);
      StepKeepsInv(Run(counts, threads, es[..|es| - 1]).value, es[|es| - 1]);
    }
  }

  /** In every interleaving an element is in at most one of the two lists, and is free exactly when it is in neither. */
  lemma OneListEach(counts: seq<nat>, threads: nat, es: seq<Event>, i: nat, e: Elem)
    requires Run(counts, threads, es).Some? && i < |Run(counts, threads, es).value.streams|
    requires e < |Run(counts, threads, es).value.streams[i].free|
    ensures var s := Run(counts, threads, es).value.streams[i];
            && !(e in s.queued && e in s.done)
            && (s.free[e] <==> e !in s.queued && e !in s.done)
  {
    RunKeepsInv(counts, threads, es);
    var s := Run(counts, threads, es).value.streams[i];
    assert Placed(s);
    CountZero(s.queued, e);
    CountZero(s.done, e);
  }

  /** In every interleaving the done list is as long as the semaphore's count and the outstanding gives and fetches together. */
  lemma DoneIsAccounted(counts: seq<nat>, threads: nat, es: seq<Event>, i: nat)
    requires Run(counts, threads, es).Some? && i < |Run(counts, threads, es).value.streams|
    ensures var v := Run(counts, threads, es).value; |v.streams[i].done| == v.streams[i].sem + Outstanding(v.threads, i)
  {
    RunKeepsInv(counts, threads, es);
    hide Run;
    assert Balanced(Run(counts, threads, es).value, i);
  }

  /** In every interleaving a take that succeeded is followed by a fetch that yields an element. */
  lemma TakeYields(counts: seq<nat>, threads: nat, es: seq<Event>, n: nat)
    requires Run(counts, threads, es).Some? && n < |Run(counts, threads, es).value.threads|
    requires var v := Run(counts, threads, es).value; v.threads[n].Took? && v.threads[n].stream < |v.streams|
    ensures var v := Run(counts, threads, es).value; Undone(v.streams[v.threads[n].stream]).Some?
  {
    RunKeepsInv(counts, threads, es);
    hide Run;
    FetchFinds(Run(counts, threads, es).value, n);
  }

  /** In every interleaving a give raises the semaphore: its limit is never in the way. */
  lemma GiveRaises(counts: seq<nat>, threads: nat, es: seq<Event>, n: nat)
    requires Run(counts, threads, es).Some? && n < |Run(counts, threads, es).value.threads|
    requires var v := Run(counts, threads, es).value;
             v.threads[n].Owes? && |v.threads[n].gives| > 0 && v.threads[n].gives[0] < |v.streams|
    ensures var v := Run(counts, threads, es).value; var s := v.streams[v.threads[n].gives[0]];
            Given(s).sem == s.sem + 1
  {
    RunKeepsInv(counts, threads, es);
    hide Run;
    GiveHasRoom(Run(counts, threads, es).value, n);
  }
}

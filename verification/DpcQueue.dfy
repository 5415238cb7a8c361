// The deferred-call ring (src/dpc.c): one producer (interrupt side) and one
// consumer (main loop) share a 64-slot ring through two free-running 32-bit
// indices. Enqueue and dequeue are modelled twice: as the two methods of class
// Queue, and as sequences of single-word accesses that may interleave freely.

module DpcQueue {
  import opened Words

  const CAPACITY: int := 64
  const EVENT_WORDS: int := 4

  /** One event: the words type, arg0, arg1 and handler. */
  type Event = e: seq<u32> | |e| == EVENT_WORDS witness [0, 0, 0, 0]

  /** The ring slot of a free-running index. */
  function Slot(i: nat): (k: nat)
    ensures k < CAPACITY
  {
    i % 64
  }

  function Handler(e: Event): u32 {
    e[3]
  }

  datatype Status = Ok | Full | Empty

  /** The shared queue structure. */
  datatype Ring = Ring(slots: seq<Event>, head: u32, tail: u32, drops: u32) {
    ghost predicate Valid() {
      |slots| == CAPACITY && Sub32(head, tail) <= CAPACITY
    }

    /** The queued events, oldest first. */
    ghost function Contents(): seq<Event>
      requires Valid()
    {
      seq(Sub32(head, tail), i requires 0 <= i => slots[Slot(tail + i)])
    }
  }

  // ---- The operations, run to completion -------------------------------

  function Enqueued(r: Ring, ev: Event): (Ring, Status)
    requires |r.slots| == CAPACITY
  {
    if Sub32(r.head, r.tail) >= CAPACITY then
      (r.(drops := Add32(r.drops, 1)), Full)
    else
      (r.(slots := r.slots[Slot(r.head) := ev], head := Add32(r.head, 1)), Ok)
  }

  function Dequeued(r: Ring): (Ring, Status)
  {
    if r.tail == r.head then (r, Empty) else (r.(tail := Add32(r.tail, 1)), Ok)
  }

  lemma SlotsDiffer(i: nat, j: nat)
    requires i < j < i + CAPACITY
    ensures Slot(i) != Slot(j)
  {
  }

  /** The masked 32-bit index picks the same slot as the unbounded one, as 64 divides 2^32. */
  lemma SlotOfWrapped(n: nat)
    ensures Slot(Low32(n)) == Slot(n)
  {
  }

  /** The wrapped difference of two wrapped counts is their true difference when it is small. */
  lemma WrappedDistance(a: nat, b: nat)
    requires b <= a <= b + CAPACITY
    ensures Sub32(Low32(a), Low32(b)) == a - b
    ensures Add32(Low32(a), 1) == Low32(a + 1)
  {
  }

  lemma NextSlots(tail: u32, i: nat)
    ensures Slot(Add32(tail, 1) + i) == Slot(tail + (i + 1))
  {
  }

  /** Enqueue appends at the back, and refuses exactly at 64 queued events. */
  lemma EnqueueAppends(r: Ring, ev: Event)
    requires r.Valid()
    ensures var (r', status) := Enqueued(r, ev);
            && r'.Valid()
            && (status == Full <==> |r.Contents()| == CAPACITY)
            && r'.Contents() == if status == Ok then r.Contents() + [ev] else r.Contents()
  {
    var (r', status) := Enqueued(r, ev);
    if status == Ok {
      var n := Sub32(r.head, r.tail);
      assert Sub32(r'.head, r'.tail) == n + 1;
      assert Slot(r.head) == Slot(r.tail + n);
      var all, grown := r'.Contents(), r.Contents() + [ev];
      forall k: nat | k <= n ensures all[k] == grown[k] {
        if k < n {
          SlotsDiffer(r.tail + k, r.tail + n);
        }
      }
      assert all == grown;
    }
  }

  /** Dequeue removes the oldest event, and refuses exactly an empty queue. */
  lemma DequeueRemovesOldest(r: Ring)
    requires r.Valid()
    ensures var (r', status) := Dequeued(r);
            && r'.Valid()
            && (status == Empty <==> r.Contents() == [])
            && (status == Ok ==> r.Contents() == [r.slots[Slot(r.tail)]] + r'.Contents())
            && (status == Empty ==> r' == r)
  {
    var (r', status) := Dequeued(r);
    if status == Ok {
      var n := Sub32(r.head, r.tail);
      assert Sub32(r'.head, r'.tail) == n - 1;
      var all, split := r.Contents(), [r.slots[Slot(r.tail)]] + r'.Contents();
      forall k: nat | k < n ensures all[k] == split[k] {
        if k > 0 {
          NextSlots(r.tail, k - 1);
        }
      }
      assert all == split;
    }
  }

  class Queue {
    var events: array<Event>
    var head: u32
    var tail: u32
    var dropCount: u32
    var processed: u32
    ghost var contents: seq<Event>  // the queued events, oldest first
    ghost var ran: seq<Event>       // events whose handler was called, in order

    ghost function Abs(): Ring
      reads this, events
    {
      Ring(events[..], head, tail, dropCount)
    }

    ghost predicate Valid()
      reads this, events
    {
      Abs().Valid() && contents == Abs().Contents()
    }

    constructor ()
      ensures Valid() && fresh(events) && contents == [] && dropCount == 0 && ran == [] && processed == 0
    {
      events := new Event[CAPACITY](_ => [0, 0, 0, 0]);
      head, tail, dropCount, processed := 0, 0, 0, 0;
      contents, ran := [], [];
    }

    method Enqueue(ev: Event) returns (status: Status)
      requires Valid()
      modifies this`head, this`dropCount, this`contents, events
      ensures Valid() && (Abs(), status) == Enqueued(old(Abs()), ev)
      ensures status == if |old(contents)| == CAPACITY then Full else Ok
      ensures contents == if status == Ok then old(contents) + [ev] else old(contents)
      ensures dropCount == if status == Ok then old(dropCount) else Add32(old(dropCount), 1)
    {
      EnqueueAppends(Abs(), ev);
      var currentHead, currentTail := head, tail;
      if Sub32(currentHead, currentTail) >= CAPACITY {
        dropCount := Add32(dropCount, 1);
        return Full;
      }
      events[Slot(currentHead)] := ev;
      head := Add32(currentHead, 1);
      contents := contents + [ev];
      return Ok;
    }

    method Dequeue() returns (status: Status, ev: Event)
      requires Valid()
      modifies this`tail, this`contents
      ensures Valid() && (Abs(), status) == Dequeued(old(Abs()))
      ensures status == if old(contents) == [] then Empty else Ok
      ensures if status == Ok then old(contents) == [ev] + contents else contents == []
    {
      DequeueRemovesOldest(Abs());
      var currentTail, currentHead := tail, head;
      if currentTail == currentHead {
        return Empty, [0, 0, 0, 0];
      }
      ev := events[Slot(currentTail)];
      tail := Add32(currentTail, 1);
      contents := contents[1..];
      return Ok, ev;
    }

    /** Dequeues one event and calls its handler; false when there was none. */
    method Process() returns (worked: bool)
      requires Valid()
      modifies this`tail, this`contents, this`processed, this`ran
      ensures Valid()
      ensures worked <==> old(contents) != []
      ensures worked ==>
                && contents == old(contents)[1..]
                && ran == old(ran) + (if Handler(old(contents)[0]) != 0 then [old(contents)[0]] else [])
                && ran == old(ran) + Called(old(contents)[..1])
                && processed == Add32(old(processed), 1)
      ensures !worked ==> contents == [] && ran == old(ran) && processed == old(processed)
    {
      var status, ev := Dequeue();
      if status != Ok {
        return false;
      }
      assert old(contents)[..1] == [ev] && [ev][1..] == [];
      if Handler(ev) != 0 {
        ran := ran + [ev];
      }
      processed := Add32(processed, 1);
      return true;
    }

    /** What handlers and interrupts offer between two turns of the drain. */
    method TakeArrivals(evs: seq<Event>)
      requires Valid()
      modifies this`head, this`dropCount, this`contents, events
      ensures Valid() && contents == Offered(old(contents), evs)
    {
      var i := 0;
      while i < |evs|
        invariant 0 <= i <= |evs| && Valid()
        invariant Offered(contents, evs[i..]) == Offered(old(contents), evs)
      {
        assert evs[i..][1..] == evs[i + 1..];
        var _ := Enqueue(evs[i]);
        i := i + 1;
      }
    }

    /** One turn of the drain, after these events arrived. */
    method Turn(evs: seq<Event>) returns (worked: bool)
      requires Valid()
      modifies this`head, this`tail, this`dropCount, this`contents, this`processed, this`ran, events
      ensures Valid()
      ensures var now := Offered(old(contents), evs);
              && (worked <==> now != [])
              && contents == (if worked then now[1..] else [])
              && ran == (if worked then old(ran) + Called(now[..1]) else old(ran))
              && processed == (if worked then Add32(old(processed), 1) else old(processed))
    {
      hide Called, Offered;
      TakeArrivals(evs);
      worked := Process();
    }

    /** Drains the queue while handlers and interrupts offer more: arrivals[k] before the turn
        numbered k. Every event queued or accepted meanwhile is handled once, in order. */
    method ProcessAll(arrivals: seq<seq<Event>>) returns (count: u32)
      requires Valid()
      modifies this`head, this`tail, this`dropCount, this`contents, this`processed, this`ran, events
      ensures Valid() && contents == []
      ensures count == Low32(|Drained(old(contents), arrivals)|)
      ensures ran == old(ran) + Called(Drained(old(contents), arrivals))
      ensures processed == Low32(old(processed) + |Drained(old(contents), arrivals)|)
    {
      hide Called, Low32, Drained, Offered, Later, Now;
      NoneCalled();
      NoneLater(arrivals);
      WrapsStart(processed);
      ghost var done: seq<Event> := [];
      ghost var queued, before := contents, ran;
      ghost var left := arrivals;
      count := 0;
      var turn := 0;
      var worked := true;
      while worked
        invariant Valid() && 0 <= turn && left == Later(arrivals, turn)
        invariant worked ==> done + Drained(contents, left) == Drained(queued, arrivals)
        invariant !worked ==> done == Drained(queued, arrivals) && contents == []
        invariant ran == before + Called(done)
        invariant count == Low32(|done|) && processed == Low32(old(processed) + |done|)
        decreases |left|, |contents|, worked
      {
        var evs := if turn < |arrivals| then arrivals[turn] else [];
        ghost var now := Offered(contents, evs);
        TurnCounts(contents, arrivals, turn, done, now, old(processed), before);
        worked := Turn(evs);
        if worked {
          done := done + now[..1];
          count := Add32(count, 1);
          turn := turn + 1;
          left := Later(arrivals, turn);
        }
      }
    }
  }

  /** A queue after events were offered to it, each accepted while there is room. */
  ghost function Offered(q: seq<Event>, evs: seq<Event>): (r: seq<Event>)
    ensures q <= r
    decreases |evs|
  {
    if evs == [] then q
    else Offered(if |q| == CAPACITY then q else q + [evs[0]], evs[1..])
  }

  function Now(arrivals: seq<seq<Event>>): seq<Event> {
    if arrivals == [] then [] else arrivals[0]
  }

  function Later(arrivals: seq<seq<Event>>, turn: nat): seq<seq<Event>> {
    if turn >= |arrivals| then [] else arrivals[turn..]
  }

  /** The events a drain handles, in order. */
  ghost function Drained(q: seq<Event>, arrivals: seq<seq<Event>>): seq<Event>
    decreases |arrivals|, |q|
  {
    var now := Offered(q, Now(arrivals));
    if now == [] then []
    else [now[0]] + Drained(now[1..], Later(arrivals, 1))
  }

  /** The events accepted while it runs. */
  ghost function Accepted(q: seq<Event>, arrivals: seq<seq<Event>>): seq<Event>
    decreases |arrivals|, |q|
  {
    var now := Offered(q, Now(arrivals));
    if now == [] then []
    else now[|q|..] + Accepted(now[1..], Later(arrivals, 1))
  }

  lemma NoneLater(arrivals: seq<seq<Event>>)
    ensures Later(arrivals, 0) == arrivals
  {
  }

  /** What the next turn takes, and what is left after it. */
  lemma LaterHead(arrivals: seq<seq<Event>>, turn: nat, q: seq<Event>)
    ensures Now(Later(arrivals, turn)) == if turn < |arrivals| then arrivals[turn] else []
    ensures Later(Later(arrivals, turn), 1) == Later(arrivals, turn + 1)
    ensures |Later(arrivals, turn + 1)| <= |Later(arrivals, turn)|
    ensures if turn < |arrivals| then |Later(arrivals, turn + 1)| < |Later(arrivals, turn)|
            else Offered(q, Now(Later(arrivals, turn))) == q
  {
    if turn < |arrivals| {
      assert arrivals[turn..][1..] == arrivals[turn + 1..];
    }
  }

  /** First what was queued, then what was accepted meanwhile, in the order of acceptance; so
      without arrivals exactly what was queued. */
  lemma {:induction false} DrainIsFifo(q: seq<Event>, arrivals: seq<seq<Event>>)
    ensures Drained(q, arrivals) == q + Accepted(q, arrivals)
    ensures arrivals == [] ==> Accepted(q, arrivals) == []
    decreases |arrivals|, |q|
  {
    var now := Offered(q, Now(arrivals));
    assert arrivals == [] ==> now == q && Later(arrivals, 1) == [];
    assert arrivals != [] ==> |Later(arrivals, 1)| < |arrivals|;
    if now != [] {
      var rest := Later(arrivals, 1);
      DrainIsFifo(now[1..], rest);
      assert Accepted(q, arrivals) == now[|q|..] + Accepted(now[1..], rest);
      hide *;
      Regroup(q, now, Accepted(now[1..], rest));
    }
  }

  lemma Regroup(q: seq<Event>, now: seq<Event>, rest: seq<Event>)
    requires q <= now && now != []
    ensures [now[0]] + (now[1..] + rest) == q + (now[|q|..] + rest)
  {
    assert [now[0]] + now[1..] == now == q + now[|q|..];
  }

  lemma OneTurn(q: seq<Event>, arrivals: seq<seq<Event>>, now: seq<Event>, done: seq<Event>)
    requires now == Offered(q, Now(arrivals))
    ensures if now == [] then done + Drained(q, arrivals) == done
            else done + Drained(q, arrivals) == done + now[..1] + Drained(now[1..], Later(arrivals, 1))
  {
    if now != [] {
      assert [now[0]] == now[..1];
    }
  }

  /** One turn of the drain, with what it adds to the counts. */
  lemma TurnCounts(q: seq<Event>, arrivals: seq<seq<Event>>, turn: nat, done: seq<Event>, now: seq<Event>, start: nat,
                   before: seq<Event>)
    requires now == Offered(q, if turn < |arrivals| then arrivals[turn] else [])
    ensures var left, next := Later(arrivals, turn), Later(arrivals, turn + 1);
            && (if now == [] then done + Drained(q, left) == done
                else done + Drained(q, left) == done + now[..1] + Drained(now[1..], next))
            && (|next| < |left| || (|next| == |left| && now == q))
            && (now != [] ==> |done + now[..1]| == |done| + 1 && |now[1..]| < |now|)
            && (now != [] ==> before + Called(done) + Called(now[..1]) == before + Called(done + now[..1]))
            && Add32(Low32(|done|), 1) == Low32(|done| + 1)
            && Add32(Low32(start + |done|), 1) == Low32(start + (|done| + 1))
  {
    hide *;
    var left := Later(arrivals, turn);
    LaterHead(arrivals, turn, q);
    OneTurn(q, left, now, done);
    if now != [] {
      CalledConcat(done, now[..1]);
      assert before + Called(done) + Called(now[..1]) == before + (Called(done) + Called(now[..1]));
    }
    CountUp(|done|);
    CountUp(start + |done|);
  }

  lemma WrapsStart(processed: u32)
    ensures Low32(0) == 0 && Low32(processed) == processed
  {
  }

  /** The events that have a handler to call. */
  ghost function Called(evs: seq<Event>): seq<Event> {
    if evs == [] then []
    else (if Handler(evs[0]) != 0 then [evs[0]] else []) + Called(evs[1..])
  }

  lemma NoneCalled()
    ensures Called([]) == []
  {
  }

  lemma {:induction false} CalledConcat(a: seq<Event>, b: seq<Event>)
    ensures Called(a + b) == Called(a) + Called(b)
  {
    if a == [] {
      assert a + b == b;
    } else {
      assert (a + b)[1..] == a[1..] + b;
      CalledConcat(a[1..], b);
    }
  }

  // ---- The operations as interleaved single-word accesses --------------

  /** The producer inside dpc_queue_enqueue: what it has read or written so far. */
  datatype Producer =
    | PIdle
    | PHead(ev: Event, head: u32)                 // head read
    | PTail(ev: Event, head: u32, tail: u32)      // tail read
    | PWrite(ev: Event, head: u32, done: nat)     // so many words of the slot written

  /** The consumer inside dpc_queue_dequeue. */
  datatype Consumer =
    | CIdle
    | CTail(tail: u32)
    | CHead(tail: u32, head: u32)
    | CCopy(tail: u32, buf: seq<u32>)

  /** The shared ring, both program counters, and the history of the run. */
  datatype System = System(
    ring: Ring, prod: Producer, cons: Consumer,
    attempted: nat, accepted: seq<Event>, dropped: nat, dequeued: seq<Event>)

  datatype Step = Offer(ev: Event) | Produce | Consume

  const EMPTY_RING: Ring := Ring(seq(CAPACITY, _ => [0, 0, 0, 0]), 0, 0, 0)
  const INIT: System := System(EMPTY_RING, PIdle, CIdle, 0, [], 0, [])

  predicate Shaped(s: System) {
    && |s.ring.slots| == CAPACITY
    && (s.prod.PWrite? ==> s.prod.done <= EVENT_WORDS)
    && (s.cons.CCopy? ==> |s.cons.buf| <= EVENT_WORDS)
  }

  /** The producer's next single-word access. */
  function ProducerStep(s: System): (s': System)
    requires Shaped(s)
    ensures Shaped(s')
  {
    match s.prod
    case PIdle => s
    case PHead(ev, h) => s.(prod := PTail(ev, h, s.ring.tail))
    case PTail(ev, h, t) =>
      if Sub32(h, t) >= CAPACITY then
        s.(prod := PIdle, ring := s.ring.(drops := Add32(s.ring.drops, 1)), dropped := s.dropped + 1)
      else
        s.(prod := PWrite(ev, h, 0))
    case PWrite(ev, h, k) =>
      if k < EVENT_WORDS then
        var slot: Event := s.ring.slots[Slot(h)][k := ev[k]];
        s.(prod := PWrite(ev, h, k + 1), ring := s.ring.(slots := s.ring.slots[Slot(h) := slot]))
      else
        s.(prod := PIdle, ring := s.ring.(head := Add32(h, 1)), accepted := s.accepted + [ev])
  }

  /** The consumer's next single-word access. */
  function ConsumerStep(s: System): (s': System)
    requires Shaped(s)
    ensures Shaped(s')
  {
    match s.cons
    case CIdle => s.(cons := CTail(s.ring.tail))
    case CTail(t) => s.(cons := CHead(t, s.ring.head))
    case CHead(t, h) => s.(cons := if t == h then CIdle else CCopy(t, []))
    case CCopy(t, buf) =>
      if |buf| < EVENT_WORDS then
        s.(cons := CCopy(t, buf + [s.ring.slots[Slot(t)][|buf|]]))
      else
        s.(cons := CIdle, ring := s.ring.(tail := Add32(t, 1)), dequeued := s.dequeued + [buf])
  }

  function Next(s: System, step: Step): (s': System)
    requires Shaped(s)
    ensures Shaped(s')
  {
    match step
    case Offer(ev) =>
      if s.prod.PIdle? then s.(prod := PHead(ev, s.ring.head), attempted := s.attempted + 1) else s
    case Produce => ProducerStep(s)
    case Consume => ConsumerStep(s)
  }

  function Run(s: System, steps: seq<Step>): (s': System)
    requires Shaped(s)
    ensures Shaped(s')
    decreases |steps|
  {
    if steps == [] then s else Run(Next(s, steps[0]), steps[1..])
  }

  /** Published and not yet consumed: the abstract queue. */
  function Pending(s: System): seq<Event>
    requires |s.dequeued| <= |s.accepted|
  {
    s.accepted[|s.dequeued|..]
  }

  ghost predicate ProducerInv(s: System)
    requires Shaped(s)
  {
    var queued := |s.accepted| - |s.dequeued|;
    match s.prod
    case PIdle => true
    case PHead(ev, h) => h == s.ring.head
    case PTail(ev, h, t) => h == s.ring.head && queued <= Sub32(h, t) <= CAPACITY
    case PWrite(ev, h, k) =>
      h == s.ring.head && queued < CAPACITY && s.ring.slots[Slot(h)][..k] == ev[..k]
  }

  ghost predicate ConsumerInv(s: System)
    requires Shaped(s) && |s.dequeued| <= |s.accepted|
  {
    var queued := |s.accepted| - |s.dequeued|;
    match s.cons
    case CIdle => true
    case CTail(t) => t == s.ring.tail
    case CHead(t, h) => t == s.ring.tail && Sub32(h, t) <= queued
    case CCopy(t, buf) =>
      t == s.ring.tail && queued > 0 && buf == s.accepted[|s.dequeued|][..|buf|]
  }

  ghost predicate Inv(s: System) {
    && Shaped(s)
    && |s.dequeued| <= |s.accepted| <= |s.dequeued| + CAPACITY
    && s.ring.head == Low32(|s.accepted|)
    && s.ring.tail == Low32(|s.dequeued|)
    && s.ring.drops == Low32(s.dropped)
    && s.dequeued <= s.accepted
    && (forall i: nat :: |s.dequeued| <= i < |s.accepted| ==> s.ring.slots[Slot(i)] == s.accepted[i])
    && |s.accepted| + s.dropped + (if s.prod.PIdle? then 0 else 1) == s.attempted
    && ProducerInv(s)
    && ConsumerInv(s)
  }

  /** The producer never writes a slot that holds a published, unconsumed event. */
  lemma NoSlotOverwritten(s: System, i: nat)
    requires Inv(s) && |s.dequeued| <= i < |s.accepted|
    ensures ProducerStep(s).ring.slots[Slot(i)] == s.ring.slots[Slot(i)]
  {
    if s.prod.PWrite? && s.prod.done < EVENT_WORDS {
      SlotOfWrapped(|s.accepted|);
      SlotsDiffer(i, |s.accepted|);
    }
  }

  lemma ProducerKeepsInv(s: System)
    requires Inv(s)
    ensures Inv(ProducerStep(s))
  {
    match s.prod {
      case PIdle =>
      case PHead(_, _) => WrappedDistance(|s.accepted|, |s.dequeued|);
      case PTail(_, _, _) => CountUp(s.dropped);
      case PWrite(ev, _, k) =>
        if k < EVENT_WORDS {
          ProducerKeepsSlots(s);
          assert ev[..k + 1] == ev[..k] + [ev[k]];
        } else {
          PublishedSlots(s, ProducerStep(s));
          WrappedDistance(|s.accepted|, |s.dequeued|);
        }
    }
  }

  lemma ProducerKeepsSlots(s: System)
    requires Inv(s)
    ensures forall i: nat :: |s.dequeued| <= i < |s.accepted| ==> ProducerStep(s).ring.slots[Slot(i)] == s.accepted[i]
  {
    forall i: nat | |s.dequeued| <= i < |s.accepted| ensures ProducerStep(s).ring.slots[Slot(i)] == s.accepted[i] {
      NoSlotOverwritten(s, i);
    }
  }

  lemma PublishedSlots(s: System, s': System)
    requires Inv(s) && s.prod.PWrite? && s.prod.done == EVENT_WORDS && s' == ProducerStep(s)
    ensures forall i: nat :: |s'.dequeued| <= i < |s'.accepted| ==> s'.ring.slots[Slot(i)] == s'.accepted[i]
  {
    SlotOfWrapped(|s.accepted|);
    assert s.ring.slots[Slot(|s.accepted|)] == s.prod.ev;
  }

  lemma ConsumerKeepsInv(s: System)
    requires Inv(s)
    ensures Inv(ConsumerStep(s))
  {
    match s.cons {
      case CIdle =>
      case CTail(_) => WrappedDistance(|s.accepted|, |s.dequeued|);
      case CHead(_, _) => WrappedDistance(|s.accepted|, |s.dequeued|);
      case CCopy(_, buf) =>
        if |buf| < EVENT_WORDS {
          SlotOfWrapped(|s.dequeued|);
        } else {
          ConsumerPublishes(s);
        }
    }
  }

  lemma ConsumerPublishes(s: System)
    requires Inv(s) && s.cons.CCopy? && |s.cons.buf| == EVENT_WORDS
    ensures Inv(ConsumerStep(s))
  {
    var t := |s.dequeued|;
    WrappedDistance(t, t);
    assert s.cons.buf == s.accepted[t];
    assert s.accepted[..t + 1] == s.accepted[..t] + [s.accepted[t]];
  }

  lemma {:induction false} RunKeepsInv(s: System, steps: seq<Step>)
    requires Inv(s)
    ensures Inv(Run(s, steps))
    decreases |steps|
  {
    if steps != [] {
      match steps[0] {
        case Offer(_) =>
        case Produce => ProducerKeepsInv(s);
        case Consume => ConsumerKeepsInv(s);
      }
      RunKeepsInv(Next(s, steps[0]), steps[1..]);
    }
  }

  /** Under every interleaving, however often both indices wrap around: what was
      dequeued is exactly a prefix of what was accepted, in order and unmixed; the
      index distance is the number of queued events and never exceeds 64; and every
      attempt was accepted, dropped, or is still in progress. */
  lemma EveryInterleavingIsFifo(steps: seq<Step>)
    ensures var s := Run(INIT, steps);
            && s.dequeued <= s.accepted
            && Sub32(s.ring.head, s.ring.tail) == |s.accepted| - |s.dequeued| <= CAPACITY
            && |s.accepted| + s.dropped + (if s.prod.PIdle? then 0 else 1) == s.attempted
            && s.ring.drops == Low32(s.dropped)
  {
    RunKeepsInv(INIT, steps);
  }

  /** Each access either leaves the abstract queue alone, appends the offered event
      to a queue that is not full (publishing head), or removes the oldest event, the
      very one the consumer copied (publishing tail). */
  lemma StepRefinesBoundedFifo(s: System, step: Step)
    requires Inv(s)
    ensures Inv(Next(s, step))
    ensures var q, q' := Pending(s), Pending(Next(s, step));
            || q' == q
            || (step == Produce && s.prod.PWrite? && |q| < CAPACITY && q' == q + [s.prod.ev])
            || (step == Consume && s.cons.CCopy? && q != [] && q[0] == s.cons.buf && q' == q[1..])
  {
    match step {
      case Offer(_) =>
      case Produce =>
        ProducerKeepsInv(s);
        ProducerRefines(s);
        hide Inv, ProducerStep, Pending;
      case Consume =>
        ConsumerKeepsInv(s);
        ConsumerRefines(s);
        hide Inv, ConsumerStep, Pending;
    }
  }

  lemma ProducerRefines(s: System)
    requires Inv(s)
    ensures var q, q' := Pending(s), Pending(ProducerStep(s));
            q' == q || (s.prod.PWrite? && |q| < CAPACITY && q' == q + [s.prod.ev])
  {
  }

  lemma ConsumerRefines(s: System)
    requires Inv(s)
    ensures var q, q' := Pending(s), Pending(ConsumerStep(s));
            q' == q || (s.cons.CCopy? && q != [] && q[0] == s.cons.buf && q' == q[1..])
  {
  }

  /** FULL and EMPTY are decided by one read, and are right at that moment. */
  lemma VerdictsAreRightWhenRead(s: System)
    requires Inv(s)
    ensures s.prod.PHead? ==>
              var p := ProducerStep(s).prod;
              (Sub32(p.head, p.tail) >= CAPACITY <==> |Pending(s)| == CAPACITY)
    ensures s.cons.CTail? ==>
              var c := ConsumerStep(s).cons;
              (c.tail == c.head <==> Pending(s) == [])
  {
  }

  /** Without interference the producer's accesses add up to the Enqueue method. */
  lemma UninterruptedEnqueue(s: System, ev: Event)
    requires Inv(s) && s.prod.PIdle?
    ensures var (ring, status) := Enqueued(s.ring, ev);
            var steps := [Offer(ev), Produce, Produce] + (if status == Ok then seq(5, _ => Produce) else []);
            && Run(s, steps).ring == ring
            && Run(s, steps).prod == PIdle
  {
    var (ring, status) := Enqueued(s.ring, ev);
    var s3 := Next(Next(Next(s, Offer(ev)), Produce), Produce);
    var more: seq<Step> := if status == Ok then seq(5, _ => Produce) else [];
    RunPrefix(s, Offer(ev), [Produce, Produce] + more);
    RunPrefix(Next(s, Offer(ev)), Produce, [Produce] + more);
    RunPrefix(Next(Next(s, Offer(ev)), Produce), Produce, more);
    assert [Offer(ev), Produce, Produce] + more == [Offer(ev)] + ([Produce, Produce] + more);
    assert [Produce, Produce] + more == [Produce] + ([Produce] + more);
    if status == Ok {
      assert s3.prod == PWrite(ev, s.ring.head, 0);
      ProduceRun(s3, 5);
      var slot := s.ring.slots[Slot(s.ring.head)];
      assert slot[0 := ev[0]][1 := ev[1]][2 := ev[2]][3 := ev[3]] == ev;
    }
  }

  lemma RunPrefix(s: System, step: Step, rest: seq<Step>)
    requires Shaped(s)
    ensures Run(s, [step] + rest) == Run(Next(s, step), rest)
  {
    assert ([step] + rest)[1..] == rest;
  }

  function ProducerSteps(s: System, n: nat): (s': System)
    requires Shaped(s)
    ensures Shaped(s')
    decreases n
  {
    if n == 0 then s else ProducerSteps(ProducerStep(s), n - 1)
  }

  lemma {:induction false} ProduceRun(s: System, n: nat)
    requires Shaped(s)
    ensures Run(s, seq(n, _ => Produce)) == ProducerSteps(s, n)
    decreases n
  {
    if n > 0 {
      var steps: seq<Step> := seq(n, _ => Produce);
      assert steps[1..] == seq(n - 1, _ => Produce);
      ProduceRun(ProducerStep(s), n - 1);
    }
  }

  function ConsumerSteps(s: System, n: nat): (s': System)
    requires Shaped(s)
    ensures Shaped(s')
    decreases n
  {
    if n == 0 then s else ConsumerSteps(ConsumerStep(s), n - 1)
  }

  lemma {:induction false} ConsumeRun(s: System, n: nat)
    requires Shaped(s)
    ensures Run(s, seq(n, _ => Consume)) == ConsumerSteps(s, n)
    decreases n
  {
    if n > 0 {
      var steps: seq<Step> := seq(n, _ => Consume);
      assert steps[1..] == seq(n - 1, _ => Consume);
      ConsumeRun(ConsumerStep(s), n - 1);
    }
  }

  /** A copy that has taken k words of the slot ends with the whole slot. */
  lemma {:induction false} CopyTakesSlot(s: System, t: u32, k: nat)
    requires Shaped(s) && k <= EVENT_WORDS && s.cons == CCopy(t, s.ring.slots[Slot(t)][..k])
    ensures ConsumerSteps(s, EVENT_WORDS - k + 1) ==
            s.(cons := CIdle, ring := s.ring.(tail := Add32(t, 1)), dequeued := s.dequeued + [s.ring.slots[Slot(t)]])
    decreases EVENT_WORDS - k
  {
    var slot := s.ring.slots[Slot(t)];
    if k == EVENT_WORDS {
      assert slot[..k] == slot;
      assert ConsumerSteps(s, 1) == ConsumerSteps(ConsumerStep(s), 0);
    } else {
      assert slot[..k] + [slot[k]] == slot[..k + 1];
      CopyTakesSlot(ConsumerStep(s), t, k + 1);
    }
  }

  /** Nor is the consumer's run any different from the Dequeue method: it hands over the
      oldest event, or finds the queue empty. */
  lemma UninterruptedDequeue(s: System)
    requires Inv(s) && s.cons.CIdle?
    ensures var (ring, status) := Dequeued(s.ring);
            var r := Run(s, seq(if status == Ok then 8 else 3, _ => Consume));
            && r.ring == ring && r.cons == CIdle
            && (status == Ok <==> Pending(s) != [])
            && r.dequeued == if status == Ok then s.dequeued + [Pending(s)[0]] else s.dequeued
  {
    WrappedDistance(|s.accepted|, |s.dequeued|);
    var (ring, status) := Dequeued(s.ring);
    var s3 := ConsumerStep(ConsumerStep(ConsumerStep(s)));
    assert ConsumerSteps(s, 3) == s3;
    if status == Ok {
      ConsumeRun(s, 8);
      CopyTakesSlot(s3, s.ring.tail, 0);
      assert ConsumerSteps(s, 8) == ConsumerSteps(s3, 5);
      SlotOfWrapped(|s.dequeued|);
    } else {
      ConsumeRun(s, 3);
    }
  }
}

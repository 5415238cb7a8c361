// Whole runs of the DHCP client (src/dhcp.c) against a network that may delay, repeat,
// reorder and lose replies, and a server that leases addresses.

module DhcpRuns {
  import opened Words
  import opened DhcpClient

  /** A REQUEST that went out, and an ACK the server sent. */
  datatype Request = Request(xid: u32, at: Clock)
  datatype Ack = Ack(reply: Reply, at: Clock)

  /** The client and a history: whether forget was called since the last bind, messages sent
      since the client entered its present state (or was started), the last DISCOVER since a
      start or bind, all REQUESTs, xids used, ACKs, the ACK the held lease came from, and the
      ACK the stack's address came from, if it came from one. */
  datatype World = World(
    c: Client, clock: Clock, forgotten: bool, burst: nat, lastDiscover: Option<Clock>,
    requests: seq<Request>, xids: set<u32>, acks: seq<Ack>, grant: Option<Ack>, stackFrom: Option<Ack>)

  datatype Event =
    | StartAt(now: Clock, randXid: u32, rand: u32)
    | TickAt(now: Clock, randXid: u32, rand: u32)
    | StopNow
    | ForgetNow
    | FallBack(net: Net)
    | ReceiveAt(now: Clock, reply: Reply, acked: Clock, randXid: u32, rand: u32)
    | ServerAcks(now: Clock, request: nat, reply: Reply)

  const FRESH: World := World(POWER_ON, 0, false, 0, None, [], {0}, [], None, None)

  /** The client's part of an event. */
  function React(c: Client, e: Event): (Client, Sent) {
    match e
    case StartAt(now, rx, rj) => Start(c, now, rx, rj)
    case TickAt(now, rx, rj) => Tick(c, now, rx, rj)
    case StopNow => (Stop(c), Silence)
    case ForgetNow => (Forget(c), Silence)
    case FallBack(net) => (StaticFallback(c, net), Silence)
    case ReceiveAt(now, r, _, rx, rj) => Receive(c, now, r, rx, rj)
    case ServerAcks(_, _, _) => (c, Silence)
  }

  function TimeOf(w: World, e: Event): Clock {
    match e
    case StartAt(now, _, _) => now
    case TickAt(now, _, _) => now
    case ReceiveAt(now, _, _, _, _) => now
    case ServerAcks(now, _, _) => now
    case _ => w.clock
  }

  predicate Binds(c: Client, e: Event) {
    e.ReceiveAt? && e.reply.xid == c.xid && e.reply.opts.msgType == ACK && Awaiting(c.state)
  }

  function Step(w: World, e: Event): World {
    var now := TimeOf(w, e);
    var (c, sent) := React(w.c, e);
    var bound := Binds(w.c, e);
    World(
      c, now,
      if bound then false else w.forgotten || e.ForgetNow?,
      (if e.StartAt? || c.state != w.c.state then 0 else w.burst) + if sent.Sent? then 1 else 0,
      if sent.Sent? && sent.m.state == Discovering then Some(now)
      else if bound || e.StartAt? then None else w.lastDiscover,
      if sent.Sent? && sent.m.state != Discovering then w.requests + [Request(c.xid, now)] else w.requests,
      w.xids + {c.xid},
      if e.ServerAcks? then w.acks + [Ack(e.reply, now)] else w.acks,
      if bound then Some(Ack(e.reply, e.acked)) else w.grant,
      if bound then Some(Ack(e.reply, e.acked))
      else if e.FallBack? || c.stackIp != w.c.stackIp then None else w.stackFrom)
  }

  /** Time does not run backwards. */
  predicate Timely(w: World, e: Event) {
    TimeOf(w, e) >= w.clock
  }

  predicate TimelyRun(w: World, es: seq<Event>)
    decreases |es|
  {
    es == [] || (Timely(w, es[0]) && TimelyRun(Step(w, es[0]), es[1..]))
  }

  function Run(w: World, es: seq<Event>): World
    decreases |es|
  {
    if es == [] then w else Run(Step(w, es[0]), es[1..])
  }

  // ---- States and lease --------------------------------------------------

  predicate Ordered(c: Client) {
    (c.t1 == c.t2 == c.end == NEVER) || c.t1 <= c.t2 < c.end <= c.t1 + Seconds(0xFFFF_FFFF)
  }

  predicate Leasing(s: State) {
    s == Bound || s == Renewing || s == Rebinding
  }

  predicate StateInv(w: World) {
    && (w.c.leaseValid ==> w.c.state != Discovering && w.c.state != Requesting && w.c.state != Static)
    && (Leasing(w.c.state) ==> (w.c.leaseValid || w.forgotten) && w.c.stackIp == w.c.net.ip)
    && (Leasing(w.c.state) || w.c.leaseValid ==> Ordered(w.c))
    && (w.c.state == Static ==> w.c.stackIp == w.c.net.ip)
  }

  lemma ReceiveKeepsStateInv(w: World, e: Event)
    requires StateInv(w) && e.ReceiveAt?
    ensures StateInv(Step(w, e))
  {
    if Binds(w.c, e) {
      DeadlinesInOrder(w.c.exchangeStart, e.reply.opts);
      hide DeadlinesOf;
    }
  }

  lemma LeasingTickKeepsStateInv(w: World, e: Event)
    requires StateInv(w) && e.TickAt? && Leasing(w.c.state) && (w.c.leaseValid ==> e.now < w.c.end)
    ensures StateInv(Step(w, e))
  {
    hide RetryAt, Jittered, NextBackoff, TickRequest;
  }

  lemma TickKeepsStateInv(w: World, e: Event)
    requires StateInv(w) && e.TickAt?
    ensures StateInv(Step(w, e))
  {
    hide RetryAt, Jittered, NextBackoff;
    if Leasing(w.c.state) && (w.c.leaseValid ==> e.now < w.c.end) {
      LeasingTickKeepsStateInv(w, e);
      hide StateInv, Step;
    }
  }

  lemma StepKeepsStateInv(w: World, e: Event)
    requires StateInv(w)
    ensures StateInv(Step(w, e))
  {
    if e.ReceiveAt? {
      ReceiveKeepsStateInv(w, e);
    } else if e.TickAt? {
      TickKeepsStateInv(w, e);
    }
  }

  /** Over every run: a held lease means the client is not discovering, requesting or
      static; and being bound, renewing or rebinding means a held lease, unless forget was
      called since the bind, and a stack that uses the leased address. */
  lemma {:induction false} EveryRunKeepsStates(w: World, es: seq<Event>)
    requires StateInv(w)
    ensures StateInv(Run(w, es))
    decreases |es|
  {
    if es != [] {
      StepKeepsStateInv(w, es[0]);
      EveryRunKeepsStates(Step(w, es[0]), es[1..]);
    }
  }

  /** No tick leaves an expired lease: it ends in a lease with time left, or in none. Its
      address leaves the stack exactly if the client was leasing or rebooting; that of a
      stopped client stays there. */
  lemma TickEndsExpiredLease(c: Client, now: Clock, randXid: u32, rand: u32)
    ensures var c' := Tick(c, now, randXid, rand).0;
            && (c'.leaseValid ==> now < c'.end == c.end)
            && (c.leaseValid && now >= c.end ==>
                  && !c'.leaseValid && c'.net.ip == 0 && !Leasing(c'.state) && c'.state != Rebooting
                  && (Leasing(c.state) || c.state == Rebooting ==> c'.state == Discovering)
                  && c'.stackIp == if Leasing(c.state) || c.state == Rebooting then 0 else c.stackIp)
  {
  }

  /** Over every run a message names an address of our own (ciaddr) only while renewing or
      rebinding, and then the one the stack uses; it asks for an address by option only while
      requesting or rebooting, and names the server only to take up its offer. */
  lemma MessagesNameTheAddressInUse(es: seq<Event>, e: Event)
    ensures var (c, sent) := React(Run(FRESH, es).c, e);
            sent.Sent? ==>
              && (sent.m.ciaddr != 0 ==> HasAddress(c.state) && sent.m.ciaddr == c.stackIp && sent.m.requested == 0)
              && (sent.m.requested != 0 ==> c.state in {Requesting, Rebooting} && sent.m.requested == c.net.ip)
              && (sent.m.serverId != 0 ==> c.state == Requesting)
              && (sent.m.destMac != BROADCAST_MAC ==> c.state == Renewing && sent.m.destIp == c.serverIp)
              && sent.m.state == c.state && IsTable5(c, sent.m)
  {
    MessageIsTable5(Run(FRESH, es).c, e);
    EveryRunKeepsStates(FRESH, es);
    MessageIsTrue(Run(FRESH, es), e);
    RequestIsTrue(Run(FRESH, es).c, e);
    hide Run, React;
  }

  lemma TransmitSends()
    ensures forall c, now, rand :: Transmit(c, now, rand).1 == Sent(MessageFor(Transmit(c, now, rand).0))
  {
    hide Jittered, NextBackoff, RetryAt;
  }

  /** Whatever is sent is the message for the state it is sent in. */
  lemma SentIsMessageFor(c: Client, e: Event)
    ensures var (c', sent) := React(c, e); sent.Sent? ==> sent == Sent(MessageFor(c'))
  {
    TransmitSends();
    hide Transmit, MessageFor, EnterInit, DropLease, NewXid, DeadlinesOf;
  }

  /** Every message has the fields its state's row of table 5 asks for. */
  lemma MessageIsTable5(c: Client, e: Event)
    ensures var (c', sent) := React(c, e); sent.Sent? ==> sent.m.state == c'.state && IsTable5(c', sent.m)
  {
    SentIsMessageFor(c, e);
    hide React;
  }

  lemma MessageIsTrue(w: World, e: Event)
    requires StateInv(w)
    ensures var (c, sent) := React(w.c, e);
            sent.Sent? ==>
              sent.m.ciaddr != 0 ==> HasAddress(c.state) && sent.m.ciaddr == c.stackIp && sent.m.requested == 0
  {
    SentIsMessageFor(w.c, e);
    StepKeepsStateInv(w, e);
    hide React;
  }

  lemma RequestIsTrue(c: Client, e: Event)
    ensures var (c', sent) := React(c, e);
            sent.Sent? ==>
              && (sent.m.requested != 0 ==> c'.state in {Requesting, Rebooting} && sent.m.requested == c'.net.ip)
              && (sent.m.serverId != 0 ==> c'.state == Requesting)
              && (sent.m.destMac != BROADCAST_MAC ==> c'.state == Renewing && sent.m.destIp == c'.serverIp)
  {
    SentIsMessageFor(c, e);
    hide React;
  }

  // ---- Pace --------------------------------------------------------------

  predicate PaceInv(w: World) {
    && (w.c.state == Requesting || w.c.state == Rebooting ==> 1 <= w.burst == w.c.tries <= MAX_TRIES)
    && (w.c.state == Renewing ==>
          1 <= w.burst && w.burst + Ahead(w.c.t2, w.c.nextTx) <= Budget(w.c.t2 - w.c.t1))
    && (w.c.state == Rebinding && w.c.leaseValid ==>
          1 <= w.burst && w.burst + Ahead(w.c.end, w.c.nextTx) <= Budget(w.c.end - w.c.t2))
    && (w.lastDiscover.Some? ==>
          && w.lastDiscover.value <= w.clock && !w.c.leaseValid
          && !Leasing(w.c.state) && w.c.state != Rebooting
          && (w.c.state == Discovering || w.c.state == Requesting ==>
                w.c.nextTx >= w.lastDiscover.value + Seconds(3)))
  }

  /** A send while renewing or rebinding, at or after it was due. */
  lemma SendWithinBudget(now: Clock, next: u64, deadline: u64)
    requires next <= now < deadline
    ensures 1 + Ahead(deadline, RetryAt(now, deadline)) <= Ahead(deadline, next)
  {
    RetryUsesBudget(now, deadline);
    BudgetGrows(deadline - now, deadline - next);
  }

  lemma FirstSendWithinBudget(now: Clock, start: u64, deadline: u64)
    requires start <= now
    ensures 1 + Ahead(deadline, RetryAt(now, deadline)) <= Budget(deadline - start)
  {
    RetryUsesBudget(now, deadline);
    BudgetGrows(deadline - now, deadline - start);
  }

  lemma ExpiryKeepsPace(w: World, e: Event)
    requires StateInv(w) && PaceInv(w) && Timely(w, e) && e.TickAt? && w.c.leaseValid && e.now >= w.c.end
    ensures PaceInv(Step(w, e))
  {
    hide Ahead, Budget, RetryAt, Jittered, NextBackoff;
  }

  lemma RequestTickKeepsPace(w: World, e: Event)
    requires StateInv(w) && PaceInv(w) && Timely(w, e) && e.TickAt? && (w.c.leaseValid ==> e.now < w.c.end)
    requires !Leasing(w.c.state)
    ensures PaceInv(Step(w, e))
  {
    hide Ahead, Budget, RetryAt, Jittered, NextBackoff;
  }

  lemma BoundTickKeepsPace(w: World, e: Event)
    requires StateInv(w) && PaceInv(w) && Timely(w, e) && e.TickAt? && (w.c.leaseValid ==> e.now < w.c.end)
    requires w.c.state == Bound
    ensures PaceInv(Step(w, e))
  {
    if e.now >= w.c.t1 {
      FirstSendWithinBudget(e.now, w.c.t1, w.c.t2);
    }
    hide Ahead, Budget, RetryAt, Jittered, NextBackoff;
  }

  lemma RenewTickKeepsPace(w: World, e: Event)
    requires StateInv(w) && PaceInv(w) && Timely(w, e) && e.TickAt? && (w.c.leaseValid ==> e.now < w.c.end)
    requires w.c.state == Renewing
    ensures PaceInv(Step(w, e))
  {
    if e.now >= w.c.t2 {
      FirstSendWithinBudget(e.now, w.c.t2, w.c.end);
    } else if e.now >= w.c.nextTx {
      SendWithinBudget(e.now, w.c.nextTx, w.c.t2);
    }
    hide Ahead, Budget, RetryAt, Jittered, NextBackoff, DropLease, EnterInit, TickRequest, StartRequest;
  }

  lemma RebindTickKeepsPace(w: World, e: Event)
    requires StateInv(w) && PaceInv(w) && Timely(w, e) && e.TickAt? && (w.c.leaseValid ==> e.now < w.c.end)
    requires w.c.state == Rebinding
    ensures PaceInv(Step(w, e))
  {
    if e.now >= w.c.nextTx && w.c.leaseValid {
      SendWithinBudget(e.now, w.c.nextTx, w.c.end);
    }
    hide Ahead, Budget, RetryAt, Jittered, NextBackoff;
  }

  lemma TickKeepsPace(w: World, e: Event)
    requires StateInv(w) && PaceInv(w) && Timely(w, e) && e.TickAt?
    ensures PaceInv(Step(w, e))
  {
    hide PaceInv, Step;
    if w.c.leaseValid && e.now >= w.c.end {
      ExpiryKeepsPace(w, e);
    } else if w.c.state == Bound {
      BoundTickKeepsPace(w, e);
    } else if w.c.state == Renewing {
      RenewTickKeepsPace(w, e);
    } else if w.c.state == Rebinding {
      RebindTickKeepsPace(w, e);
    } else {
      RequestTickKeepsPace(w, e);
    }
  }

  lemma ReceiveKeepsPace(w: World, e: Event)
    requires StateInv(w) && PaceInv(w) && Timely(w, e) && e.ReceiveAt?
    ensures PaceInv(Step(w, e))
  {
    hide Ahead, Budget, RetryAt, DeadlinesOf, NextBackoff;
  }

  lemma StepKeepsPace(w: World, e: Event)
    requires StateInv(w) && PaceInv(w) && Timely(w, e)
    ensures PaceInv(Step(w, e))
  {
    if e.TickAt? {
      TickKeepsPace(w, e);
    } else if e.ReceiveAt? {
      ReceiveKeepsPace(w, e);
    } else {
      hide Ahead, Budget, RetryAt, DeadlinesOf, Tick, Jittered, NextBackoff;
    }
  }

  lemma {:induction false} EveryRunKeepsPace(w: World, es: seq<Event>)
    requires StateInv(w) && PaceInv(w) && TimelyRun(w, es)
    ensures StateInv(Run(w, es)) && PaceInv(Run(w, es))
    decreases |es|
  {
    if es != [] {
      StepKeepsStateInv(w, es[0]);
      StepKeepsPace(w, es[0]);
      EveryRunKeepsPace(Step(w, es[0]), es[1..]);
    }
  }

  lemma PaceBounds(w: World, k: nat)
    requires StateInv(w) && PaceInv(w)
    ensures w.c.state == Requesting || w.c.state == Rebooting ==> w.burst <= 3
    ensures w.c.state == Renewing ==>
              w.burst <= 28 && (w.c.t2 - w.c.t1 <= Minutes(Pow2(k)) ==> w.burst <= k + 1)
    ensures w.c.state == Rebinding && w.c.leaseValid ==>
              w.burst <= 28 && (w.c.end - w.c.t2 <= Minutes(Pow2(k)) ==> w.burst <= k + 1)
  {
    if w.c.state == Renewing || (w.c.state == Rebinding && w.c.leaseValid) {
      var left := if w.c.state == Renewing then w.c.t2 - w.c.t1 else w.c.end - w.c.t2;
      assert w.burst <= Budget(left);
      hide Budget, Ahead, Pow2;
      LeaseBudget(left);
      if left <= Minutes(Pow2(k)) {
        BudgetIsLogarithmic(left, k);
      }
    }
  }

  /** However long the run: at most three sends for an address; while renewing at most
      k + 1 where T2 - T1 is at most 2^k minutes, and likewise rebinding to the expiry of a
      held lease; so never more than 28 for any lease a server can give. */
  lemma SendsAreBounded(es: seq<Event>, k: nat)
    requires TimelyRun(FRESH, es)
    ensures var w := Run(FRESH, es);
            && (w.c.state == Requesting || w.c.state == Rebooting ==> w.burst <= 3)
            && (w.c.state == Renewing ==>
                  w.burst <= 28 && (w.c.t2 - w.c.t1 <= Minutes(Pow2(k)) ==> w.burst <= k + 1))
            && (w.c.state == Rebinding && w.c.leaseValid ==>
                  w.burst <= 28 && (w.c.end - w.c.t2 <= Minutes(Pow2(k)) ==> w.burst <= k + 1))
  {
    EveryRunKeepsPace(FRESH, es);
    PaceBounds(Run(FRESH, es), k);
    hide Run, TimelyRun, PaceInv, StateInv, Pow2;
  }

  /** Unless the client is started again or was bound in between, a DISCOVER comes at least
      3 s after the previous one, even if every REQUEST is refused. */
  lemma DiscoversAreSpaced(es: seq<Event>, e: Event)
    requires TimelyRun(FRESH, es) && Timely(Run(FRESH, es), e) && !e.StartAt?
    ensures var w := Run(FRESH, es);
            var sent := React(w.c, e).1;
            sent.Sent? && sent.m.state == Discovering && w.lastDiscover.Some? ==>
              TimeOf(w, e) >= w.lastDiscover.value + Seconds(3)
  {
    EveryRunKeepsPace(FRESH, es);
  }

  // ---- Delays double -----------------------------------------------------

  function FruitlessAfter(c: Client, e: Event, n: nat): nat {
    var (c', sent) := React(c, e);
    var so := if e.StartAt? || Binds(c, e) then 0 else n;
    if sent.Sent? && sent.m.state == Discovering then so + 1
    else if e.ReceiveAt? && Awaiting(c.state) && c'.state == Discovering then so + 1
    else so
  }

  /** The DISCOVERs sent and refusals taken since the last start or bind, n of them before es. */
  function Fruitless(w: World, es: seq<Event>, n: nat): nat
    decreases |es|
  {
    if es == [] then n
    else
      Fruitless(Step(w, es[0]), es[1..], FruitlessAfter(w.c, es[0], n))
  }

  lemma TransmitDoubles()
    ensures forall c, now, rand :: var (c', sent) := Transmit(c, now, rand);
              && sent.Sent? && sent.m.state == c.state == c'.state && c'.tries == Add32(c.tries, 1)
              && c'.discoverBackoff ==
                 (if c.state == Discovering then NextBackoff(c.discoverBackoff) else c.discoverBackoff)
              && c'.requestBackoff ==
                 if c.state in {Requesting, Rebooting} then NextBackoff(c.requestBackoff) else c.requestBackoff
  {
    hide Jittered, RetryAt, NextBackoff;
  }

  lemma StepDoubles(w: World, e: Event, n: nat)
    requires w.c.discoverBackoff == Doubled(n)
    ensures Step(w, e).c.discoverBackoff == Doubled(Fruitless(w, [e], n))
  {
    StepIsReact(w, e);
    FruitlessOnce(w, e, n);
    hide Step, Fruitless, React;
    BackoffDoubles(w.c, e, n);
  }

  lemma FruitlessOnce(w: World, e: Event, n: nat)
    ensures Fruitless(w, [e], n) == FruitlessAfter(w.c, e, n)
  {
    assert [e][1..] == [];
    hide React, Step;
  }

  lemma BackoffDoubles(c: Client, e: Event, n: nat)
    requires c.discoverBackoff == Doubled(n)
    ensures React(c, e).0.discoverBackoff == Doubled(FruitlessAfter(c, e, n))
  {
    NextBackoffDoubles(n);
    NextBackoffDoubles(0);
    TransmitDoubles();
    assert Doubled(0) == INITIAL;
    hide Transmit, Jittered, DeadlinesOf, NextBackoff, Doubled;
  }

  /** Over every run the delay before the next DISCOVER is four seconds doubled once for each
      DISCOVER and each refusal since the last start or bind, up to 64 s. */
  lemma {:induction false} DiscoverDelaysDouble(w: World, es: seq<Event>, n: nat)
    requires w.c.discoverBackoff == Doubled(n)
    ensures Run(w, es).c.discoverBackoff == Doubled(Fruitless(w, es, n))
    decreases |es|
  {
    if es != [] {
      StepDoubles(w, es[0], n);
      FruitlessOnce(w, es[0], n);
      hide Step, Doubled, FruitlessAfter;
      DiscoverDelaysDouble(Step(w, es[0]), es[1..], FruitlessAfter(w.c, es[0], n));
    }
  }

  /** And the one before the next REQUEST for an address is doubled once for each REQUEST. */
  lemma {:induction false} RequestDelaysDouble(es: seq<Event>)
    ensures var c := Run(FRESH, es).c;
            c.state in {Requesting, Rebooting} ==> c.tries <= MAX_TRIES && c.requestBackoff == Doubled(c.tries)
    decreases |es|
  {
    if es != [] {
      var n := |es| - 1;
      assert es == es[..n] + [es[n]];
      RunThen(FRESH, es[..n], es[n]);
      RequestDelaysDouble(es[..n]);
      RequestDoubles(Run(FRESH, es[..n]).c, es[n]);
    }
    hide Run, React;
  }

  predicate RequestDelayIs(c: Client) {
    c.state == Requesting || c.state == Rebooting ==> c.tries <= MAX_TRIES && c.requestBackoff == Doubled(c.tries)
  }

  lemma StartRequestDoubles(c: Client, now: Clock, state: State, rand: u32)
    ensures RequestDelayIs(StartRequest(c, now, state, rand).0)
  {
    NextBackoffDoubles(0);
    assert Doubled(0) == INITIAL;
    TransmitDoubles();
    hide Transmit, NextBackoff, Doubled;
  }

  lemma TickRequestDoubles(c: Client, now: Clock, randXid: u32, rand: u32)
    requires RequestDelayIs(c) && (c.state == Requesting || c.state == Rebooting)
    ensures RequestDelayIs(TickRequest(c, now, randXid, rand).0)
  {
    NextBackoffDoubles(c.tries);
    TransmitDoubles();
    hide Transmit, NextBackoff, Doubled;
  }

  lemma RequestDoubles(c: Client, e: Event)
    requires RequestDelayIs(c)
    ensures RequestDelayIs(React(c, e).0)
  {
    TransmitDoubles();
    hide Transmit, TickRequest, StartRequest, Doubled, Jittered, DeadlinesOf;
    match e {
      case StartAt(now, rx, rj) =>
        StartRequestDoubles(NewXid(c.(discoverBackoff := INITIAL), rx), now, Rebooting, rj);
      case TickAt(now, rx, rj) =>
        var c1 := Expire(c, now, rx);
        if c1.state == Requesting || c1.state == Rebooting {
          TickRequestDoubles(c1, now, rx, rj);
        } else if c1.state == Bound {
          StartRequestDoubles(NewXid(c1, rx), now, Renewing, rj);
        }
      case ReceiveAt(now, r, _, rx, rj) =>
        var o := r.opts;
        StartRequestDoubles(
          c.(net := Net(r.yiaddr, o.mask, o.router, o.dns), serverIp := o.serverId), now, Requesting, rj);
      case _ =>
    }
  }

  // ---- Messages go out in time -------------------------------------------

  /** The client stays in its state, sends nothing and is not made to forget its lease. */
  predicate Rests(w: World, es: seq<Event>)
    decreases |es|
  {
    es == []
    || (var (c, sent) := React(w.c, es[0]);
        && c.state == w.c.state && sent == Silence && !(es[0].ForgetNow? && w.c.leaseValid)
        && Rests(Step(w, es[0]), es[1..]))
  }

  /** Nothing happens later than d after the last tick before it, the first one counting from last. */
  predicate TicksWithin(w: World, es: seq<Event>, last: int, d: nat)
    decreases |es|
  {
    es == []
    || (TimeOf(w, es[0]) <= last + d
        && TicksWithin(Step(w, es[0]), es[1..], if es[0].TickAt? then es[0].now else last, d))
  }

  lemma RestingStaysTheSame(c: Client, e: Event)
    requires c.state != Idle && c.state != Static
    requires var (c', sent) := React(c, e); c'.state == c.state && sent == Silence && !(e.ForgetNow? && c.leaseValid)
    ensures React(c, e).0 == c && (e.TickAt? ==> e.now < DueAt(c).value)
  {
    if e.TickAt? {
      TickSendsWhenDue(c, e.now, e.randXid, e.rand);
      hide Tick;
    }
    hide Transmit, NewXid, DeadlinesOf;
  }

  /** Whatever it waits for: with ticks at most d apart, a running client that stays in its state
      and silent has not gone d past the time its next message was due. */
  lemma {:induction false} DueIsSentInTime(w: World, es: seq<Event>, last: int, d: nat)
    requires Rests(w, es) && TicksWithin(w, es, last, d) && w.c.state != Idle && w.c.state != Static
    requires last < DueAt(w.c).value && w.clock <= last + d
    ensures Run(w, es).clock < DueAt(w.c).value + d
    decreases |es|
  {
    if es != [] {
      RestingStaysTheSame(w.c, es[0]);
      StepIsReact(w, es[0]);
      hide React, DueAt, Step;
      DueIsSentInTime(Step(w, es[0]), es[1..], if es[0].TickAt? then es[0].now else last, d);
    }
  }

  lemma StepIsReact(w: World, e: Event)
    ensures Step(w, e).c == React(w.c, e).0 && Step(w, e).clock == TimeOf(w, e)
  {
    hide React;
  }

  /** A DISCOVER that nobody answers is followed by the next one at most 65 s and the distance
      of two ticks later. */
  lemma DiscoversGoOn(w: World, e: Event, es: seq<Event>, d: nat)
    requires StateInv(w) && var sent := React(w.c, e).1; sent.Sent? && sent.m.state == Discovering
    requires Rests(Step(w, e), es) && TicksWithin(Step(w, e), es, TimeOf(w, e), d)
    ensures Run(Step(w, e), es).clock < TimeOf(w, e) + Seconds(65) + d
  {
    StepKeepsStateInv(w, e);
    DiscoverSchedulesNext(w, e);
    StepIsReact(w, e);
    hide Step, React, Run;
    DueIsSentInTime(Step(w, e), es, TimeOf(w, e), d);
  }

  lemma DiscoverSchedulesNext(w: World, e: Event)
    requires var sent := React(w.c, e).1; sent.Sent? && sent.m.state == Discovering
    ensures var c := React(w.c, e).0;
            c.state == Discovering && TimeOf(w, e) + Seconds(3) <= c.nextTx <= TimeOf(w, e) + Seconds(65)
  {
    SentIsMessageFor(w.c, e);
    hide RetryAt, NextBackoff, DeadlinesOf;
  }

  lemma {:induction false} RunThen(w: World, es: seq<Event>, e: Event)
    ensures Run(w, es + [e]) == Step(Run(w, es), e)
    ensures TimelyRun(w, es) && Timely(Run(w, es), e) ==> TimelyRun(w, es + [e])
    ensures HonestRun(w, es) && Timely(Run(w, es), e) && Honest(Run(w, es), e) ==> HonestRun(w, es + [e])
    decreases |es|
  {
    hide Step;
    if es == [] {
      assert Run(Step(w, e), []) == Step(w, e);
      assert (es + [e])[1..] == [];
    } else {
      RunThen(Step(w, es[0]), es[1..], e);
      assert (es + [e])[1..] == es[1..] + [e];
    }
  }

  /** An ACK of a lease of a minute. */
  const GRANT: Reply := Reply(1, 1, [], Options(ACK, 1, 0, 0, 0, 60, 0, 0))

  predicate OffTo(w: World, state: State, t: nat) {
    && w.c.state == state && w.clock == t && w.c.leaseValid
    && w.c.t1 == 30_000_000 && w.c.t2 == 52_000_000 && w.c.end == 60_000_000
  }

  lemma BoundForAMinute() returns (es: seq<Event>)
    ensures HonestRun(FRESH, es) && TimelyRun(FRESH, es)
    ensures var w := Run(FRESH, es);
            && OffTo(w, Bound, 0) && w.c.stackIp == 1 && w.stackFrom == Some(Ack(GRANT, 0))
            && w.xids == {0, 1} && w.c.xid in w.xids
  {
    var offer := ReceiveAt(0, GRANT.(opts := GRANT.opts.(msgType := OFFER)), 0, 0, 0);
    var acks := ServerAcks(0, 0, GRANT);
    var ack := ReceiveAt(0, GRANT, 0, 0, 0);
    var w := Step(FRESH, StartAt(0, 1, 0));
    assert w.c.state == Discovering && w.c.xid == 1 && w.clock == 0 && w.xids == {0, 1} && w.requests == [];
    assert Honest(FRESH, StartAt(0, 1, 0)) && Honest(w, offer);
    var w2 := Step(w, offer);
    assert w2.c.state == Requesting && w2.c.xid == 1 && w2.c.exchangeStart == 0 && w2.clock == 0;
    assert w2.requests == [Request(1, 0)] && w2.xids == {0, 1};
    assert Honest(w2, acks);
    var w3 := Step(w2, acks);
    assert w3.c == w2.c && w3.acks == [Ack(GRANT, 0)] && w3.xids == {0, 1} && w3.clock == 0;
    assert Honest(w3, ack);
    AckBindsForAMinute(w3);
    hide Step, Honest;
    RunThen(FRESH, [], StartAt(0, 1, 0));
    RunThen(FRESH, [] + [StartAt(0, 1, 0)], offer);
    RunThen(FRESH, [] + [StartAt(0, 1, 0)] + [offer], acks);
    RunThen(FRESH, [] + [StartAt(0, 1, 0)] + [offer] + [acks], ack);
    es := [] + [StartAt(0, 1, 0)] + [offer] + [acks] + [ack];
  }

  lemma AckBindsForAMinute(w: World)
    requires w.c.state == Requesting && w.c.xid == 1 && w.c.exchangeStart == 0 && w.clock == 0 && w.xids == {0, 1}
    ensures var w' := Step(w, ReceiveAt(0, GRANT, 0, 0, 0));
            && OffTo(w', Bound, 0) && w'.c.stackIp == 1 && w'.stackFrom == Some(Ack(GRANT, 0))
            && w'.xids == {0, 1} && w'.c.xid in w'.xids
  {
  }

  lemma RenewsAtT1(w: World)
    requires OffTo(w, Bound, 0)
    ensures OffTo(Step(w, TickAt(30_000_000, 2, 0)), Renewing, 30_000_000)
  {
  }

  lemma RebindsAtT2(w: World)
    requires OffTo(w, Renewing, 30_000_000)
    ensures var w' := Step(w, TickAt(52_000_000, 3, 0));
            OffTo(w', Rebinding, 52_000_000) && w'.burst == 1 && w'.c.nextTx == 112_000_000
  {
  }

  predicate RebindingOnAndOn(w: World, n: nat) {
    && w.c.state == Rebinding && !w.c.leaseValid && w.forgotten && w.burst == n + 1
    && w.c.end == 60_000_000 && w.clock == 52_000_000 + Minutes(n) && w.c.nextTx == w.clock + MIN_RETRY
  }

  lemma ForgottenWhileRebinding() returns (es: seq<Event>)
    ensures TimelyRun(FRESH, es) && RebindingOnAndOn(Run(FRESH, es), 0)
  {
    es := BoundForAMinute();
    var w := Run(FRESH, es);
    RenewsAtT1(w);
    var w1 := Step(w, TickAt(30_000_000, 2, 0));
    RebindsAtT2(w1);
    var w2 := Step(w1, TickAt(52_000_000, 3, 0));
    assert OffTo(w2, Rebinding, 52_000_000) ==> RebindingOnAndOn(Step(w2, ForgetNow), 0);
    hide Step, RebindingOnAndOn, Run;
    RunThen(FRESH, es, TickAt(30_000_000, 2, 0));
    es := es + [TickAt(30_000_000, 2, 0)];
    RunThen(FRESH, es, TickAt(52_000_000, 3, 0));
    es := es + [TickAt(52_000_000, 3, 0)];
    RunThen(FRESH, es, ForgetNow);
    es := es + [ForgetNow];
  }

  lemma ForgottenRebindingSendsAgain(w: World, n: nat)
    requires RebindingOnAndOn(w, n) && 52_000_000 + Minutes(n + 1) < 0x8000_0000_0000_0000
    ensures RebindingOnAndOn(Step(w, TickAt(w.clock + MIN_RETRY, 0, 0)), n + 1)
  {
  }

  /** Without the held lease that SendsAreBounded asks for there is no bound: for every
      number that the clock's range can hold, a run in which a client that is rebinding, its
      lease forgotten, has sent more often, once a minute. */
  lemma {:induction false} ForgottenRebindingGoesOn(n: nat) returns (es: seq<Event>)
    requires 52_000_000 + Minutes(n) < 0x8000_0000_0000_0000
    ensures TimelyRun(FRESH, es)
    ensures var w := Run(FRESH, es);
            w.c.state == Rebinding && w.forgotten && w.burst > n && RebindingOnAndOn(w, n)
  {
    if n == 0 {
      es := ForgottenWhileRebinding();
    } else {
      hide Step;
      var before := ForgottenRebindingGoesOn(n - 1);
      var w := Run(FRESH, before);
      var e := TickAt(w.clock + MIN_RETRY, 0, 0);
      ForgottenRebindingSendsAgain(w, n - 1);
      RunThen(FRESH, before, e);
      es := before + [e];
    }
  }

  // ---- Client and server agree about the lease ---------------------------

  /** When the server may give the address to another client. A server that names no lease
      time is taken to grant the hour the client counts with. */
  function ServerExpiry(a: Ack): int {
    if LeaseOf(a.reply.opts) == INFINITE then NEVER else a.at + Seconds(LeaseOf(a.reply.opts))
  }

  /** The server answers only REQUESTs it received, after they were sent; ACKs that arrive
      were sent by it; and a newly drawn xid was not used before. */
  predicate Honest(w: World, e: Event) {
    && (e.ServerAcks? ==>
          && e.reply.opts.msgType == ACK
          && e.request < |w.requests| && w.requests[e.request].xid == e.reply.xid)
    && (e.ReceiveAt? && e.reply.opts.msgType == ACK ==> Ack(e.reply, e.acked) in w.acks)
    && (React(w.c, e).0.xid != w.c.xid ==> React(w.c, e).0.xid !in w.xids)
  }

  ghost predicate HonestRun(w: World, es: seq<Event>)
    decreases |es|
  {
    es == [] || (Timely(w, es[0]) && Honest(w, es[0]) && HonestRun(Step(w, es[0]), es[1..]))
  }

  /** Every REQUEST is in the past and, if it carries the current xid, belongs to the
      current exchange; every ACK answers one. */
  ghost predicate TrafficInv(w: World) {
    && w.c.xid in w.xids && w.c.exchangeStart <= w.clock
    && (forall r :: r in w.requests ==> r.xid in w.xids && r.at <= w.clock)
    && (Awaiting(w.c.state) ==> forall r :: r in w.requests && r.xid == w.c.xid ==> w.c.exchangeStart <= r.at)
    && (w.c.state == Discovering ==> forall r :: r in w.requests ==> r.xid != w.c.xid)
    && (forall a :: a in w.acks ==> Answers(a, w.requests))
  }

  ghost predicate Answers(a: Ack, requests: seq<Request>) {
    exists r :: r in requests && r.xid == a.reply.xid && r.at <= a.at
  }

  ghost predicate LeaseInv(w: World) {
    w.c.leaseValid ==>
      && w.grant.Some? && w.grant.value in w.acks && w.c.net.ip == w.grant.value.reply.yiaddr
      && w.c.end <= ServerExpiry(w.grant.value)
  }

  /** What one event can do to the exchange: it goes on, or its REQUEST phase begins now;
      and only an ACK gives a lease or changes the one held. */
  ghost predicate Shape(c: Client, c': Client, sent: Sent, now: Clock, binds: bool) {
    && (sent.Sent? ==> sent.m.state == c'.state && (c'.state == Discovering || Awaiting(c'.state)))
    && (c'.exchangeStart == c.exchangeStart || c'.exchangeStart == now)
    && (c'.state == Discovering && c'.xid == c.xid ==> c.state == Discovering)
    && (Awaiting(c'.state) ==>
          || (c'.exchangeStart == now && (c'.xid != c.xid || c.state == Discovering))
          || (c'.exchangeStart == c.exchangeStart && c'.xid == c.xid && Awaiting(c.state)))
    && (c'.leaseValid ==>
          binds || (c.leaseValid && c'.end == c.end && c'.net.ip == c.net.ip) || c.state == Discovering)
  }

  lemma ExpiredTickShape(c: Client, now: Clock, randXid: u32, rand: u32)
    requires c.leaseValid && now >= c.end
    ensures var (c', sent) := Tick(c, now, randXid, rand); Shape(c, c', sent, now, false)
  {
    hide RetryAt, Jittered, NextBackoff;
  }

  lemma LiveTickShape(c: Client, now: Clock, randXid: u32, rand: u32)
    requires c.leaseValid ==> now < c.end
    ensures var (c', sent) := Tick(c, now, randXid, rand); Shape(c, c', sent, now, false)
  {
    hide RetryAt, Jittered, NextBackoff;
    if c.state == Requesting || c.state == Rebooting {
      hide Shape;
      RequestTickShape(c, now, randXid, rand);
      hide TickRequest;
    } else {
      hide TickRequest;
    }
  }

  lemma RequestTickShape(c: Client, now: Clock, randXid: u32, rand: u32)
    requires c.state == Requesting || c.state == Rebooting
    ensures var (c', sent) := TickRequest(c, now, randXid, rand); Shape(c, c', sent, now, false)
  {
    hide RetryAt, Jittered, NextBackoff;
  }

  lemma TickShape(c: Client, now: Clock, randXid: u32, rand: u32)
    ensures var (c', sent) := Tick(c, now, randXid, rand); Shape(c, c', sent, now, false)
  {
    hide Shape;
    if c.leaseValid && now >= c.end {
      ExpiredTickShape(c, now, randXid, rand);
    } else {
      LiveTickShape(c, now, randXid, rand);
    }
    hide Tick;
  }

  lemma ReceiveShape(c: Client, e: Event)
    requires e.ReceiveAt?
    ensures var (c', sent) := React(c, e); Shape(c, c', sent, e.now, Binds(c, e))
  {
    hide RetryAt, NextBackoff, DeadlinesOf;
  }

  lemma ReactShape(w: World, e: Event)
    ensures var (c', sent) := React(w.c, e); Shape(w.c, c', sent, TimeOf(w, e), Binds(w.c, e))
  {
    if e.TickAt? {
      TickShape(w.c, e.now, e.randXid, e.rand);
    } else if e.ReceiveAt? {
      ReceiveShape(w.c, e);
    }
    hide Tick, Receive;
  }

  lemma StepKeepsAcks(w: World, e: Event)
    requires TrafficInv(w) && Timely(w, e) && Honest(w, e)
    ensures forall a :: a in Step(w, e).acks ==> Answers(a, Step(w, e).requests)
  {
    hide React;
    var w' := Step(w, e);
    forall a | a in w'.acks ensures Answers(a, w'.requests) {
      var r: Request;
      if a in w.acks {
        r :| r in w.requests && r.xid == a.reply.xid && r.at <= a.at;
      } else {
        r := w.requests[e.request];
      }
      assert r in w'.requests;
    }
  }

  lemma StepKeepsTraffic(w: World, e: Event)
    requires TrafficInv(w) && Timely(w, e) && Honest(w, e)
    ensures TrafficInv(Step(w, e))
  {
    StepKeepsAcks(w, e);
    ReactShape(w, e);
    hide React;
    var w' := Step(w, e);
    forall r | r in w'.requests
      ensures r.xid in w'.xids && r.at <= w'.clock
      ensures Awaiting(w'.c.state) && r.xid == w'.c.xid ==> w'.c.exchangeStart <= r.at
      ensures w'.c.state == Discovering ==> r.xid != w'.c.xid
    {
      if r in w.requests {
      } else {
        assert r == Request(w'.c.xid, w'.clock);
      }
    }
  }

  lemma BindIsSafe(w: World, e: Event)
    requires TrafficInv(w) && Honest(w, e) && Binds(w.c, e)
    ensures LeaseInv(Step(w, e))
  {
    var a := Ack(e.reply, e.acked);
    var r :| r in w.requests && r.xid == a.reply.xid && r.at <= a.at;
    assert w.c.exchangeStart <= a.at;
  }

  lemma StepKeepsLease(w: World, e: Event)
    requires StateInv(w) && TrafficInv(w) && LeaseInv(w) && Timely(w, e) && Honest(w, e)
    ensures LeaseInv(Step(w, e))
  {
    if Binds(w.c, e) {
      BindIsSafe(w, e);
    } else {
      ReactShape(w, e);
      if w.c.state == Discovering {
        NoLeaseFromDiscovering(w.c, e);
      }
      hide React;
    }
  }

  lemma NoLeaseFromDiscovering(c: Client, e: Event)
    requires c.state == Discovering && !c.leaseValid
    ensures !React(c, e).0.leaseValid
  {
  }

  /** With an honest server and fresh xids, over every run and whatever the network does to
      the replies: a held lease is the address of an ACK the server sent, and the client
      counts it as over no later than the server does. */
  lemma {:induction false} EveryRunKeepsLeaseSafe(w: World, es: seq<Event>)
    requires StateInv(w) && TrafficInv(w) && LeaseInv(w) && HonestRun(w, es)
    ensures StateInv(Run(w, es)) && TrafficInv(Run(w, es)) && LeaseInv(Run(w, es))
    decreases |es|
  {
    if es != [] {
      StepKeepsStateInv(w, es[0]);
      StepKeepsTraffic(w, es[0]);
      StepKeepsLease(w, es[0]);
      EveryRunKeepsLeaseSafe(Step(w, es[0]), es[1..]);
    }
  }

  /** After a tick the lease held, if any, has not expired at the server; and a client that is
      bound, renewing or rebinding, and was not made to forget the lease since its bind, uses
      the address granted, before it expires there. */
  lemma NoUseAfterServerExpiry(es: seq<Event>, e: Event)
    requires HonestRun(FRESH, es) && e.TickAt?
    requires Timely(Run(FRESH, es), e) && Honest(Run(FRESH, es), e)
    ensures var w := Step(Run(FRESH, es), e);
            && (w.c.leaseValid ==>
                  w.grant.Some? && w.c.net.ip == w.grant.value.reply.yiaddr && e.now < ServerExpiry(w.grant.value))
            && (Leasing(w.c.state) && !w.forgotten ==>
                  w.c.leaseValid && w.grant.Some? && w.c.stackIp == w.grant.value.reply.yiaddr)
  {
    EveryRunKeepsLeaseSafe(FRESH, es);
    StepKeepsLease(Run(FRESH, es), e);
    StepKeepsStateInv(Run(FRESH, es), e);
    TickEndsExpiredLease(Run(FRESH, es).c, e.now, e.randXid, e.rand);
    hide Tick;
  }

  // ---- The address in the stack ------------------------------------------

  /** A held lease is that of the address in the stack, and a leased address there is that of
      its ACK. */
  predicate StackInv(w: World) {
    && (w.c.leaseValid ==> w.grant.Some? && w.stackFrom == w.grant && w.c.stackIp == w.grant.value.reply.yiaddr)
    && (w.stackFrom.Some? && w.c.stackIp != 0 ==> w.c.stackIp == w.stackFrom.value.reply.yiaddr)
  }

  /** The stack uses a leased address whose lease is no longer held. */
  predicate Adrift(w: World) {
    w.stackFrom.Some? && w.c.stackIp != 0 && !w.c.leaseValid
  }

  /** An event that ends the held lease and leaves its address in the stack: it is forgotten,
      or it has expired and the client was stopped, or is started before a tick noticed. */
  predicate SetsAdrift(w: World, e: Event) {
    && w.c.leaseValid && w.c.stackIp != 0
    && match e
       case ForgetNow => true
       case TickAt(now, _, _) => w.c.state == Idle && now >= w.c.end
       case StartAt(now, _, _) => now >= w.c.end
       case _ => false
  }

  /** An event that takes an address adrift out of the stack: a new bind, the static fallback,
      a NAK while it was in use, or an INIT-REBOOT for it given up. */
  predicate TakesOut(w: World, e: Event) {
    match e
    case FallBack(_) => true
    case ReceiveAt(_, r, _, _, _) =>
      r.xid == w.c.xid
      && if r.opts.msgType == ACK then Awaiting(w.c.state)
         else r.opts.msgType == NAK && Awaiting(w.c.state) && w.c.state != Requesting
    case TickAt(now, _, _) => w.c.state == Rebooting && now >= w.c.nextTx && w.c.tries >= MAX_TRIES
    case _ => false
  }

  lemma StackTick(w: World, e: Event)
    requires StateInv(w) && StackInv(w) && e.TickAt?
    ensures StackInv(Step(w, e)) && (Adrift(Step(w, e)) <==> SetsAdrift(w, e) || (Adrift(w) && !TakesOut(w, e)))
  {
    hide RetryAt, Jittered, NextBackoff;
  }

  lemma StackReceive(w: World, e: Event)
    requires StateInv(w) && StackInv(w) && e.ReceiveAt?
    ensures StackInv(Step(w, e)) && (Adrift(Step(w, e)) <==> SetsAdrift(w, e) || (Adrift(w) && !TakesOut(w, e)))
  {
    hide RetryAt, Jittered, NextBackoff, DeadlinesOf;
  }

  /** One event: exactly when an address is adrift after it. */
  lemma StepAndStack(w: World, e: Event)
    requires StateInv(w) && StackInv(w)
    ensures StackInv(Step(w, e)) && (Adrift(Step(w, e)) <==> SetsAdrift(w, e) || (Adrift(w) && !TakesOut(w, e)))
  {
    if e.TickAt? {
      StackTick(w, e);
    } else if e.ReceiveAt? {
      StackReceive(w, e);
    } else {
      hide Tick, Receive, RetryAt, Jittered, NextBackoff;
    }
  }

  /** Whether an address is adrift after these events, told by the guards of single events. */
  predicate AdriftAfter(w: World, es: seq<Event>, adrift: bool)
    decreases |es|
  {
    if es == [] then adrift
    else AdriftAfter(Step(w, es[0]), es[1..], SetsAdrift(w, es[0]) || (adrift && !TakesOut(w, es[0])))
  }

  /** Over every run: an address is adrift at the end exactly if some event set it adrift and
      none since took it out. */
  lemma {:induction false} RunAndStack(w: World, es: seq<Event>)
    requires StateInv(w) && StackInv(w)
    ensures StackInv(Run(w, es)) && (Adrift(Run(w, es)) <==> AdriftAfter(w, es, Adrift(w)))
    decreases |es|
  {
    if es != [] {
      StepKeepsStateInv(w, es[0]);
      StepAndStack(w, es[0]);
      RunAndStack(Step(w, es[0]), es[1..]);
    }
    hide Step, StateInv, StackInv, Adrift, SetsAdrift, TakesOut;
  }

  /** The server has ended the lease whose address the stack got last. */
  predicate LeaseOver(w: World) {
    w.stackFrom.Some? && w.clock >= ServerExpiry(w.stackFrom.value)
  }

  /** The stack uses a leased address that the server may have given to another client. */
  predicate PastExpiry(w: World) {
    w.c.stackIp != 0 && LeaseOver(w)
  }

  /** After a tick of an honest run the stack uses an address past its expiry at the server if
      and only if that time has come and the address is adrift: its lease was forgotten, or
      ran out while the client was stopped or before it was started again. */
  lemma StackPastExpiryIff(es: seq<Event>, e: Event)
    requires HonestRun(FRESH, es) && e.TickAt?
    requires Timely(Run(FRESH, es), e) && Honest(Run(FRESH, es), e)
    ensures var w := Run(FRESH, es + [e]);
            PastExpiry(w) <==> AdriftAfter(FRESH, es + [e], false) && LeaseOver(w)
  {
    RunThen(FRESH, es, e);
    RunAndStack(FRESH, es + [e]);
    NoUseAfterServerExpiry(es, e);
    ClockOfTick(Run(FRESH, es), e);
    hide Step, Run, AdriftAfter, HonestRun, ServerExpiry;
  }

  lemma ClockOfTick(w: World, e: Event)
    requires e.TickAt?
    ensures Step(w, e).clock == e.now
  {
    hide Tick;
  }

  /** One way: the link goes down, the lease runs out, and the client, back up, discovers with
      the old address still in the stack. */
  lemma StoppedAddressStays() returns (es: seq<Event>)
    ensures HonestRun(FRESH, es)
    ensures var w := Run(FRESH, es); w.c.state == Discovering && w.c.stackIp == 1 && PastExpiry(w)
  {
    es := BoundForAMinute();
    var w := Run(FRESH, es);
    StoppedThenExpired(w);
    hide *;
    RunThen(FRESH, es, StopNow);
    RunThen(FRESH, es + [StopNow], TickAt(70_000_000, 2, 0));
    RunThen(FRESH, es + [StopNow] + [TickAt(70_000_000, 2, 0)], StartAt(70_000_000, 3, 0));
    es := es + [StopNow] + [TickAt(70_000_000, 2, 0)] + [StartAt(70_000_000, 3, 0)];
  }

  lemma StoppedThenExpired(w: World)
    requires OffTo(w, Bound, 0) && w.c.stackIp == 1 && w.stackFrom == Some(Ack(GRANT, 0)) && w.xids == {0, 1}
    requires w.c.xid in w.xids
    ensures var w1 := Step(w, StopNow);
            var w2 := Step(w1, TickAt(70_000_000, 2, 0));
            var w3 := Step(w2, StartAt(70_000_000, 3, 0));
            && Timely(w, StopNow) && Honest(w, StopNow)
            && Timely(w1, TickAt(70_000_000, 2, 0)) && Honest(w1, TickAt(70_000_000, 2, 0))
            && Timely(w2, StartAt(70_000_000, 3, 0)) && Honest(w2, StartAt(70_000_000, 3, 0))
            && w3.c.state == Discovering && w3.c.stackIp == 1 && PastExpiry(w3)
  {
    var w1 := Step(w, StopNow);
    assert w1.c == w.c.(state := Idle) && w1.xids == {0, 1} && w1.stackFrom == w.stackFrom && w1.clock == 0;
    var w2 := Step(w1, TickAt(70_000_000, 2, 0));
    assert w2.c.xid == w.c.xid && w2.c.state == Idle && !w2.c.leaseValid && w2.c.stackIp == 1 && w2.xids == {0, 1};
    assert w2.stackFrom == w.stackFrom && w2.clock == 70_000_000;
  }

  /** The other: the lease is forgotten, and the client renews on past the expiry. */
  lemma ForgottenAddressStays() returns (es: seq<Event>)
    ensures HonestRun(FRESH, es)
    ensures var w := Run(FRESH, es); w.c.state == Renewing && w.c.stackIp == 1 && PastExpiry(w)
  {
    es := BoundForAMinute();
    var w := Run(FRESH, es);
    ForgottenThenTicked(w);
    hide *;
    RunThen(FRESH, es, ForgetNow);
    RunThen(FRESH, es + [ForgetNow], TickAt(70_000_000, 2, 0));
    es := es + [ForgetNow] + [TickAt(70_000_000, 2, 0)];
  }

  lemma ForgottenThenTicked(w: World)
    requires OffTo(w, Bound, 0) && w.c.stackIp == 1 && w.stackFrom == Some(Ack(GRANT, 0)) && w.xids == {0, 1}
    requires w.c.xid in w.xids
    ensures var w1 := Step(w, ForgetNow);
            var w2 := Step(w1, TickAt(70_000_000, 2, 0));
            && Timely(w, ForgetNow) && Honest(w, ForgetNow)
            && Timely(w1, TickAt(70_000_000, 2, 0)) && Honest(w1, TickAt(70_000_000, 2, 0))
            && w2.c.state == Renewing && w2.c.stackIp == 1 && PastExpiry(w2)
  {
    var w1 := Step(w, ForgetNow);
    assert w1.c == w.c.(leaseValid := false) && w1.xids == {0, 1} && w1.stackFrom == w.stackFrom && w1.clock == 0;
  }

  // ---- One event and the whole run ---------------------------------------

  /** The traffic so far is honest, and the lease held is safe. */
  ghost predicate Safe(w: World) {
    TrafficInv(w) && LeaseInv(w)
  }

  /** The history after an event: safe if it was and the event is honest, and with an address
      adrift in the stack exactly if the event left one there. */
  ghost predicate KeepsPast(w: World, e: Event, w': World) {
    && w' == Step(w, e) && (Safe(w) && Honest(w, e) ==> Safe(w'))
    && (Adrift(w') <==> SetsAdrift(w, e) || (Adrift(w) && !TakesOut(w, e)))
  }

  lemma StepIsKept(w: World, e: Event)
    requires StateInv(w) && PaceInv(w) && StackInv(w) && Timely(w, e)
    ensures var w' := Step(w, e);
            && StateInv(w') && PaceInv(w') && StackInv(w') && KeepsPast(w, e, w') && w'.c == React(w.c, e).0
            && w'.clock == TimeOf(w, e)
  {
    StepKeepsStateInv(w, e);
    StepKeepsPace(w, e);
    StepAndStack(w, e);
    if Safe(w) && Honest(w, e) {
      StepKeepsTraffic(w, e);
      StepKeepsLease(w, e);
    }
    hide StateInv, PaceInv, StackInv, TrafficInv, LeaseInv, Honest, React, Adrift, SetsAdrift, TakesOut;
  }

  lemma KeptLeaseIsSafe(w: World, e: Event, w': World)
    requires KeepsPast(w, e, w')
    ensures Safe(w) && Honest(w, e) && w'.c.leaseValid ==>
              w'.grant.Some? && w'.c.net.ip == w'.grant.value.reply.yiaddr && w'.c.end <= ServerExpiry(w'.grant.value)
    ensures Safe(w) && Honest(w, e) && StackInv(w') && w'.clock < w'.c.end && PastExpiry(w') ==> Adrift(w')
  {
    hide Step, TrafficInv, Honest;
  }

  lemma AdriftIfNotHeld(w: World)
    ensures PastExpiry(w) && !w.c.leaseValid ==> Adrift(w)
  {
    hide ServerExpiry;
  }

  lemma KeepsIsStep(w: World, e: Event)
    ensures forall w' :: KeepsPast(w, e, w') ==> w' == Step(w, e)
  {
    hide Step;
  }
}

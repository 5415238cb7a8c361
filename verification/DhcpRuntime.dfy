// The DHCP client as it runs (src/dhcp.c): its fields changed in place by start, tick,
// stop, forget and replies. A ghost history makes the invariants over whole runs of
// DhcpRuns the object invariant: every entry point needs and keeps them.

module DhcpRuntime {
  import opened Words
  import opened DhcpClient
  import opened DhcpOptions
  import opened DhcpRuns

  class Dhcp {
    var state: State
    var xid: u32
    var net: Net
    var serverIp: u32
    var serverMac: Mac
    var leaseValid: bool
    var t1: u64
    var t2: u64
    var end: u64
    var exchangeStart: Clock
    var nextTx: u64
    var requestBackoff: Backoff
    var discoverBackoff: Backoff
    var tries: u32
    var stackIp: u32
    ghost var past: World

    ghost function Abs(): Client
      reads this
    {
      Client(state, xid, net, serverIp, serverMac, leaseValid, t1, t2, end,
             exchangeStart, nextTx, requestBackoff, discoverBackoff, tries, stackIp)
    }

    /** State, lease and stack address agree, and the sends so far are within their budget. */
    ghost predicate Valid()
      reads this
    {
      past.c == Abs() && StateInv(past) && PaceInv(past) && StackInv(past)
    }

    constructor ()
      ensures Valid() && past == FRESH && Safe(past)
      ensures state == Idle && !leaseValid && stackIp == 0
    {
      state, xid, net, serverIp, serverMac := Idle, 0, Net(0, 0, 0, 0), 0, [0, 0, 0, 0, 0, 0];
      leaseValid, t1, t2, end, exchangeStart, nextTx := false, 0, 0, 0, 0, 0;
      requestBackoff, discoverBackoff, tries, stackIp := INITIAL, INITIAL, 0, 0;
      past := FRESH;
    }

    /** Adds an event whose effect the fields already show. */
    ghost method Record(e: Event)
      requires StateInv(past) && PaceInv(past) && StackInv(past) && Timely(past, e) && React(past.c, e).0 == Abs()
      modifies `past
      ensures Valid() && KeepsPast(old(past), e, past) && Abs() == old(Abs())
    {
      StepIsKept(past, e);
      past := Step(past, e);
      hide Step, React;
    }

    /** A reply to the previous exchange is not taken for one to the next. */
    method DrawXid(rand: u32)
      modifies `xid
      ensures Abs() == NewXid(old(Abs()), rand)
      ensures xid != old(xid)
    {
      xid := if rand == xid then Add32(rand, 1) else rand;
    }

    /** Table 5 of RFC 2131: our address only while renewing or rebinding, the requested
        address only while asking for one, the server only when taking up its offer. */
    method SendNow() returns (m: Message)
      modifies `tries
      ensures m == MessageFor(old(Abs())) && Abs() == old(Abs()).(tries := Add32(old(tries), 1))
      ensures m.state == state && IsTable5(Abs(), m)
      ensures m.ciaddr != 0 ==> HasAddress(state) && m.ciaddr == net.ip && m.requested == 0 && m.serverId == 0
      ensures m.requested != 0 ==> state in {Requesting, Rebooting} && m.requested == net.ip
      ensures m.serverId != 0 ==> state == Requesting && m.serverId == serverIp
      ensures m.destIp != BROADCAST_IP ==> state == Renewing && (m.destMac, m.destIp) == (serverMac, serverIp)
    {
      var unicast := state == Renewing && serverIp != 0;
      var haveIp := state == Renewing || state == Rebinding;
      var asking := state == Requesting || state == Rebooting;
      m := Message(
        state, xid, if haveIp then net.ip else 0, if asking then net.ip else 0,
        if state == Requesting then serverIp else 0,
        if unicast then serverMac else BROADCAST_MAC, if unicast then serverIp else BROADCAST_IP);
      tries := Add32(tries, 1);
    }

    /** The next send is 3 to 65 s off while asking for an address, and while renewing or
        rebinding at least a minute, within what the deadline's budget allows. */
    method TransmitNow(now: Clock, rand: u32) returns (sent: Sent)
      modifies this
      ensures past == old(past) && (Abs(), sent) == Transmit(old(Abs()), now, rand)
      ensures state in {Discovering, Requesting, Rebooting} ==> now + Seconds(3) <= nextTx <= now + Seconds(65)
      ensures state == Renewing ==> nextTx >= now + MIN_RETRY && 1 + Ahead(t2, nextTx) <= Budget(t2 - now)
      ensures state == Rebinding ==> nextTx >= now + MIN_RETRY && 1 + Ahead(end, nextTx) <= Budget(end - now)
    {
      TransmitKeepsPace(Abs(), now, rand);
      hide Ahead, Budget, RetryAt, Jittered, NextBackoff, IsTable5, Doubled, MessageFor;
      var m := SendNow();
      match state {
        case Discovering =>
          nextTx, discoverBackoff := now + Jittered(discoverBackoff, rand), NextBackoff(discoverBackoff);
        case Requesting =>
          nextTx, requestBackoff := now + Jittered(requestBackoff, rand), NextBackoff(requestBackoff);
        case Rebooting =>
          nextTx, requestBackoff := now + Jittered(requestBackoff, rand), NextBackoff(requestBackoff);
        case Renewing => nextTx := RetryAt(now, t2);
        case Rebinding => nextTx := RetryAt(now, end);
        case _ =>
      }
      return Sent(m);
    }

    /** A new exchange, with its own xid and the first DISCOVER due after the delay. */
    method BackToInit(now: Clock, delay: nat, rand: u32)
      requires delay <= MAX + JITTER
      modifies this
      ensures past == old(past) && Abs() == EnterInit(old(Abs()), now, delay, rand)
      ensures xid != old(xid) && nextTx == now + delay && leaseValid == old(leaseValid) && end == old(end)
    {
      state := Discovering;
      DrawXid(rand);
      tries := 0;
      nextTx := now + delay;
    }

    /** The first REQUEST of an exchange: from here the lease it leads to counts. */
    method BeginRequest(now: Clock, next: State, rand: u32) returns (sent: Sent)
      modifies this
      ensures past == old(past) && (Abs(), sent) == StartRequest(old(Abs()), now, next, rand)
      ensures exchangeStart == now && tries == 1 && sent.Sent? && sent.m.xid == xid == old(xid)
    {
      ghost var c := Abs();
      state, tries, requestBackoff, exchangeStart := next, 0, INITIAL, now;
      assert Abs() == c.(state := next, tries := 0, requestBackoff := INITIAL, exchangeStart := now);
      hide Ahead, Budget, Jittered, NextBackoff, RetryAt;
      sent := TransmitNow(now, rand);
    }

    /** No address is left, and none in the stack if it was in use. */
    method GiveUpLease()
      modifies this
      ensures past == old(past) && Abs() == DropLease(old(Abs()))
      ensures !leaseValid && net.ip == 0
      ensures stackIp == if old(Leasing(state) || state == Rebooting) then 0 else old(stackIp)
    {
      var inUse := state == Bound || state == Renewing || state == Rebinding || state == Rebooting;
      leaseValid := false;
      net := net.(ip := 0);
      if inUse {
        stackIp := 0;
      }
    }

    /** Link up: exactly a held lease with time left is asked for again, by its address. */
    method StartClient(now: Clock, randXid: u32, rand: u32) returns (sent: Sent)
      requires Valid() && now >= past.clock
      modifies this
      ensures Valid() && KeepsPast(old(past), StartAt(now, randXid, rand), past)
      ensures (Abs(), sent) == Start(old(Abs()), now, randXid, rand)
      ensures sent.Sent? && xid != old(xid)
      ensures if old(leaseValid && now < end) then
                state == Rebooting && leaseValid && sent.m.requested == net.ip == old(net.ip)
              else state == Discovering && !leaseValid && sent.m.requested == 0
    {
      hide KeepsPast, StateInv, PaceInv, StackInv, NewXid, StartRequest, Transmit, Tick, Receive;
      StartAsksForHeldLease(Abs(), now, randXid, rand);
      discoverBackoff := INITIAL;
      DrawXid(randXid);
      if leaseValid && now < end {
        sent := BeginRequest(now, Rebooting, rand);
      } else {
        leaseValid, state, tries := false, Discovering, 0;
        sent := TransmitNow(now, rand);
      }
      Record(StartAt(now, randXid, rand));
    }

    /** Afterwards a held lease has time left. */
    method ExpireLease(now: Clock, randXid: u32)
      modifies this
      ensures past == old(past) && Abs() == Expire(old(Abs()), now, randXid)
      ensures leaseValid ==> now < end
      ensures old(leaseValid && now >= end) && old(state) !in {Idle, Static} ==>
                state == Discovering && nextTx == now && xid != old(xid) && net.ip == 0
    {
      if leaseValid && now >= end {
        var running := state != Idle && state != Static;
        GiveUpLease();
        if running {
          BackToInit(now, 0, randXid);
        }
      }
    }

    /** A due REQUEST goes out again up to three times; then a DISCOVER does, with a new xid,
        and what was asked for again is no longer held. */
    method TickRequesting(now: Clock, randXid: u32, rand: u32) returns (sent: Sent)
      requires state == Requesting || state == Rebooting
      modifies this
      ensures past == old(past) && (Abs(), sent) == TickRequest(old(Abs()), now, randXid, rand)
      ensures sent.Sent? <==> now >= old(nextTx)
      ensures sent.Sent? && old(tries) < MAX_TRIES ==> state == old(state) && xid == old(xid)
      ensures sent.Sent? && old(tries) >= MAX_TRIES ==>
                state == Discovering && xid != old(xid) && (old(state) == Rebooting ==> !leaseValid && stackIp == 0)
    {
      hide Ahead, Budget;
      if now < nextTx {
        return Silence;
      }
      if tries >= MAX_TRIES {
        if state == Rebooting {
          GiveUpLease();
        }
        BackToInit(now, 0, randXid);
      }
      sent := TransmitNow(now, rand);
    }

    method TickByState(now: Clock, randXid: u32, rand: u32) returns (sent: Sent)
      modifies this
      ensures past == old(past) && (Abs(), sent) == Tick(old(Abs()), now, randXid, rand)
    {
      hide Expire, Transmit, StartRequest, NewXid, TickRequest, Ahead, Budget;
      ExpireLease(now, randXid);
      sent := Silence;
      match state {
        case Discovering =>
          if now >= nextTx {
            sent := TransmitNow(now, rand);
          }
        case Requesting => sent := TickRequesting(now, randXid, rand);
        case Rebooting => sent := TickRequesting(now, randXid, rand);
        case Bound =>
          if now >= t1 {
            DrawXid(randXid);
            sent := BeginRequest(now, Renewing, rand);
          }
        case Renewing =>
          if now >= t2 {
            state := Rebinding;
            sent := TransmitNow(now, rand);
          } else if now >= nextTx {
            sent := TransmitNow(now, rand);
          }
        case Rebinding =>
          if now >= nextTx {
            sent := TransmitNow(now, rand);
          }
        case _ =>
      }
    }

    /** A message goes out exactly when one is due. However late the tick, a held lease has time
        left, and the address of one that expired in use leaves the stack; that of a stopped
        client stays. With an honest server the lease ends before it does there, and an address
        in the stack past its expiry there is adrift. */
    method TickClient(now: Clock, randXid: u32, rand: u32) returns (sent: Sent)
      requires Valid() && now >= past.clock
      modifies this
      ensures Valid() && KeepsPast(old(past), TickAt(now, randXid, rand), past)
      ensures (Abs(), sent) == Tick(old(Abs()), now, randXid, rand)
      ensures SendsWhenDue(old(Abs()), now, Abs(), sent) && (sent.Sent? ==> IsTable5(Abs(), sent.m))
      ensures leaseValid ==> now < end
      ensures old(leaseValid && now >= end && (Leasing(state) || state == Rebooting)) ==>
                !leaseValid && net.ip == 0 && stackIp == 0 && state == Discovering
      ensures old(leaseValid && now >= end && state == Idle) ==> !leaseValid && stackIp == old(stackIp)
      ensures old(Safe(past)) && Honest(old(past), TickAt(now, randXid, rand)) && leaseValid ==>
                past.grant.Some? && net.ip == past.grant.value.reply.yiaddr && now < ServerExpiry(past.grant.value)
      ensures old(Safe(past)) && Honest(old(past), TickAt(now, randXid, rand)) && PastExpiry(past) ==> Adrift(past)
    {
      TickEndsExpiredLease(Abs(), now, randXid, rand);
      TickSendsWhenDue(Abs(), now, randXid, rand);
      MessageIsTable5(Abs(), TickAt(now, randXid, rand));
      ClockOfTick(past, TickAt(now, randXid, rand));
      AdriftIfNotHeld(Step(past, TickAt(now, randXid, rand)));
      KeepsIsStep(past, TickAt(now, randXid, rand));
      hide Tick, Start, Receive, KeepsPast, StateInv, PaceInv, StackInv, TrafficInv, Honest, PastExpiry, Adrift, Step;
      hide IsTable5, SendsWhenDue;
      sent := TickByState(now, randXid, rand);
      ghost var before := past;
      Record(TickAt(now, randXid, rand));
      KeptLeaseIsSafe(before, TickAt(now, randXid, rand), past);
    }

    /** Link down: the client rests, and the lease, its address and its times stay. */
    method StopClient()
      requires Valid()
      modifies `state, `past
      ensures Valid() && KeepsPast(old(past), StopNow, past)
      ensures Abs() == old(Abs()).(state := Idle)
    {
      state := Idle;
      Record(StopNow);
    }

    /** The next start discovers; until then the client goes on as it was. */
    method ForgetLease()
      requires Valid()
      modifies `leaseValid, `net, `past
      ensures Valid() && KeepsPast(old(past), ForgetNow, past)
      ensures Abs() == Forget(old(Abs()))
      ensures !leaseValid && (old(state) != Idle ==> net == old(net)) && (old(state) == Idle ==> net.ip == 0)
    {
      hide KeepsPast, StateInv, PaceInv, StackInv, Tick, Receive, Start;
      leaseValid := false;
      if state == Idle {
        net := net.(ip := 0);
      }
      Record(ForgetNow);
    }

    /** A fixed address in the stack, and no lease. */
    method SetStaticFallback(fallback: Net)
      requires Valid()
      modifies `leaseValid, `net, `state, `stackIp, `past
      ensures Valid() && KeepsPast(old(past), FallBack(fallback), past)
      ensures Abs() == StaticFallback(old(Abs()), fallback)
      ensures state == Static && !leaseValid && stackIp == net.ip == fallback.ip
    {
      hide KeepsPast, StateInv, PaceInv, StackInv, Tick, Receive, Start;
      leaseValid, net, state, stackIp := false, fallback, Static, fallback.ip;
      Record(FallBack(fallback));
    }

    /** Takes over what the reply gives, keeping the rest. */
    method AdoptNet(r: Reply)
      modifies `net, `serverIp, `serverMac
      ensures net == Bind(old(Abs()), r).net && serverMac == r.srcMac
      ensures serverIp == if r.opts.serverId != 0 then r.opts.serverId else old(serverIp)
    {
      var o := r.opts;
      var mask, gateway, dns := net.mask, net.gateway, net.dns;
      if o.mask != 0 {
        mask := o.mask;
      }
      if o.router != 0 {
        gateway := o.router;
      }
      if o.dns != 0 {
        dns := o.dns;
      }
      if o.serverId != 0 {
        serverIp := o.serverId;
      }
      net, serverMac := Net(r.yiaddr, mask, gateway, dns), r.srcMac;
    }

    /** An ACK: the address goes into use, and the deadlines come in order, the last no later
        than the lease time after the first REQUEST of the exchange. */
    method BindTo(r: Reply)
      modifies this
      ensures past == old(past) && Abs() == Bind(old(Abs()), r)
      ensures state == Bound && leaseValid && stackIp == net.ip == r.yiaddr
      ensures t1 == t2 == end == NEVER || exchangeStart <= t1 <= t2 < end == exchangeStart + Seconds(LeaseOf(r.opts))
      ensures end == NEVER <==> r.opts.lease == INFINITE
    {
      DeadlinesInOrder(exchangeStart, r.opts);
      hide DeadlinesOf, LeaseOf;
      AdoptNet(r);
      SetDeadlines(r.opts);
      leaseValid, state, discoverBackoff, tries, stackIp := true, Bound, INITIAL, 0, r.yiaddr;
    }

    /** The times the server gave are used only where 0 < T1 < T2 < lease holds. */
    method SetDeadlines(o: Options)
      modifies `t1, `t2, `end
      ensures Deadlines(t1, t2, end) == DeadlinesOf(exchangeStart, o)
    {
      var lease: int := if o.lease != 0 then o.lease else FALLBACK_LEASE;
      if lease == INFINITE {
        t1, t2, end := NEVER, NEVER, NEVER;
        return;
      }
      var late: u32 := lease * 7 / 8;
      if o.t2 != 0 && o.t2 < lease {
        late := o.t2;
      }
      var early: u32 := lease / 2;
      if o.t1 != 0 && o.t1 < late {
        early := o.t1;
      } else if early > late {
        early := late;
      }
      t1 := exchangeStart + Seconds(early);
      t2 := exchangeStart + Seconds(late);
      end := exchangeStart + Seconds(lease);
    }

    method RefuseLease(now: Clock, randXid: u32, rand: u32)
      modifies this
      ensures past == old(past)
      ensures Abs() == Refused(old(Abs()), now, randXid, rand)
    {
      GiveUpLease();
      BackToInit(now, Jittered(discoverBackoff, rand), randXid);
      discoverBackoff := NextBackoff(discoverBackoff);
    }

    method ReactTo(now: Clock, r: Reply, randXid: u32, rand: u32) returns (sent: Sent)
      requires r.xid == xid
      modifies this
      ensures past == old(past) && (Abs(), sent) == Receive(old(Abs()), now, r, randXid, rand)
    {
      hide Bind, StartRequest, Refused, Ahead, Budget;
      var o := r.opts;
      var requesting := state == Requesting || state == Rebooting || state == Renewing || state == Rebinding;
      sent := Silence;
      if o.msgType == OFFER && state == Discovering && r.yiaddr != 0 {
        net, serverIp := Net(r.yiaddr, o.mask, o.router, o.dns), o.serverId;
        sent := BeginRequest(now, Requesting, rand);
      } else if o.msgType == ACK && requesting {
        BindTo(r);
      } else if o.msgType == NAK && requesting {
        RefuseLease(now, randXid, rand);
      }
    }

    /** A reply frame with a good header; options is its option field. Only one with the
        current xid has any effect, and exactly an ACK to a REQUEST gives a lease. */
    method ProcessPacket(now: Clock, replyXid: u32, yiaddr: u32, srcMac: Mac, options: Bytes,
                         randXid: u32, rand: u32, ghost acked: Clock) returns (sent: Sent)
      requires Valid() && now >= past.clock
      modifies this
      ensures var r := Reply(replyXid, yiaddr, srcMac, Parse(options, NO_OPTIONS));
              && Valid() && KeepsPast(old(past), ReceiveAt(now, r, acked, randXid, rand), past)
              && (Abs(), sent) == Receive(old(Abs()), now, r, randXid, rand)
      ensures ReplyIsUsed(old(Abs()), now, Abs(), sent, Reply(replyXid, yiaddr, srcMac, Parse(options, NO_OPTIONS)))
    {
      hide KeepsPast, StateInv, PaceInv, StackInv, Receive, Tick, Start, Parse, ReplyIsUsed;
      ghost var reply := Reply(replyXid, yiaddr, srcMac, Parse(options, NO_OPTIONS));
      OtherXidIsIgnored(Abs(), now, reply, randXid, rand);
      UseOfReply(Abs(), now, reply, randXid, rand);
      sent := Silence;
      if replyXid == xid {
        var o := ParseOptions(options);
        sent := ReactTo(now, Reply(replyXid, yiaddr, srcMac, o), randXid, rand);
      }
      Record(ReceiveAt(now, reply, acked, randXid, rand));
    }
  }
}

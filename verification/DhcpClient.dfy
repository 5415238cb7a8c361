// The DHCP client (src/dhcp.c): states, lease clock, backoff and retransmission. Time,
// random words and received replies are inputs of the functions here; class Dhcp of
// DhcpRuntime keeps the same state in fields and changes it in place.

module DhcpClient {
  import opened Words

  type u64 = x: int | 0 <= x < 0x1_0000_0000_0000_0000

  /** Clock readings in microseconds: 292,000 years, so that no sum below wraps around. */
  type Clock = x: int | 0 <= x < 0x8000_0000_0000_0000

  const INITIAL: int := 4_000_000
  const MAX: int := 64_000_000
  const JITTER: int := 1_000_000
  const MIN_RETRY: int := 60_000_000
  const MAX_TRIES: int := 3
  const FALLBACK_LEASE: u32 := 3600
  const INFINITE: u32 := 0xFFFF_FFFF
  const NEVER: u64 := 0xFFFF_FFFF_FFFF_FFFF

  function Seconds(n: nat): nat {
    n * 1_000_000
  }

  function Minutes(n: nat): nat {
    n * 60_000_000
  }

  type Backoff = x: int | INITIAL <= x <= MAX witness INITIAL

  /** The wait before a retransmission, up to a second more or less than delay. */
  function Jittered(delay: Backoff, rand: u32): (wait: nat)
    ensures delay - JITTER <= wait <= delay + JITTER
  {
    delay - JITTER + rand % 2_000_001
  }

  /** Every wait in that range comes about for some random word. */
  lemma JitterIsUsed(delay: Backoff, wait: int)
    requires delay - JITTER <= wait <= delay + JITTER
    ensures exists rand: u32 :: Jittered(delay, rand) == wait
  {
    var rand: u32 := wait - (delay - JITTER);
    assert Jittered(delay, rand) == wait;
  }

  function NextBackoff(delay: Backoff): Backoff {
    if delay * 2 > MAX then MAX else delay * 2
  }

  /** Four seconds doubled n times, up to 64 s. */
  function Doubled(n: nat): int {
    if n >= 4 then MAX else INITIAL * Pow2(n)
  }

  lemma NextBackoffDoubles(n: nat)
    ensures INITIAL <= Doubled(n) <= MAX && NextBackoff(Doubled(n)) == Doubled(n + 1)
  {
    assert Pow2(4) == 16 && Pow2(3) == 8 && Pow2(2) == 4 && Pow2(1) == 2;
  }

  /** Half the time left to the deadline, but at least a minute. */
  function RetryAt(now: Clock, deadline: u64): u64 {
    var half := if deadline > now then (deadline - now) / 2 else 0;
    now + if half < MIN_RETRY then MIN_RETRY else half
  }

  datatype State = Idle | Discovering | Requesting | Bound | Static | Rebooting | Renewing | Rebinding

  type Mac = seq<u8>

  datatype Net = Net(ip: u32, mask: u32, gateway: u32, dns: u32)

  datatype Client = Client(
    state: State, xid: u32, net: Net, serverIp: u32, serverMac: Mac,
    leaseValid: bool, t1: u64, t2: u64, end: u64,
    exchangeStart: Clock, nextTx: u64, requestBackoff: Backoff, discoverBackoff: Backoff, tries: u32,
    stackIp: u32)   // the address the network stack uses

  /** The parts of a message that depend on the state (table 5 of RFC 2131). Zero for
      requested and serverId stands for an absent option. */
  datatype Message = Message(
    state: State, xid: u32, ciaddr: u32, requested: u32, serverId: u32, destMac: Mac, destIp: u32)

  const BROADCAST_MAC: Mac := [0xFF, 0xFF, 0xFF, 0xFF, 0xFF, 0xFF]
  const BROADCAST_IP: u32 := 0xFFFF_FFFF

  datatype Sent = Silence | Sent(m: Message)

  predicate HasAddress(s: State) {
    s == Renewing || s == Rebinding
  }

  function MessageFor(c: Client): Message {
    var unicast := c.state == Renewing && c.serverIp != 0;
    Message(
      c.state, c.xid,
      if HasAddress(c.state) then c.net.ip else 0,
      if c.state == Requesting || c.state == Rebooting then c.net.ip else 0,
      if c.state == Requesting then c.serverIp else 0,
      if unicast then c.serverMac else BROADCAST_MAC,
      if unicast then c.serverIp else BROADCAST_IP)
  }

  /** Table 5 of RFC 2131: what the messages of each state carry. */
  predicate IsTable5(c: Client, m: Message) {
    && m.xid == c.xid
    && (match m.state
        case Discovering => m.ciaddr == 0 && m.requested == 0 && m.serverId == 0
        case Requesting => m.ciaddr == 0 && m.requested == c.net.ip && m.serverId == c.serverIp
        case Rebooting => m.ciaddr == 0 && m.requested == c.net.ip && m.serverId == 0
        case Renewing => m.ciaddr == c.net.ip && m.requested == 0 && m.serverId == 0
        case Rebinding => m.ciaddr == c.net.ip && m.requested == 0 && m.serverId == 0
        case _ => true)
    && (if m.state == Renewing && c.serverIp != 0 then (m.destMac, m.destIp) == (c.serverMac, c.serverIp)
        else (m.destMac, m.destIp) == (BROADCAST_MAC, BROADCAST_IP))
  }

  const POWER_ON: Client := Client(
    Idle, 0, Net(0, 0, 0, 0), 0, [0, 0, 0, 0, 0, 0], false, 0, 0, 0, 0, 0, INITIAL, INITIAL, 0, 0)

  function NewXid(c: Client, rand: u32): Client {
    c.(xid := if rand == c.xid then Add32(rand, 1) else rand)
  }

  /** dhcp_client_transmit: sends for the current state and schedules the next send. */
  function Transmit(c: Client, now: Clock, rand: u32): (Client, Sent) {
    var c1 := c.(tries := Add32(c.tries, 1));
    var c2 := match c.state
      case Discovering =>
        c1.(nextTx := now + Jittered(c.discoverBackoff, rand), discoverBackoff := NextBackoff(c.discoverBackoff))
      case Requesting =>
        c1.(nextTx := now + Jittered(c.requestBackoff, rand), requestBackoff := NextBackoff(c.requestBackoff))
      case Rebooting =>
        c1.(nextTx := now + Jittered(c.requestBackoff, rand), requestBackoff := NextBackoff(c.requestBackoff))
      case Renewing => c1.(nextTx := RetryAt(now, c.t2))
      case Rebinding => c1.(nextTx := RetryAt(now, c.end))
      case _ => c1;
    (c2, Sent(MessageFor(c)))
  }

  function EnterInit(c: Client, now: Clock, delay: nat, rand: u32): Client
    requires delay <= MAX + JITTER
  {
    NewXid(c.(state := Discovering, tries := 0, nextTx := now + delay), rand)
  }

  function StartRequest(c: Client, now: Clock, state: State, rand: u32): (Client, Sent) {
    Transmit(c.(state := state, tries := 0, requestBackoff := INITIAL, exchangeStart := now), now, rand)
  }

  function DropLease(c: Client): Client {
    var inUse := c.state == Bound || c.state == Renewing || c.state == Rebinding || c.state == Rebooting;
    c.(leaseValid := false, net := c.net.(ip := 0), stackIp := if inUse then 0 else c.stackIp)
  }

  /** Link up: ask for the held address again, or discover. */
  function Start(c: Client, now: Clock, randXid: u32, rand: u32): (Client, Sent) {
    var c1 := NewXid(c.(discoverBackoff := INITIAL), randXid);
    if c.leaseValid && now < c.end then StartRequest(c1, now, Rebooting, rand)
    else Transmit(c1.(leaseValid := false, state := Discovering, tries := 0), now, rand)
  }

  function Expire(c: Client, now: Clock, randXid: u32): Client {
    if c.leaseValid && now >= c.end then
      var c1 := DropLease(c);
      if c.state != Idle && c.state != Static then EnterInit(c1, now, 0, randXid) else c1
    else c
  }

  function Tick(c: Client, now: Clock, randXid: u32, rand: u32): (Client, Sent) {
    var c1 := Expire(c, now, randXid);
    match c1.state
    case Discovering => if now >= c1.nextTx then Transmit(c1, now, rand) else (c1, Silence)
    case Requesting => TickRequest(c1, now, randXid, rand)
    case Rebooting => TickRequest(c1, now, randXid, rand)
    case Bound =>
      if now >= c1.t1 then StartRequest(NewXid(c1, randXid), now, Renewing, rand) else (c1, Silence)
    case Renewing =>
      if now >= c1.t2 then Transmit(c1.(state := Rebinding), now, rand)
      else if now >= c1.nextTx then Transmit(c1, now, rand) else (c1, Silence)
    case Rebinding => if now >= c1.nextTx then Transmit(c1, now, rand) else (c1, Silence)
    case _ => (c1, Silence)
  }

  /** After the third unanswered REQUEST: start over; an unanswered INIT-REBOOT does not
      keep the old address. */
  function TickRequest(c: Client, now: Clock, randXid: u32, rand: u32): (Client, Sent) {
    if now < c.nextTx then (c, Silence)
    else if c.tries >= MAX_TRIES then
      var c1 := if c.state == Rebooting then DropLease(c) else c;
      Transmit(EnterInit(c1, now, 0, randXid), now, rand)
    else Transmit(c, now, rand)
  }

  function Stop(c: Client): Client {
    c.(state := Idle)
  }

  function Forget(c: Client): Client {
    c.(leaseValid := false, net := if c.state == Idle then c.net.(ip := 0) else c.net)
  }

  function StaticFallback(c: Client, net: Net): Client {
    c.(leaseValid := false, net := net, state := Static, stackIp := net.ip)
  }

  /** When the next message is due: T1 while bound; T2, if that comes first, while renewing; the
      expiry of a held lease before anything else; never while idle or static. */
  function DueAt(c: Client): Option<u64> {
    if c.state == Idle || c.state == Static then None
    else
      var due := if c.state == Bound then c.t1 else if c.state == Renewing && c.t2 < c.nextTx then c.t2 else c.nextTx;
      Some(if c.leaseValid && c.end < due then c.end else due)
  }

  /** The state in which a message due at now is sent. */
  function StateDue(c: Client, now: Clock): State {
    if c.leaseValid && now >= c.end then Discovering
    else match c.state
      case Bound => Renewing
      case Renewing => if now >= c.t2 then Rebinding else Renewing
      case Requesting => if c.tries >= MAX_TRIES then Discovering else Requesting
      case Rebooting => if c.tries >= MAX_TRIES then Discovering else Rebooting
      case s => s
  }

  /** How a tick is told by the fields: it sends exactly when a message is due, the one for the
      state then entered; otherwise it changes nothing but an expired lease. */
  predicate SendsWhenDue(c: Client, now: Clock, c': Client, sent: Sent) {
    var due := DueAt(c).Some? && now >= DueAt(c).value;
    && (sent.Sent? <==> due)
    && (due ==> sent.m.state == c'.state == StateDue(c, now))
    && (!due ==> c' == c || (c.leaseValid && now >= c.end && c.state in {Idle, Static}))
  }

  lemma TickSendsWhenDue(c: Client, now: Clock, randXid: u32, rand: u32)
    ensures var (c', sent) := Tick(c, now, randXid, rand); SendsWhenDue(c, now, c', sent)
  {
    hide Jittered, NextBackoff, RetryAt;
  }

  // ---- Replies -----------------------------------------------------------

  const OFFER: u8 := 2
  const ACK: u8 := 5
  const NAK: u8 := 6

  /** The options of one reply; zero for an absent one. */
  datatype Options = Options(
    msgType: u8, serverId: u32, mask: u32, router: u32, dns: u32, lease: u32, t1: u32, t2: u32)

  /** A well-formed reply frame. */
  datatype Reply = Reply(xid: u32, yiaddr: u32, srcMac: Mac, opts: Options)

  datatype Deadlines = Deadlines(t1: u64, t2: u64, end: u64)

  function LeaseOf(o: Options): u32 {
    if o.lease != 0 then o.lease else FALLBACK_LEASE
  }

  function T2Of(o: Options): u32 {
    var lease: int := LeaseOf(o);
    if 0 != o.t2 < lease then o.t2 else lease * 7 / 8
  }

  function T1Of(o: Options): u32 {
    var lease: int := LeaseOf(o);
    var t2 := T2Of(o);
    if 0 != o.t1 < t2 then o.t1 else if lease / 2 > t2 then t2 else lease / 2
  }

  /** T1, T2 and expiry, counted from the first REQUEST of the exchange. */
  function DeadlinesOf(start: Clock, o: Options): Deadlines {
    if LeaseOf(o) == INFINITE then Deadlines(NEVER, NEVER, NEVER)
    else Deadlines(start + Seconds(T1Of(o)), start + Seconds(T2Of(o)), start + Seconds(LeaseOf(o)))
  }

  function Bind(c: Client, r: Reply): Client {
    var o := r.opts;
    var net := Net(
      r.yiaddr,
      if o.mask != 0 then o.mask else c.net.mask,
      if o.router != 0 then o.router else c.net.gateway,
      if o.dns != 0 then o.dns else c.net.dns);
    var d := DeadlinesOf(c.exchangeStart, o);
    Client(Bound, c.xid, net, if o.serverId != 0 then o.serverId else c.serverIp, r.srcMac,
           true, d.t1, d.t2, d.end, c.exchangeStart, c.nextTx, c.requestBackoff, INITIAL, 0, r.yiaddr)
  }

  predicate Awaiting(s: State) {
    s == Requesting || s == Rebooting || s == Renewing || s == Rebinding
  }

  /** A NAK: no lease, and a DISCOVER after the present backoff. */
  function Refused(c: Client, now: Clock, randXid: u32, rand: u32): Client {
    EnterInit(DropLease(c), now, Jittered(c.discoverBackoff, rand), randXid)
    .(discoverBackoff := NextBackoff(c.discoverBackoff))
  }

  function Receive(c: Client, now: Clock, r: Reply, randXid: u32, rand: u32): (Client, Sent) {
    var o := r.opts;
    if r.xid != c.xid then (c, Silence)
    else if o.msgType == OFFER && c.state == Discovering && r.yiaddr != 0 then
      var c1 := c.(net := Net(r.yiaddr, o.mask, o.router, o.dns), serverIp := o.serverId);
      StartRequest(c1, now, Requesting, rand)
    else if o.msgType == ACK && Awaiting(c.state) then (Bind(c, r), Silence)
    else if o.msgType == NAK && Awaiting(c.state) then
      (Refused(c, now, randXid, rand), Silence)
    else (c, Silence)
  }

  lemma OtherXidIsIgnored(c: Client, now: Clock, r: Reply, randXid: u32, rand: u32)
    ensures r.xid != c.xid ==> Receive(c, now, r, randXid, rand) == (c, Silence)
  {
  }

  /** What a reply does, by the fields: with our xid an OFFER of an address while discovering is
      taken up by its address; an ACK to a REQUEST of ours puts its address into use, with what
      else it gives; a NAK to one ends the lease; and any other reply does nothing. */
  predicate ReplyIsUsed(c: Client, now: Clock, c': Client, sent: Sent, r: Reply) {
    var asked := c.state in {Requesting, Rebooting, Renewing, Rebinding};
    if r.xid == c.xid && r.opts.msgType == OFFER && c.state == Discovering && r.yiaddr != 0 then
      && c'.state == Requesting && c'.xid == c.xid && c'.exchangeStart == now && c'.net.ip == r.yiaddr
      && sent.Sent? && sent.m.state == Requesting && sent.m.xid == c.xid
      && sent.m.requested == r.yiaddr && sent.m.serverId == r.opts.serverId
    else if r.xid == c.xid && r.opts.msgType == ACK && asked then
      && sent == Silence && c'.state == Bound && c'.leaseValid && c'.stackIp == c'.net.ip == r.yiaddr
      && c'.net.mask == (if r.opts.mask != 0 then r.opts.mask else c.net.mask)
      && c'.net.gateway == (if r.opts.router != 0 then r.opts.router else c.net.gateway)
      && c'.net.dns == (if r.opts.dns != 0 then r.opts.dns else c.net.dns)
      && c'.serverIp == (if r.opts.serverId != 0 then r.opts.serverId else c.serverIp) && c'.serverMac == r.srcMac
    else if r.xid == c.xid && r.opts.msgType == NAK && asked then
      && sent == Silence && c'.state == Discovering && !c'.leaseValid && c'.xid != c.xid && c'.net.ip == 0
      && c'.stackIp == (if c.state == Requesting then c.stackIp else 0)
      && -JITTER <= c'.nextTx - now - c.discoverBackoff <= JITTER
    else c' == c && sent == Silence
  }

  lemma UseOfReply(c: Client, now: Clock, r: Reply, randXid: u32, rand: u32)
    ensures var (c', sent) := Receive(c, now, r, randXid, rand); ReplyIsUsed(c, now, c', sent, r)
  {
    hide DeadlinesOf, NextBackoff;
  }

  /** Link up: exactly a held lease with time left is asked for again, by its address. */
  lemma StartAsksForHeldLease(c: Client, now: Clock, randXid: u32, rand: u32)
    ensures var (c', sent) := Start(c, now, randXid, rand);
            && sent.Sent? && c'.xid != c.xid
            && if c.leaseValid && now < c.end then
                 c'.state == Rebooting && c'.leaseValid && sent.m.requested == c'.net.ip == c.net.ip
               else c'.state == Discovering && !c'.leaseValid && sent.m.requested == 0
  {
  }

  /** For every lease and every renewal and rebinding time a server may send: the deadlines
      come in order and before expiry, or none ever comes; the server's own times are used
      when they fit, and without them a half and seven eighths of the lease. */
  lemma DeadlinesInOrder(start: Clock, o: Options)
    ensures var d := DeadlinesOf(start, o);
            && (d == Deadlines(NEVER, NEVER, NEVER) || start <= d.t1 <= d.t2 < d.end == start + Seconds(LeaseOf(o)))
            && (d.end == NEVER <==> o.lease == INFINITE)
            && (0 < o.t1 < o.t2 < o.lease < INFINITE ==>
                  d.t1 == start + Seconds(o.t1) && d.t2 == start + Seconds(o.t2))
            && (o.t1 == o.t2 == 0 && 0 < o.lease < INFINITE ==>
                  d.t1 == start + Seconds(o.lease / 2) && d.t2 == start + Seconds(o.lease * 7 / 8))
  {
    var lease: int := LeaseOf(o);
    assert lease * 7 / 8 < lease;
  }

  // ---- How often a renewing client may send ------------------------------

  /** Sends from a first one with this much time left to the deadline. */
  function Budget(left: int): (n: nat)
    ensures n >= 1
    decreases if left > 0 then left else 0
  {
    if left <= MIN_RETRY then 1 else 1 + Budget(left - left / 2)
  }

  lemma {:induction false} BudgetGrows(a: int, b: int)
    requires a <= b
    ensures Budget(a) <= Budget(b)
    decreases if b > 0 then b else 0
  {
    if a > MIN_RETRY {
      BudgetGrows(a - a / 2, b - b / 2);
    }
  }

  /** Halving the time left each time, the sends grow with its logarithm. */
  lemma {:induction false} BudgetIsLogarithmic(left: int, k: nat)
    requires left <= Minutes(Pow2(k))
    ensures Budget(left) <= k + 1
  {
    if left > MIN_RETRY {
      assert k > 0;
      BudgetIsLogarithmic(left - left / 2, k - 1);
    }
  }

  /** What is still to come when the next send is due at next. */
  function Ahead(deadline: u64, next: u64): nat {
    if next >= deadline then 0 else Budget(deadline - next)
  }

  /** Every send uses up one of the budget it had. */
  lemma RetryUsesBudget(now: Clock, deadline: u64)
    ensures 1 + Ahead(deadline, RetryAt(now, deadline)) <= Budget(deadline - now)
  {
    var next := RetryAt(now, deadline);
    if next < deadline {
      var left := deadline - now;
      BudgetGrows(deadline - next, left - left / 2);
    }
  }

  /** When the next send is due: 3 to 65 s off while asking for an address; a minute or more,
      and within the deadline's budget, while renewing or rebinding. */
  lemma TransmitKeepsPace(c: Client, now: Clock, rand: u32)
    ensures var c' := Transmit(c, now, rand).0;
            && (c.state in {Discovering, Requesting, Rebooting} ==> now + Seconds(3) <= c'.nextTx <= now + Seconds(65))
            && (c.state == Discovering ==>
                  -JITTER <= c'.nextTx - now - c.discoverBackoff <= JITTER
                  && forall n: nat :: c.discoverBackoff == Doubled(n) ==> c'.discoverBackoff == Doubled(n + 1))
            && (c.state in {Requesting, Rebooting} ==>
                  -JITTER <= c'.nextTx - now - c.requestBackoff <= JITTER
                  && forall n: nat :: c.requestBackoff == Doubled(n) ==> c'.requestBackoff == Doubled(n + 1))
            && (c.state == Renewing ==>
                  && c'.nextTx == now + (if c.t2 - now < 2 * MIN_RETRY then MIN_RETRY else (c.t2 - now) / 2)
                  && 1 + Ahead(c.t2, c'.nextTx) <= Budget(c.t2 - now))
            && (c.state == Rebinding ==>
                  && c'.nextTx == now + (if c.end - now < 2 * MIN_RETRY then MIN_RETRY else (c.end - now) / 2)
                  && 1 + Ahead(c.end, c'.nextTx) <= Budget(c.end - now))
  {
    RetryUsesBudget(now, c.t2);
    RetryUsesBudget(now, c.end);
    forall n: nat ensures INITIAL <= Doubled(n) <= MAX && NextBackoff(Doubled(n)) == Doubled(n + 1) {
      NextBackoffDoubles(n);
    }
    hide Ahead, Budget, Doubled, NextBackoff;
  }

  /** At most 28 sends for any deadlines a 32-bit lease can give. */
  lemma LeaseBudget(left: int)
    requires left < Seconds(0x1_0000_0000)
    ensures Budget(left) <= 28
  {
    assert Pow2(27) == 0x800_0000 by {
      assert Pow2(9) == 0x200 by { assert Pow2(4) == 16; }
      assert Pow2(18) == 0x4_0000 by { assert Pow2(13) == 0x2000; }
      assert Pow2(22) == 0x40_0000;
    }
    BudgetIsLogarithmic(left, 27);
  }
}

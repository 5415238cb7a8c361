// Wi-Fi credentials, the station join with its hand-over from the setup SoftAP, and the
// button-started setup mode (src/provisioning.c), with the store's deferred commits
// (src/nvs.c) as far as they decide which credentials a reboot finds. What the radio, the
// supplicant and the clock report are inputs.

module Provisioning {
  import opened Words

  /** A C string: bytes without the terminator. */
  type Text = seq<u8>

  const MAX_SSID: int := 32
  const MIN_PASS: int := 8
  const MAX_PASS: int := 64
  const NVS_VAL_MAX: int := 64
  const JOIN_TIMEOUT: int := 30_000_000
  const HANDOVER_DELAY: int := 15_000_000
  const PORTAL_DELAY: int := 1_000_000
  const RETRY_MIN: int := 1_000_000
  const RETRY_MAX: int := 300_000_000
  const SETUP_IDLE: int := 600_000_000
  const SETUP_MAX: int := 1_800_000_000
  const MAX_HOLD: int := 60_000_000

  datatype Creds = Creds(ssid: Text, pass: Text, provisioned: bool)

  const NO_CREDS: Creds := Creds([], [], false)

  predicate CredsOk(c: Creds) {
    if c.provisioned then 0 < |c.ssid| <= MAX_SSID && (c.pass == [] || MIN_PASS <= |c.pass| < NVS_VAL_MAX)
    else c == NO_CREDS
  }

  // ---- The credential keys of the store ----------------------------------

  /** The content of the store: the three keys, and how many new keys it still takes. */
  datatype Nvs = Nvs(ssid: Option<Text>, pass: Option<Text>, flag: bool, free: nat)

  predicate NvsOk(n: Nvs) {
    && (n.ssid.Some? ==> 0 < |n.ssid.value| <= MAX_SSID)
    && (n.pass.Some? ==> MIN_PASS <= |n.pass.value| < NVS_VAL_MAX)
  }

  /** Whether nvs_set_str takes a value: short enough, and a known key or room for one. */
  predicate Takes(known: Option<Text>, val: Text, free: nat) {
    |val| < NVS_VAL_MAX && (known.Some? || free > 0)
  }

  function Used(known: Option<Text>): nat {
    if known.Some? then 0 else 1
  }

  function PutSsid(n: Nvs, val: Text): Nvs
    requires Takes(n.ssid, val, n.free)
  {
    n.(ssid := Some(val), free := n.free - Used(n.ssid))
  }

  function PutPass(n: Nvs, val: Text): Nvs
    requires Takes(n.pass, val, n.free)
  {
    n.(pass := Some(val), free := n.free - Used(n.pass))
  }

  function ErasePass(n: Nvs): Nvs {
    n.(pass := None, free := n.free + if n.pass.Some? then 1 else 0)
  }

  function PutFlag(n: Nvs): Nvs {
    if n.flag || n.free == 0 then n else n.(flag := true, free := n.free - 1)
  }

  function EraseAll(n: Nvs): Nvs {
    Nvs(None, None, false,
        n.free + (if n.ssid.Some? then 1 else 0) + (if n.pass.Some? then 1 else 0) + (if n.flag then 1 else 0))
  }

  predicate HasKey(n: Nvs) {
    n.ssid.Some? || n.pass.Some? || n.flag
  }

  /** What provisioning_reload_credentials makes of a store content. */
  function Reload(n: Nvs): Creds {
    if n.ssid.Some? && n.ssid.value != [] then
      Creds(n.ssid.value, if n.pass.Some? then n.pass.value else [], true)
    else NO_CREDS
  }

  // ---- State -------------------------------------------------------------

  datatype JoinState = Idle | Pending | Joining | Handover | Online | RetryWait | Failed

  datatype Join = Join(
    state: JoinState, keepAp: bool, unproven: bool, nextEvent: nat, retryDelay: nat, discBase: u32)

  datatype SetupEnd = NoEnd | ByIdle | ByMax | ByRequest | ByJoin

  datatype Setup = Setup(active: bool, started: nat, idleSince: nat, lastEnd: SetupEnd)

  /** prev: the credentials before setup mode; nvs: the store's cache in RAM, which every
      read and write goes to; flash: the content last committed; dirty: a change of the cache
      is pending, first seen by nvs_tick at dirtySince. */
  datatype Prov = Prov(
    creds: Creds, nvs: Nvs, join: Join, setup: Setup, prev: Creds,
    flash: Nvs, dirty: bool, dirtySeen: bool, dirtySince: nat)

  // ---- Credentials -------------------------------------------------------

  datatype Status = Ok | SsidEmpty | InvalidArg | PassTooShort | NvsFail | NotFound

  function SetCredentials(p: Prov, ssid: Text, pass: Text): (Prov, Status) {
    if ssid == [] then (p, SsidEmpty)
    else if |ssid| > MAX_SSID then (p, InvalidArg)
    else if 0 < |pass| < MIN_PASS then (p, PassTooShort)
    else if |pass| > MAX_PASS then (p, InvalidArg)
    else if !Takes(p.nvs.ssid, ssid, p.nvs.free) then (p, NvsFail)
    else
      var n := PutSsid(p.nvs, ssid);
      if pass != [] && !Takes(n.pass, pass, n.free) then (p.(nvs := n, dirty := true), NvsFail)
      else
        var n' := if pass != [] then PutPass(n, pass) else ErasePass(n);
        (p.(nvs := PutFlag(n'), creds := Creds(ssid, pass, true), dirty := true), Ok)
  }

  function ClearCredentials(p: Prov): Prov {
    p.(nvs := EraseAll(p.nvs), creds := NO_CREDS, dirty := p.dirty || HasKey(p.nvs))
  }

  /** The lengths provisioning_set_credentials accepts. */
  predicate UsableLengths(ssid: Text, pass: Text) {
    0 < |ssid| <= MAX_SSID && (pass == [] || MIN_PASS <= |pass| <= MAX_PASS)
  }

  /** The store takes the SSID and then refuses the passphrase. */
  predicate HalfWrites(n: Nvs, ssid: Text, pass: Text) {
    && UsableLengths(ssid, pass) && Takes(n.ssid, ssid, n.free)
    && pass != [] && !Takes(n.pass, pass, n.free - Used(n.ssid))
  }

  /** A half write that changes something: the SSID of one call beside the passphrase of another. */
  predicate Splits(n: Nvs, ssid: Text, pass: Text) {
    HalfWrites(n, ssid, pass) && n.ssid != Some(ssid)
  }

  /** Accepted credentials are in RAM and in the store's cache, and not yet in flash. A
      refusal leaves the ones in RAM alone, and changes the cache exactly when the store had
      taken a new SSID before it refused the passphrase. */
  lemma SetIsAllOrNothingIff(p: Prov, ssid: Text, pass: Text)
    requires NvsOk(p.nvs) && CredsOk(p.creds)
    ensures var (p', status) := SetCredentials(p, ssid, pass);
            && NvsOk(p'.nvs) && CredsOk(p'.creds) && p'.join == p.join && p'.flash == p.flash
            && (status == Ok ==> p'.creds == Creds(ssid, pass, true) == Reload(p'.nvs) && p'.dirty)
            && (status != Ok ==> p'.creds == p.creds && (p'.nvs != p.nvs <==> Splits(p.nvs, ssid, pass)))
            && (Splits(p.nvs, ssid, pass) ==> status == NvsFail)
            && (Splits(p.nvs, ssid, pass) ==>
                  Reload(p'.nvs) == Creds(ssid, if p.nvs.pass.Some? then p.nvs.pass.value else [], true))
            && (status != Ok && !HalfWrites(p.nvs, ssid, pass) ==> p' == p)
  {
  }

  /** The store refuses a 64-byte passphrase after it took the SSID. */
  lemma LongestPassIsHalfWritten(p: Prov, ssid: Text, pass: Text)
    requires 0 < |ssid| <= MAX_SSID && |pass| == MAX_PASS && Takes(p.nvs.ssid, ssid, p.nvs.free)
    ensures HalfWrites(p.nvs, ssid, pass)
    ensures SetCredentials(p, ssid, pass).0.nvs.ssid == Some(ssid)
    ensures SetCredentials(p, ssid, pass).0.nvs.pass == p.nvs.pass
  {
  }

  // ---- Commits -----------------------------------------------------------

  predicate JoinBusy(j: Join) {
    j.state == Pending || j.state == Joining || j.state == Handover
  }

  function Commit(p: Prov): Prov {
    if p.dirty then p.(flash := p.nvs, dirty := false, dirtySeen := false) else p
  }

  /** nvs_tick: a pending change waits while a join is busy, for at most 60 s. */
  function StoreTick(p: Prov, now: nat): Prov {
    if !p.dirty then p
    else
      var p1 := p.(dirtySeen := true, dirtySince := if p.dirtySeen then p.dirtySince else now);
      if JoinBusy(p.join) && now - p1.dirtySince < MAX_HOLD then p1 else Commit(p1)
  }

  // ---- The join ----------------------------------------------------------

  function NextBackoff(delay: nat): nat {
    if delay < RETRY_MIN then RETRY_MIN
    else if delay >= RETRY_MAX / 2 then RETRY_MAX
    else delay * 2
  }

  /** The delay, up to a fifth more or less. */
  function Jittered(delay: nat, rand: u32): (wait: nat)
    ensures delay - delay / 5 <= wait <= delay + delay / 5
  {
    var span := delay * 20 / 100;
    delay - span + if span == 0 then 0 else rand % (span * 2 + 1)
  }

  function JoinBegin(p: Prov, keepAp: bool, apUp: bool): (Prov, Status) {
    if !p.creds.provisioned then (p, NotFound)
    else (p.(join := Join(Pending, keepAp && apUp, false, 0, RETRY_MIN, p.join.discBase)), Ok)
  }

  /** POST /api/wifi/configure once its parameters are extracted. */
  function Configure(p: Prov, ssid: Text, pass: Text, apUp: bool): (Prov, Status) {
    if ssid == [] then (p, SsidEmpty)
    else
      var (p1, status) := SetCredentials(p, ssid, pass);
      if status != Ok then (p1, status)
      else
        var (p2, begun) := JoinBegin(p1, true, apUp);
        (if begun == Ok then p2.(join := p2.join.(unproven := true)) else p2, Ok)
  }

  function Cancel(p: Prov): Prov {
    if p.join.state == Pending || p.join.state == RetryWait then p.(join := p.join.(state := Idle)) else p
  }

  function RestoreJoin(p: Prov, saved: JoinState): Prov {
    if saved == Idle || saved == Failed then
      p.(join := p.join.(state := saved, keepAp := false, unproven := false))
    else JoinBegin(p, false, false).0
  }

  function ScheduleRetry(p: Prov, now: nat, rand: u32): Prov {
    p.(join := p.join.(state := RetryWait, nextEvent := now + Jittered(p.join.retryDelay, rand),
                       retryDelay := NextBackoff(p.join.retryDelay)))
  }

  /** Unproven portal credentials go: back to those before setup mode, or to none. */
  function DropUnproven(p: Prov): Prov {
    if !p.join.unproven then p
    else
      var p1 := if p.setup.active && p.prev.provisioned then SetCredentials(p, p.prev.ssid, p.prev.pass).0
                else ClearCredentials(p);
      p1.(join := p1.join.(unproven := false))
  }

  function AttemptFailed(p: Prov, now: nat, rand: u32): Prov {
    if p.join.keepAp then
      var p1 := DropUnproven(p);
      p1.(join := p1.join.(state := Failed), setup := p1.setup.(idleSince := now))
    else ScheduleRetry(p, now, rand)
  }

  /** What the environment reports during one tick. */
  datatype Env = Env(
    now: nat, discCount: u32, discAfterJoin: u32, joinOk: bool, supplicantFailed: bool, connected: bool,
    takeOverOk: bool, rand: u32, apUp: bool, stations: nat)

  /** The state in which a pending attempt starts. */
  function Started(p: Prov, e: Env): Prov {
    p.(join := p.join.(state := Joining, nextEvent := e.now + JOIN_TIMEOUT, discBase := e.discAfterJoin))
  }

  function JoinTick(p: Prov, e: Env): Prov {
    var j := p.join;
    var disconnected := e.discCount != j.discBase;
    match j.state
    case Pending =>
      if j.keepAp && j.nextEvent == 0 then p.(join := j.(nextEvent := e.now + PORTAL_DELAY))
      else if e.now < j.nextEvent then p
      else
        if e.joinOk then Started(p, e) else AttemptFailed(Started(p, e), e.now, e.rand)
    case Joining =>
      if disconnected || e.supplicantFailed then AttemptFailed(p, e.now, e.rand)
      else if e.connected then
        var j1 := j.(unproven := false, retryDelay := RETRY_MIN);
        if j.keepAp then p.(join := j1.(state := Handover, nextEvent := e.now + HANDOVER_DELAY))
        else p.(join := j1.(state := Online))
      else if e.now >= j.nextEvent then AttemptFailed(p, e.now, e.rand)
      else p
    case Handover =>
      if disconnected then AttemptFailed(p, e.now, e.rand)
      else if e.now >= j.nextEvent then
        var p1 := p.(join := j.(keepAp := false));
        if e.takeOverOk then p1.(join := p1.join.(state := Online)) else AttemptFailed(p1, e.now, e.rand)
      else p
    case Online =>
      if disconnected then ScheduleRetry(p.(join := j.(discBase := e.discCount)), e.now, e.rand) else p
    case RetryWait => if e.now >= j.nextEvent then p.(join := j.(state := Pending)) else p
    case _ => p
  }

  lemma PendingTick(p: Prov, e: Env)
    requires p.join.state == Pending
    ensures JoinTick(p, e) ==
            if p.join.keepAp && p.join.nextEvent == 0 then p.(join := p.join.(nextEvent := e.now + PORTAL_DELAY))
            else if e.now < p.join.nextEvent then p
            else if e.joinOk then Started(p, e)
            else AttemptFailed(Started(p, e), e.now, e.rand)
  {
  }

  // ---- Setup mode --------------------------------------------------------

  predicate InFlight(j: Join) {
    j.keepAp && (j.state == Pending || j.state == Joining || j.state == Handover)
  }

  function EndSetup(p: Prov, why: SetupEnd): Prov {
    p.(setup := p.setup.(active := false, lastEnd := why), prev := NO_CREDS)
  }

  function OpenSetup(p: Prov, now: nat, apUp: bool): Prov {
    if p.setup.active || apUp then p
    else
      p.(setup := Setup(true, now, now, NoEnd), prev := p.creds,
         join := p.join.(state := Idle, keepAp := false, unproven := false))
  }

  function CloseSetup(p: Prov, why: SetupEnd): Prov {
    if !p.setup.active then p else JoinBegin(EndSetup(p, why), false, false).0
  }

  function Button(p: Prov, now: nat, apUp: bool): Prov {
    if p.setup.active then CloseSetup(p, ByRequest) else OpenSetup(p, now, apUp)
  }

  function SetupTick(p: Prov, e: Env): Prov {
    if !p.setup.active then p
    else if p.join.state == Online && !e.apUp then EndSetup(p, ByJoin)
    else
      var p1 := if e.stations > 0 || InFlight(p.join) then p.(setup := p.setup.(idleSince := e.now)) else p;
      if InFlight(p.join) then p1
      else if e.now - p1.setup.started >= SETUP_MAX then CloseSetup(p1, ByMax)
      else if e.now - p1.setup.idleSince >= SETUP_IDLE then CloseSetup(p1, ByIdle)
      else p1
  }

  function Tick(p: Prov, e: Env): Prov {
    SetupTick(JoinTick(p, e), e)
  }

  // ---- Runs --------------------------------------------------------------

  datatype Event =
    | Set(ssid: Text, pass: Text)
    | Clear
    | ReloadNow
    | RequestJoin(keepAp: bool, apUp: bool)
    | Configured(ssid: Text, pass: Text, apUp: bool)
    | CancelNow
    | RestoreNow(saved: JoinState)
    | Open(now: nat, apUp: bool)
    | Close(why: SetupEnd)
    | Press(now: nat, apUp: bool)
    | TickNow(e: Env)        // provisioning_tick
    | NvsTick(now: nat)      // nvs_tick
    | CommitNow              // a shell command's nvs_commit
    | OtherKeys(free: nat)   // the rest of the system stored or erased keys
    | Reboot(counted: bool)  // a power cut, whether or not the store then takes the boot count

  function React(p: Prov, e: Event): Prov {
    match e
    case Set(ssid, pass) => SetCredentials(p, ssid, pass).0
    case Clear => ClearCredentials(p)
    case ReloadNow => p.(creds := Reload(p.nvs))
    case RequestJoin(keepAp, apUp) => JoinBegin(p, keepAp, apUp).0
    case Configured(ssid, pass, apUp) => Configure(p, ssid, pass, apUp).0
    case CancelNow => Cancel(p)
    case RestoreNow(saved) => RestoreJoin(p, saved)
    case Open(now, apUp) => OpenSetup(p, now, apUp)
    case Close(why) => CloseSetup(p, why)
    case Press(now, apUp) => Button(p, now, apUp)
    case TickNow(env) => Tick(p, env)
    case NvsTick(now) => StoreTick(p, now)
    case CommitNow => Commit(p)
    case OtherKeys(free) => p.(nvs := p.nvs.(free := free), dirty := true)
    case Reboot(counted) => PowerOn(p.flash, counted)
  }

  function Run(p: Prov, es: seq<Event>): Prov
    decreases |es|
  {
    if es == [] then p else Run(React(p, es[0]), es[1..])
  }

  predicate Inv(p: Prov) {
    CredentialsOk(p) && JoinOk(p.join)
  }

  predicate CredentialsOk(p: Prov) {
    && CredsOk(p.creds) && CredsOk(p.prev) && NvsOk(p.nvs) && NvsOk(p.flash)
    && (!p.setup.active ==> p.prev == NO_CREDS)
    && (!p.dirty ==> p.flash == p.nvs && !p.dirtySeen)
  }

  predicate JoinOk(j: Join) {
    && (j.state == Online || j.state == RetryWait ==> !j.keepAp)
    && (j.state == Handover ==> j.keepAp && !j.unproven)
    && (j.state == Failed || j.state == Online ==> !j.unproven)
    && (j.state == Handover || j.state == Online ==> j.retryDelay == RETRY_MIN)
    && RETRY_MIN <= j.retryDelay <= RETRY_MAX
  }

  /** Power-on with this content in flash. Storing the boot count leaves a change pending. */
  function PowerOn(n: Nvs, counted: bool): Prov {
    Prov(Reload(n), n, Join(Idle, false, false, 0, RETRY_MIN, 0), Setup(false, 0, 0, NoEnd), NO_CREDS,
         n, counted, false, 0)
  }

  lemma AttemptFailedKeepsInv(p: Prov, now: nat, rand: u32)
    requires CredentialsOk(p) && RETRY_MIN <= p.join.retryDelay <= RETRY_MAX
    ensures CredentialsOk(AttemptFailed(p, now, rand)) && JoinOk(AttemptFailed(p, now, rand).join)
    ensures AttemptFailed(p, now, rand).join.state == if p.join.keepAp then Failed else RetryWait
  {
    SetIsAllOrNothingIff(p, p.prev.ssid, p.prev.pass);
  }

  lemma SetupTickKeepsInv(p: Prov, e: Env)
    requires Inv(p)
    ensures Inv(SetupTick(p, e))
  {
  }

  lemma JoinTickKeepsInv(p: Prov, e: Env)
    requires Inv(p)
    ensures Inv(JoinTick(p, e))
  {
    JoinTickKeepsCredentials(p, e);
    JoinTickKeepsJoinOk(p, e);
    hide JoinTick, CredentialsOk, JoinOk;
  }

  lemma JoinTickKeepsCredentials(p: Prov, e: Env)
    requires CredentialsOk(p) && RETRY_MIN <= p.join.retryDelay <= RETRY_MAX
    ensures CredentialsOk(JoinTick(p, e))
  {
    var off := p.(join := p.join.(keepAp := false));
    OtherJoin(p, Started(p, e));
    OtherJoin(p, off);
    AttemptFailedKeepsInv(p, e.now, e.rand);
    AttemptFailedKeepsInv(Started(p, e), e.now, e.rand);
    AttemptFailedKeepsInv(off, e.now, e.rand);
    OtherJoin(p, JoinTick(p, e));
    hide AttemptFailed, CredentialsOk, JoinOk, Jittered, NextBackoff;
  }

  lemma JoinTickKeepsJoinOk(p: Prov, e: Env)
    requires Inv(p)
    ensures JoinOk(JoinTick(p, e).join)
  {
    var off := p.(join := p.join.(keepAp := false));
    OtherJoin(p, Started(p, e));
    OtherJoin(p, off);
    AttemptFailedKeepsInv(p, e.now, e.rand);
    AttemptFailedKeepsInv(Started(p, e), e.now, e.rand);
    AttemptFailedKeepsInv(off, e.now, e.rand);
    hide AttemptFailed, CredentialsOk;
  }

  lemma OtherJoin(p: Prov, q: Prov)
    requires CredentialsOk(p)
    ensures q == p.(join := q.join) ==> CredentialsOk(q)
  {
  }

  lemma TickKeepsInv(p: Prov, e: Env)
    requires Inv(p)
    ensures Inv(JoinTick(p, e)) && Inv(Tick(p, e))
  {
    JoinTickKeepsInv(p, e);
    SetupTickKeepsInv(JoinTick(p, e), e);
    hide JoinTick, SetupTick;
  }

  lemma StepKeepsInv(p: Prov, e: Event)
    requires Inv(p)
    ensures Inv(React(p, e))
  {
    hide Tick, SetCredentials;
    match e {
      case Set(ssid, pass) => SetKeepsInv(p, ssid, pass);
      case Configured(ssid, pass, apUp) => ConfigureKeepsInv(p, ssid, pass, apUp);
      case TickNow(env) => TickKeepsInv(p, env);
      case _ =>
    }
    hide Configure;
  }

  lemma SetKeepsInv(p: Prov, ssid: Text, pass: Text)
    requires Inv(p)
    ensures Inv(SetCredentials(p, ssid, pass).0)
  {
    SetIsAllOrNothingIff(p, ssid, pass);
  }

  lemma ConfigureKeepsInv(p: Prov, ssid: Text, pass: Text, apUp: bool)
    requires Inv(p)
    ensures Inv(Configure(p, ssid, pass, apUp).0)
  {
    SetKeepsInv(p, ssid, pass);
    hide SetCredentials;
  }

  /** Over every run: online and waiting to retry never keep the SoftAP, the hand-over
      always does and with proven credentials, a failed join leaves nothing unproven; saved
      credentials always have a usable length; the backoff stays within 1 s and 5 min, and
      is 1 s once joined; with no change pending the flash holds what the cache holds. */
  lemma {:induction false} EveryRunKeepsInv(p: Prov, es: seq<Event>)
    requires Inv(p)
    ensures Inv(Run(p, es))
    decreases |es|
  {
    if es != [] {
      StepKeepsInv(p, es[0]);
      EveryRunKeepsInv(React(p, es[0]), es[1..]);
    }
  }

  // ---- What setup mode keeps ----------------------------------------------

  lemma SetKeepsSetup(p: Prov, ssid: Text, pass: Text)
    ensures var q := SetCredentials(p, ssid, pass).0;
            && q.setup == p.setup && q.prev == p.prev && q.join == p.join && q.flash == p.flash
            && (p.dirty ==> q.dirty) && q.dirtySeen == p.dirtySeen && q.dirtySince == p.dirtySince
  {
  }

  /** What a failed attempt leaves alone. */
  lemma AttemptFailedFrame(p: Prov, now: nat, rand: u32)
    ensures var q := AttemptFailed(p, now, rand);
            && q.prev == p.prev && q.flash == p.flash && (p.dirty ==> q.dirty)
            && q.dirtySeen == p.dirtySeen && q.dirtySince == p.dirtySince
            && (q.setup == p.setup || q.setup == p.setup.(idleSince := now))
            && (p.join.keepAp ==> q.join == p.join.(state := Failed, unproven := false))
            && (!p.join.keepAp ==> q.creds == p.creds && q.nvs == p.nvs && q.join.state == RetryWait && !q.join.keepAp)
  {
    SetKeepsSetup(p, p.prev.ssid, p.prev.pass);
    hide SetCredentials, Jittered, NextBackoff;
  }

  lemma JoinTickKeepsSetup(p: Prov, e: Env)
    ensures var q := JoinTick(p, e);
            && q.prev == p.prev && q.flash == p.flash && (p.dirty ==> q.dirty)
            && q.dirtySeen == p.dirtySeen && q.dirtySince == p.dirtySince
            && (q.setup == p.setup || q.setup == p.setup.(idleSince := e.now))
  {
    AttemptFailedFrame(p, e.now, e.rand);
    AttemptFailedFrame(Started(p, e), e.now, e.rand);
    AttemptFailedFrame(p.(join := p.join.(keepAp := false)), e.now, e.rand);
    hide AttemptFailed, Jittered, NextBackoff;
  }

  /** The credentials a setup mode started with are kept as long as it lasts. */
  lemma PrevStays(p: Prov, e: Event)
    requires p.setup.active && React(p, e).setup.active
    ensures React(p, e).prev == p.prev
  {
    match e {
      case Set(ssid, pass) => SetKeepsSetup(p, ssid, pass);
      case Configured(ssid, pass, _) => SetKeepsSetup(p, ssid, pass);
      case TickNow(env) => JoinTickKeepsSetup(p, env);
      case _ =>
    }
    hide SetCredentials, JoinTick;
  }

  ghost predicate StaysOpen(p: Prov, es: seq<Event>)
    decreases |es|
  {
    p.setup.active && (es == [] || StaysOpen(React(p, es[0]), es[1..]))
  }

  lemma {:induction false} PrevStaysOverRun(p: Prov, es: seq<Event>)
    requires StaysOpen(p, es)
    ensures Run(p, es).setup.active && Run(p, es).prev == p.prev
    decreases |es|
  {
    if es != [] {
      PrevStays(p, es[0]);
      PrevStaysOverRun(React(p, es[0]), es[1..]);
    }
  }

  // ---- Setup time-outs ---------------------------------------------------

  /** No time-out ends setup mode while a portal join is in flight, and the idle time starts
      over. */
  lemma NoTimeoutDuringPortalJoin(p: Prov, e: Env)
    requires Inv(p) && p.setup.active && InFlight(JoinTick(p, e).join)
    ensures Tick(p, e).setup.active && Tick(p, e).join == JoinTick(p, e).join
    ensures Tick(p, e).setup.idleSince == e.now
  {
    JoinTickKeepsSetup(p, e);
    hide JoinTick;
  }

  predicate NotBefore(e: Event, t: nat) {
    match e
    case Open(now, _) => now >= t
    case Press(now, _) => now >= t
    case TickNow(env) => env.now >= t
    case _ => true
  }

  /** A tick that counts as use of setup mode: a client, a portal join, or one just failed. */
  predicate UsedIn(p: Prov, e: Env) {
    e.stations > 0 || InFlight(JoinTick(p, e).join) || (p.join.state != Failed && JoinTick(p, e).join.state == Failed)
  }

  lemma UseIsRemembered(p: Prov, e: Env)
    requires Inv(p) && UsedIn(p, e) && Tick(p, e).setup.active
    ensures Tick(p, e).setup.idleSince == e.now
  {
    hide SetCredentials, Jittered, NextBackoff;
  }

  lemma IdleSinceGrows(p: Prov, e: Event, t: nat)
    requires p.setup.active && React(p, e).setup.active && p.setup.idleSince >= t && NotBefore(e, t)
    ensures React(p, e).setup.idleSince >= t
  {
    match e {
      case Set(ssid, pass) => SetKeepsSetup(p, ssid, pass);
      case Configured(ssid, pass, _) => SetKeepsSetup(p, ssid, pass);
      case TickNow(env) => JoinTickKeepsSetup(p, env);
      case _ =>
    }
    hide SetCredentials, JoinTick;
  }

  lemma {:induction false} IdleSinceGrowsOverRun(p: Prov, es: seq<Event>, t: nat)
    requires StaysOpen(p, es) && p.setup.idleSince >= t
    requires forall e :: e in es ==> NotBefore(e, t)
    ensures Run(p, es).setup.idleSince >= t
    decreases |es|
  {
    if es != [] {
      IdleSinceGrows(p, es[0], t);
      IdleSinceGrowsOverRun(React(p, es[0]), es[1..], t);
    }
  }

  /** The idle time-out comes no earlier than 10 minutes after the last use, however many
      events lie between. */
  lemma IdleTimeoutWaits(p: Prov, use: Env, es: seq<Event>, e: Env)
    requires Inv(p) && UsedIn(p, use) && StaysOpen(Tick(p, use), es)
    requires (forall x :: x in es ==> NotBefore(x, use.now)) && e.now >= use.now
    requires var q := Tick(Run(Tick(p, use), es), e); !q.setup.active && q.setup.lastEnd == ByIdle
    ensures e.now >= use.now + SETUP_IDLE
  {
    UseIsRemembered(p, use);
    PrevStaysOverRun(Tick(p, use), es);
    IdleSinceGrowsOverRun(Tick(p, use), es, use.now);
    var r := Run(Tick(p, use), es);
    hide Run;
    TimeoutIsLate(r, e, use.now);
  }

  lemma TimeoutIsLate(r: Prov, e: Env, t: nat)
    requires r.setup.active && r.setup.idleSince >= t
    requires !Tick(r, e).setup.active && Tick(r, e).setup.lastEnd == ByIdle && e.now >= t
    ensures e.now >= t + SETUP_IDLE
  {
    JoinTickKeepsSetup(r, e);
    hide JoinTick;
  }

  // ---- Backoff -----------------------------------------------------------

  /** The delay after k failures in a row. */
  function DelayAfter(k: nat): nat {
    if k == 0 then RETRY_MIN else NextBackoff(DelayAfter(k - 1))
  }

  /** 1 s doubled per failure, capped at 5 minutes. */
  lemma {:induction false} DelayDoubles(k: nat)
    ensures DelayAfter(k) == if k <= 8 then 1_000_000 * Pow2(k) else RETRY_MAX
  {
    if k > 0 {
      DelayDoubles(k - 1);
      assert k == 9 ==> Pow2(8) == 0x100 by { assert Pow2(4) == 16 && Pow2(6) == 64; }
      if k <= 8 {
        PowGrows(k - 1, 7);
        assert Pow2(7) == 128 by { assert Pow2(4) == 16; }
      }
    }
  }

  lemma {:induction false} PowGrows(a: nat, b: nat)
    requires a <= b
    ensures Pow2(a) <= Pow2(b)
  {
    if a < b {
      PowGrows(a, b - 1);
    }
  }

  /** A retry waits for its backoff, up to a fifth more or less, and so never under 0.8 s. */
  lemma RetryWaitsForBackoff(p: Prov, now: nat, rand: u32)
    requires Inv(p) && !p.join.keepAp
    ensures var j := AttemptFailed(p, now, rand).join;
            var d := p.join.retryDelay;
            && j.state == RetryWait && j.retryDelay == NextBackoff(d)
            && d - d / 5 <= j.nextEvent - now <= d + d / 5
            && j.nextEvent - now >= 800_000
  {
  }

  // ---- The join goes on --------------------------------------------------

  /** The wait for the present delay, up to a fifth more or less, and the next delay: twice
      this one, up to 5 minutes. */
  predicate Waits(j: Join, now: nat, j': Join) {
    && j'.state == RetryWait && !j'.keepAp
    && j.retryDelay - j.retryDelay / 5 <= j'.nextEvent - now <= j.retryDelay + j.retryDelay / 5
    && j'.retryDelay == if 2 * j.retryDelay > RETRY_MAX then RETRY_MAX else 2 * j.retryDelay
  }

  /** An attempt starts in this tick. */
  predicate Attempts(j: Join, e: Env) {
    j.state == Pending && !(j.keepAp && j.nextEvent == 0) && e.now >= j.nextEvent
  }

  /** Where a tick takes the join, told by its fields. */
  predicate Transition(j: Join, e: Env, j': Join) {
    var lost := e.discCount != j.discBase;
    var fails := if j.keepAp then j'.state == Failed && j'.keepAp else Waits(j, e.now, j');
    match j.state
    case Pending =>
      if Attempts(j, e) then
        if e.joinOk then j' == Join(Joining, j.keepAp, j.unproven, e.now + 30_000_000, j.retryDelay, e.discAfterJoin)
        else fails
      else if e.now >= j.nextEvent then j' == j.(nextEvent := e.now + 1_000_000)
      else j' == j
    case Joining =>
      if lost || e.supplicantFailed then fails
      else if e.connected then
        && !j'.unproven && j'.retryDelay == 1_000_000 && j'.keepAp == j.keepAp
        && if j.keepAp then j'.state == Handover && j'.nextEvent == e.now + 15_000_000 else j'.state == Online
      else if e.now >= j.nextEvent then fails
      else j' == j
    case Handover =>
      if lost then j'.state == Failed
      else if e.now < j.nextEvent then j' == j
      else if e.takeOverOk then j' == j.(state := Online, keepAp := false)
      else Waits(j, e.now, j')
    case Online => if lost then Waits(j, e.now, j') && j'.discBase == e.discCount else j' == j
    case RetryWait => j' == if e.now >= j.nextEvent then j.(state := Pending) else j
    case _ => j' == j
  }

  lemma ScheduleRetryWaits(p: Prov, now: nat, rand: u32)
    requires !p.join.keepAp && RETRY_MIN <= p.join.retryDelay <= RETRY_MAX
    ensures Waits(p.join, now, ScheduleRetry(p, now, rand).join)
    ensures ScheduleRetry(p, now, rand).join.discBase == p.join.discBase
  {
  }

  lemma AttemptFailedWaits(p: Prov, now: nat, rand: u32)
    requires RETRY_MIN <= p.join.retryDelay <= RETRY_MAX
    ensures var j := AttemptFailed(p, now, rand).join;
            if p.join.keepAp then j.state == Failed && j.keepAp else Waits(p.join, now, j)
  {
    AttemptFailedFrame(p, now, rand);
    if !p.join.keepAp {
      ScheduleRetryWaits(p, now, rand);
    }
    hide Waits, ScheduleRetry, DropUnproven;
  }

  lemma JoinTickIsTransition(p: Prov, e: Env)
    requires Inv(p)
    ensures Transition(p.join, e, JoinTick(p, e).join)
  {
    AttemptFailedWaits(p, e.now, e.rand);
    AttemptFailedWaits(Started(p, e), e.now, e.rand);
    AttemptFailedWaits(p.(join := p.join.(keepAp := false)), e.now, e.rand);
    if p.join.state == Online {
      ScheduleRetryWaits(p.(join := p.join.(discBase := e.discCount)), e.now, e.rand);
    }
    hide AttemptFailed, ScheduleRetry, CredentialsOk;
  }

  // ---- A waiting board tries again ---------------------------------------

  /** An event that leaves the join to the tick, in setup mode or not. */
  predicate LeavesJoin(p: Prov, e: Event) {
    && (e.Set? || e.Clear? || e.ReloadNow? || e.TickNow? || e.NvsTick? || e.CommitNow? || e.OtherKeys?)
    && React(p, e).setup.active == p.setup.active
  }

  predicate AllLeaveJoin(p: Prov, es: seq<Event>)
    decreases |es|
  {
    es == [] || (LeavesJoin(p, es[0]) && AllLeaveJoin(React(p, es[0]), es[1..]))
  }

  /** Ticks come in order and at most d apart, the first one counting from last. */
  predicate TicksWithin(es: seq<Event>, last: nat, d: nat)
    decreases |es|
  {
    es == []
    || if es[0].TickNow? then last <= es[0].e.now <= last + d && TicksWithin(es[1..], es[0].e.now, d)
       else TicksWithin(es[1..], last, d)
  }

  function LastTick(es: seq<Event>, last: nat): nat
    decreases |es|
  {
    if es == [] then last else LastTick(es[1..], if es[0].TickNow? then es[0].e.now else last)
  }

  /** When the first attempt starts. */
  function FirstAttempt(p: Prov, es: seq<Event>): Option<nat>
    decreases |es|
  {
    if es == [] then None
    else if es[0].TickNow? && Attempts(p.join, es[0].e) then Some(es[0].e.now)
    else FirstAttempt(React(p, es[0]), es[1..])
  }

  lemma JoinIsLeft(p: Prov, e: Event)
    requires Inv(p) && LeavesJoin(p, e)
    ensures React(p, e).join == if e.TickNow? then JoinTick(p, e.e).join else p.join
  {
    match e {
      case Set(ssid, pass) => SetKeepsSetup(p, ssid, pass);
      case TickNow(env) => JoinTickKeepsSetup(p, env);
      case _ =>
    }
    hide SetCredentials, JoinTick;
  }

  lemma {:induction false} PendingAttempts(p: Prov, es: seq<Event>, last: nat, d: nat)
    requires Inv(p) && p.join.state == Pending && !p.join.keepAp && p.join.nextEvent <= last
    requires AllLeaveJoin(p, es) && TicksWithin(es, last, d) && LastTick(es, last) > last
    ensures FirstAttempt(p, es).Some? && FirstAttempt(p, es).value <= last + d
    decreases |es|
  {
    if es[0].TickNow? {
      assert Attempts(p.join, es[0].e);
    } else {
      StepKeepsInv(p, es[0]);
      JoinIsLeft(p, es[0]);
      hide React, Inv;
      PendingAttempts(React(p, es[0]), es[1..], last, d);
    }
  }

  /** With ticks at most d apart, and nobody who starts, cancels or restores a join, opens or
      ends setup mode or restarts the board, one that waits to retry at time last starts its next
      attempt less than 2d after its wait is over, whatever else happens. */
  lemma {:induction false} WaitingBoardTriesAgain(p: Prov, es: seq<Event>, last: nat, d: nat)
    requires Inv(p) && p.join.state == RetryWait && last < p.join.nextEvent
    requires AllLeaveJoin(p, es) && TicksWithin(es, last, d) && LastTick(es, last) >= p.join.nextEvent + d
    ensures FirstAttempt(p, es).Some? && FirstAttempt(p, es).value < p.join.nextEvent + 2 * d
    decreases |es|
  {
    var q := React(p, es[0]);
    StepKeepsInv(p, es[0]);
    JoinIsLeft(p, es[0]);
    hide React;
    if es[0].TickNow? {
      JoinTickIsTransition(p, es[0].e);
      hide Inv, JoinTick;
      if es[0].e.now >= p.join.nextEvent {
        PendingAttempts(q, es[1..], es[0].e.now, d);
      } else {
        WaitingBoardTriesAgain(q, es[1..], es[0].e.now, d);
      }
    } else {
      hide Inv;
      WaitingBoardTriesAgain(q, es[1..], last, d);
    }
  }
}

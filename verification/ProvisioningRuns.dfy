// Wi-Fi credentials over whole runs (src/provisioning.c): when a failed portal join gives
// untried ones up, and which ones a reboot finds while the store defers its commits.

module ProvisioningRuns {
  import opened Words
  import opened Provisioning

  // ---- Credentials on trial ----------------------------------------------

  /** A portal join with credentials never used before, from its request to its outcome. */
  predicate OnTrial(p: Prov) {
    p.join.keepAp && p.join.unproven && (p.join.state == Pending || p.join.state == Joining)
  }

  /** The reports on which a tick ends the attempt as failed. */
  predicate AttemptFails(j: Join, e: Env) {
    match j.state
    case Pending => !(j.keepAp && j.nextEvent == 0) && e.now >= j.nextEvent && !e.joinOk
    case Joining =>
      e.discCount != j.discBase || e.supplicantFailed || (!e.connected && e.now >= j.nextEvent)
    case Handover => e.discCount != j.discBase || (e.now >= j.nextEvent && !e.takeOverOk)
    case _ => false
  }

  /** The reports on which a tick takes the attempt for successful. */
  predicate AttemptWins(j: Join, e: Env) {
    j.state == Joining && e.discCount == j.discBase && !e.supplicantFailed && e.connected
  }

  /** A tick in which credentials on trial fail. */
  predicate PortalJoinFails(p: Prov, e: Env) {
    OnTrial(p) && AttemptFails(p.join, e)
  }

  /** Something other than the outcome of the attempt takes the credentials off trial. */
  predicate Interrupts(p: Prov, e: Event) {
    match e
    case RequestJoin(_, _) => p.creds.provisioned
    case CancelNow => p.join.state == Pending
    case RestoreNow(saved) => saved == Idle || saved == Failed || p.creds.provisioned
    case Open(_, apUp) => !p.setup.active && !apUp
    case Close(_) => p.setup.active && p.creds.provisioned
    case Press(_, apUp) => if p.setup.active then p.creds.provisioned else !apUp
    case Reboot(_) => true
    case _ => false
  }

  predicate Ends(p: Prov, e: Event) {
    Interrupts(p, e) || (e.TickNow? && (AttemptFails(p.join, e.e) || AttemptWins(p.join, e.e)))
  }

  lemma TickAndTrial(p: Prov, e: Env)
    requires Inv(p)
    ensures OnTrial(Tick(p, e)) <==> OnTrial(p) && !AttemptFails(p.join, e) && !AttemptWins(p.join, e)
  {
    JoinTickAndTrial(p, e);
    SetupTickAndTrial(JoinTick(p, e), e);
    hide JoinTick, SetupTick, AttemptFails, AttemptWins, OnTrial;
  }

  lemma SetupTickAndTrial(p: Prov, e: Env)
    ensures OnTrial(SetupTick(p, e)) <==> OnTrial(p)
  {
  }

  lemma JoinTickAndTrial(p: Prov, e: Env)
    requires Inv(p)
    ensures OnTrial(JoinTick(p, e)) <==> OnTrial(p) && !AttemptFails(p.join, e) && !AttemptWins(p.join, e)
  {
    AttemptFailedFrame(p, e.now, e.rand);
    AttemptFailedFrame(Started(p, e), e.now, e.rand);
    AttemptFailedFrame(p.(join := p.join.(keepAp := false)), e.now, e.rand);
    hide AttemptFailed, Jittered, NextBackoff;
  }

  lemma StepAndTrial(p: Prov, e: Event)
    requires Inv(p) && !e.Configured?
    ensures OnTrial(React(p, e)) <==> OnTrial(p) && !Ends(p, e)
  {
    match e {
      case TickNow(env) => TickAndTrial(p, env);
      case Set(ssid, pass) => SetKeepsSetup(p, ssid, pass);
      case _ =>
    }
    hide Tick, SetCredentials, AttemptFails, AttemptWins;
  }

  /** No event of the run ends the trial. */
  ghost predicate Undisturbed(p: Prov, es: seq<Event>)
    decreases |es|
  {
    es == [] || (!Ends(p, es[0]) && Undisturbed(React(p, es[0]), es[1..]))
  }

  predicate NoneConfigured(es: seq<Event>) {
    forall e :: e in es ==> !e.Configured?
  }

  lemma {:induction false} RunAndTrial(p: Prov, es: seq<Event>)
    requires Inv(p) && NoneConfigured(es)
    ensures OnTrial(Run(p, es)) <==> OnTrial(p) && Undisturbed(p, es)
    decreases |es|
  {
    if es != [] {
      assert es[0] in es && forall e :: e in es[1..] ==> e in es;
      StepKeepsInv(p, es[0]);
      StepAndTrial(p, es[0]);
      RunAndTrial(React(p, es[0]), es[1..]);
    }
    hide Inv, OnTrial, Ends, React;
  }

  // ---- What a failed attempt does ----------------------------------------

  /** Room in the store for both credential strings. */
  predicate StoreTakes(n: Nvs, c: Creds) {
    && (n.ssid.Some? || n.free >= 1)
    && (c.pass == [] || n.pass.Some? || n.free >= if n.ssid.Some? then 1 else 2)
  }

  /** What a failed trial falls back to. */
  function Fallback(p: Prov): Creds {
    if p.setup.active && p.prev.provisioned then p.prev else NO_CREDS
  }

  predicate FallbackFits(p: Prov) {
    p.setup.active && p.prev.provisioned ==> StoreTakes(p.nvs, p.prev)
  }

  /** What setup mode remembers is taken back if the store has room. */
  lemma PrevIsTaken(p: Prov)
    requires CredsOk(p.prev) && p.prev.provisioned && p.setup.active
    ensures FallbackFits(p) ==> SetCredentials(p, p.prev.ssid, p.prev.pass).1 == Ok
    ensures Creds(p.prev.ssid, p.prev.pass, true) == p.prev == Fallback(p)
  {
  }

  predicate SameStore(p: Prov, q: Prov) {
    p.creds == q.creds && p.nvs == q.nvs && p.dirty == q.dirty && p.flash == q.flash
  }

  /** What is dropped depends on nothing in the join but the unproven flag. */
  lemma DropIgnoresJoin(p: Prov, q: Prov)
    requires q == p.(join := q.join) && p.join.unproven && q.join.unproven
    ensures SameStore(DropUnproven(q), DropUnproven(p))
    ensures var d := DropUnproven(q);
            d.flash == p.flash && d.setup == p.setup && d.prev == p.prev && !d.join.unproven
  {
  }

  lemma FailedTrialDrops(p: Prov, e: Env)
    requires Inv(p) && PortalJoinFails(p, e)
    ensures var p' := JoinTick(p, e);
            && SameStore(p', DropUnproven(p)) && p'.flash == p.flash
            && p'.setup == p.setup.(idleSince := e.now) && p'.prev == p.prev
            && p'.join.state == Failed && !p'.join.unproven
  {
    DropIgnoresJoin(p, p);
    DropIgnoresJoin(p, Started(p, e));
    hide DropUnproven, ScheduleRetry, Inv;
  }

  /** In setup mode on a provisioned board a failed join brings back the credentials from
      before setup mode, in RAM and in the store's cache, exactly when the store has room. */
  lemma FailedPortalJoinRestoresIff(p: Prov, e: Env)
    requires Inv(p) && PortalJoinFails(p, e) && p.setup.active && p.prev.provisioned
    ensures var p' := JoinTick(p, e);
            && (p'.creds == p.prev <==> StoreTakes(p.nvs, p.prev) || p.creds == p.prev)
            && (StoreTakes(p.nvs, p.prev) ==> Reload(p'.nvs) == p.prev && p'.dirty)
            && p'.join.state == Failed && !p'.join.unproven
  {
    FailedTrialDrops(p, e);
    SetIsAllOrNothingIff(p, p.prev.ssid, p.prev.pass);
    hide JoinTick, AttemptFails;
  }

  /** Otherwise it clears them there. */
  lemma FailedPortalJoinClears(p: Prov, e: Env)
    requires Inv(p) && PortalJoinFails(p, e) && !(p.setup.active && p.prev.provisioned)
    ensures var p' := JoinTick(p, e);
            && p'.creds == NO_CREDS == Reload(p'.nvs) && !HasKey(p'.nvs)
            && p'.join.state == Failed && !p'.join.unproven
            && (p'.dirty || p'.nvs == p'.flash)
  {
    FailedTrialDrops(p, e);
    hide JoinTick, AttemptFails;
  }

  lemma UnfailedTickKeepsCreds(p: Prov, e: Env)
    requires Inv(p) && !PortalJoinFails(p, e)
    ensures JoinTick(p, e).creds == p.creds && JoinTick(p, e).nvs == p.nvs
  {
    hide SetCredentials, Jittered, NextBackoff;
  }

  lemma SetupTickKeepsCreds(p: Prov, e: Env)
    ensures SetupTick(p, e).creds == p.creds && SetupTick(p, e).nvs == p.nvs
    ensures SetupTick(p, e).flash == p.flash && SetupTick(p, e).dirty == p.dirty
  {
  }

  /** What ending an attempt as failed owes its callers: unproven credentials are given up
      exactly if the SoftAP was kept. */
  predicate EndsAttempt(p: Prov, q: Prov) {
    && (p.join.keepAp && p.join.unproven && FallbackFits(p) ==>
          q.creds == Fallback(p) == Reload(q.nvs) && q.join.state == Failed)
    && (!(p.join.keepAp && p.join.unproven) ==> q.creds == p.creds && q.nvs == p.nvs)
    && q.flash == p.flash && (p.dirty ==> q.dirty)
  }

  /** What one tick of the join owes: a trial goes on until its outcome, and credentials
      change only when it fails. */
  predicate MovesJoin(p: Prov, q: Prov, e: Env) {
    && (OnTrial(q) <==> OnTrial(p) && !AttemptFails(p.join, e) && !AttemptWins(p.join, e))
    && (!PortalJoinFails(p, e) ==> q.creds == p.creds && q.nvs == p.nvs)
    && q.flash == p.flash && q.prev == p.prev && q.setup.active == p.setup.active
  }

  lemma JoinTickMovesJoin(p: Prov, e: Env)
    requires Inv(p)
    ensures MovesJoin(p, JoinTick(p, e), e)
  {
    JoinTickAndTrial(p, e);
    JoinTickKeepsSetup(p, e);
    if !PortalJoinFails(p, e) {
      UnfailedTickKeepsCreds(p, e);
    }
    hide JoinTick, OnTrial, AttemptFails, AttemptWins;
  }

  /** What moving the join needs of the invariant. */
  lemma InvOfJoin(p: Prov)
    requires Inv(p)
    ensures CredentialsOk(p) && RETRY_MIN <= p.join.retryDelay <= RETRY_MAX
    ensures p.join.state == Online || p.join.state == RetryWait ==> !p.join.keepAp
  {
  }

  /** Over every run from an accepted portal configuration: a failing attempt gives the
      credentials in RAM up if and only if the SoftAP was up at the configuration and nothing
      has ended the trial since (button, setup opened or closed, another join, a cancel or
      restore, an earlier outcome, a reboot). What it falls back to is then in RAM. */
  lemma GivenUpIff(p: Prov, ssid: Text, pass: Text, apUp: bool, es: seq<Event>, e: Env)
    requires Inv(p) && Configure(p, ssid, pass, apUp).1 == Ok && NoneConfigured(es)
    requires var r := Run(Configure(p, ssid, pass, apUp).0, es);
             AttemptFails(r.join, e) && FallbackFits(r) && r.creds != Fallback(r)
    ensures var q := Configure(p, ssid, pass, apUp).0;
            var r := Run(q, es);
            && (Tick(r, e).creds != r.creds <==> apUp && Undisturbed(q, es))
            && (Tick(r, e).creds != r.creds ==> Tick(r, e).creds == Fallback(r) == Reload(Tick(r, e).nvs))
  {
    var q := Configure(p, ssid, pass, apUp).0;
    var r := Run(q, es);
    ConfigureStartsTrial(p, ssid, pass, apUp);
    EveryRunKeepsInv(q, es);
    RunAndTrial(q, es);
    hide Run, Undisturbed, Configure, Inv;
    FailingTick(r, e);
  }

  lemma FailingTick(r: Prov, e: Env)
    requires Inv(r) && AttemptFails(r.join, e) && FallbackFits(r)
    ensures OnTrial(r) ==> Tick(r, e).creds == Fallback(r) == Reload(Tick(r, e).nvs)
    ensures !OnTrial(r) ==> Tick(r, e).creds == r.creds && Tick(r, e).nvs == r.nvs
  {
    SetupTickKeepsCreds(JoinTick(r, e), e);
    if !OnTrial(r) {
      UnfailedTickKeepsCreds(r, e);
    } else if r.setup.active && r.prev.provisioned {
      FailedPortalJoinRestoresIff(r, e);
    } else {
      FailedPortalJoinClears(r, e);
    }
    hide JoinTick, SetupTick, AttemptFails, Inv, StoreTakes;
  }

  lemma ConfigureStartsTrial(p: Prov, ssid: Text, pass: Text, apUp: bool)
    requires Inv(p) && Configure(p, ssid, pass, apUp).1 == Ok
    ensures var q := Configure(p, ssid, pass, apUp).0;
            && Inv(q) && (OnTrial(q) <==> apUp) && q.join.unproven && q.join.state == Pending && q.join.nextEvent == 0
            && q.creds == Creds(ssid, pass, true) == Reload(q.nvs)
            && q.dirty && q.dirtySeen == p.dirtySeen && q.dirtySince == p.dirtySince && q.flash == p.flash
  {
    StepKeepsInv(p, Configured(ssid, pass, apUp));
    SetIsAllOrNothingIff(p, ssid, pass);
  }

  // ---- Untried credentials that stay -------------------------------------

  /** Events that do not store, erase or reload credentials of their own. */
  predicate WritesNone(e: Event) {
    !(e.Set? || e.Clear? || e.Configured? || e.ReloadNow? || e.Reboot?)
  }

  predicate SameKeys(a: Nvs, b: Nvs) {
    a.ssid == b.ssid && a.pass == b.pass && a.flag == b.flag
  }

  lemma OffTrialStep(p: Prov, e: Event)
    requires Inv(p) && !OnTrial(p) && WritesNone(e)
    ensures var p' := React(p, e);
            Inv(p') && !OnTrial(p') && p'.creds == p.creds && SameKeys(p'.nvs, p.nvs)
  {
    StepKeepsInv(p, e);
    StepAndTrial(p, e);
    if e.TickNow? {
      UnfailedTickKeepsCreds(p, e.e);
      SetupTickKeepsCreds(JoinTick(p, e.e), e.e);
    }
    hide JoinTick, SetupTick, Inv, OnTrial, Ends;
  }

  /** Credentials not on trial are never given up, whatever fails and however often. */
  lemma {:induction false} OffTrialNothingIsDropped(p: Prov, es: seq<Event>)
    requires Inv(p) && !OnTrial(p) && forall e :: e in es ==> WritesNone(e)
    ensures Run(p, es).creds == p.creds && SameKeys(Run(p, es).nvs, p.nvs) && !OnTrial(Run(p, es))
    decreases |es|
  {
    if es != [] {
      assert es[0] in es && forall e :: e in es[1..] ==> e in es;
      OffTrialStep(p, es[0]);
      OffTrialNothingIsDropped(React(p, es[0]), es[1..]);
    }
    hide Inv, OnTrial, React, WritesNone;
  }

  /** In particular those configured while no SoftAP was up, in setup mode or not. */
  lemma WithoutSoftApNothingIsDropped(p: Prov, ssid: Text, pass: Text, es: seq<Event>)
    requires Inv(p) && Configure(p, ssid, pass, false).1 == Ok && forall e :: e in es ==> WritesNone(e)
    ensures Run(Configure(p, ssid, pass, false).0, es).creds == Creds(ssid, pass, true)
  {
    ConfigureStartsTrial(p, ssid, pass, false);
    OffTrialNothingIsDropped(Configure(p, ssid, pass, false).0, es);
    hide Configure, Run;
  }

  /** And those whose trial was interrupted: they are still there, in RAM and store, and stay
      over every run that writes no others. */
  lemma InterruptedTrialKeepsCredentials(p: Prov, e: Event, es: seq<Event>)
    requires Inv(p) && OnTrial(p) && Interrupts(p, e) && !e.Reboot?
    requires forall x :: x in es ==> WritesNone(x)
    ensures React(p, e).creds == p.creds && React(p, e).nvs == p.nvs && !OnTrial(React(p, e))
    ensures Run(React(p, e), es).creds == p.creds && SameKeys(Run(React(p, e), es).nvs, p.nvs)
  {
    StepKeepsInv(p, e);
    StepAndTrial(p, e);
    OffTrialNothingIsDropped(React(p, e), es);
    hide Run;
  }

  // ---- RAM and the store's cache -----------------------------------------

  /** RAM holds what reloading the cache would give. */
  predicate Agrees(p: Prov) {
    p.creds == Reload(p.nvs)
  }

  /** No write of credentials in this event puts one call's SSID beside another's passphrase. */
  predicate WritesFit(p: Prov, e: Event) {
    match e
    case Set(ssid, pass) => !Splits(p.nvs, ssid, pass)
    case Configured(ssid, pass, _) => !Splits(p.nvs, ssid, pass)
    case TickNow(env) =>
      PortalJoinFails(p, env) && p.setup.active && p.prev.provisioned ==> !Splits(p.nvs, p.prev.ssid, p.prev.pass)
    case _ => true
  }

  lemma TickKeepsAgreementIff(p: Prov, e: Env)
    requires Inv(p) && Agrees(p)
    ensures Agrees(Tick(p, e)) <==> WritesFit(p, TickNow(e))
  {
    SetupTickKeepsCreds(JoinTick(p, e), e);
    if PortalJoinFails(p, e) {
      FailedTrialDrops(p, e);
      SetIsAllOrNothingIff(p, p.prev.ssid, p.prev.pass);
    } else {
      UnfailedTickKeepsCreds(p, e);
    }
    hide JoinTick, SetupTick, AttemptFails, SetCredentials;
  }

  /** RAM and cache go on agreeing exactly when no write splits a pair. */
  lemma StepKeepsAgreementIff(p: Prov, e: Event)
    requires Inv(p) && Agrees(p)
    ensures Agrees(React(p, e)) <==> WritesFit(p, e)
  {
    match e {
      case Set(ssid, pass) => SetIsAllOrNothingIff(p, ssid, pass);
      case Configured(ssid, pass, _) => SetIsAllOrNothingIff(p, ssid, pass);
      case TickNow(env) => TickKeepsAgreementIff(p, env);
      case _ =>
    }
    hide Tick, SetCredentials, PortalJoinFails;
  }

  ghost predicate AllFit(p: Prov, es: seq<Event>)
    decreases |es|
  {
    es == [] || (WritesFit(p, es[0]) && AllFit(React(p, es[0]), es[1..]))
  }

  lemma {:induction false} RunKeepsAgreement(p: Prov, es: seq<Event>)
    requires Inv(p) && Agrees(p) && AllFit(p, es)
    ensures Agrees(Run(p, es)) && Inv(Run(p, es))
    decreases |es|
  {
    if es != [] {
      StepKeepsInv(p, es[0]);
      StepKeepsAgreementIff(p, es[0]);
      RunKeepsAgreement(React(p, es[0]), es[1..]);
    }
    hide Inv, Agrees, WritesFit, React;
  }

  // ---- What a reboot finds -----------------------------------------------

  /** This event writes the store's sector. */
  predicate Commits(p: Prov, e: Event) {
    && p.dirty
    && match e
       case CommitNow => true
       case NvsTick(now) => !JoinBusy(p.join) || (p.dirtySeen && now - p.dirtySince >= MAX_HOLD)
       case _ => false
  }

  lemma CommitStores(p: Prov, e: Event)
    requires Inv(p)
    ensures Commits(p, e) ==> React(p, e).flash == React(p, e).nvs == p.nvs && React(p, e).creds == p.creds
    ensures Commits(p, e) ==> !React(p, e).dirty
    ensures !Commits(p, e) ==> React(p, e).flash == p.flash
  {
    match e {
      case Set(ssid, pass) => SetIsAllOrNothingIff(p, ssid, pass);
      case Configured(ssid, pass, _) => SetIsAllOrNothingIff(p, ssid, pass);
      case TickNow(env) =>
        SetupTickKeepsCreds(JoinTick(p, env), env);
        JoinTickKeepsSetup(p, env);
      case _ =>
    }
    hide JoinTick, SetupTick, SetCredentials;
  }

  lemma {:induction false} RunSplit(p: Prov, es: seq<Event>, k: nat)
    requires k <= |es|
    ensures Run(p, es) == Run(Run(p, es[..k]), es[k..])
    decreases k
  {
    if k == 0 {
      assert es[..0] == [] && es[0..] == es;
    } else {
      RunSplit(React(p, es[0]), es[1..], k - 1);
      assert es[..k][1..] == es[1..][..k - 1] && es[1..][k - 1..] == es[k..];
    }
    hide React;
  }

  /** Over every run from power-on there is a last commit (or none), and what a reboot loads
      is exactly what the store's cache held then. */
  lemma {:induction false} RebootFindsLastCommit(n: Nvs, first: bool, es: seq<Event>, again: bool) returns (k: nat)
    requires NvsOk(n)
    ensures k <= |es|
    ensures var p := PowerOn(n, first);
            && React(Run(p, es), Reboot(again)).creds == Reload(Run(p, es[..k]).nvs)
            && Run(p, es).flash == Run(p, es[..k]).nvs
            && (k > 0 ==> Commits(Run(p, es[..k - 1]), es[k - 1]))
            && (forall i :: k <= i < |es| ==> !Commits(Run(p, es[..i]), es[i]))
    decreases |es|
  {
    hide *;
    var p := PowerOn(n, first);
    RebootLoads(Run(p, es), again);
    if es == [] {
      k := 0;
      NothingRun(n, first, es);
    } else {
      var m := |es| - 1;
      RunSplit(p, es, m);
      var q := Run(p, es[..m]);
      PowerOnKeepsInv(n, first);
      EveryRunKeepsInv(p, es[..m]);
      LastStep(q, es[m..]);
      CommitStores(q, es[m]);
      assert es[..|es|] == es;
      if Commits(q, es[m]) {
        k := |es|;
      } else {
        k := RebootFindsLastCommit(n, first, es[..m], again);
        assert forall i :: 0 <= i <= m ==> es[..m][..i] == es[..i];
        assert forall i :: k <= i < m ==> !Commits(Run(p, es[..m][..i]), es[..m][i]);
      }
    }
  }

  lemma RebootLoads(p: Prov, again: bool)
    ensures React(p, Reboot(again)).creds == Reload(p.flash)
  {
  }

  lemma NothingRun(n: Nvs, first: bool, es: seq<Event>)
    requires es == []
    ensures var p := PowerOn(n, first); es[..0] == [] && Run(p, es) == p && p.flash == p.nvs == n
  {
  }

  lemma PowerOnKeepsInv(n: Nvs, first: bool)
    requires NvsOk(n)
    ensures Inv(PowerOn(n, first))
  {
  }

  lemma LastStep(q: Prov, es: seq<Event>)
    requires |es| == 1
    ensures Run(q, es) == React(q, es[0])
  {
    hide React;
    assert es[1..] == [];
  }

  /** A change is pending that decides which credentials a reboot loads. */
  predicate PendingDiffers(p: Prov) {
    p.dirty && Reload(p.flash) != Reload(p.nvs)
  }

  /** Over every run in which no write split a pair, a reboot brings back the credentials in
      RAM if and only if no change that differs in them is pending. */
  lemma RebootKeepsCredentialsIff(n: Nvs, first: bool, es: seq<Event>, again: bool)
    requires NvsOk(n) && AllFit(PowerOn(n, first), es)
    ensures var q := Run(PowerOn(n, first), es);
            React(q, Reboot(again)).creds == q.creds <==> !PendingDiffers(q)
  {
    RunKeepsAgreement(PowerOn(n, first), es);
    hide Run, AllFit;
  }

  /** One pass of the main loop: provisioning_tick, then nvs_tick. */
  function Pass(p: Prov, e: Env): Prov {
    StoreTick(Tick(p, e), e.now)
  }

  /** A pass that leaves no join busy leaves nothing pending: a reboot after it brings back
      the credentials in RAM. */
  lemma QuietPassIsDurable(p: Prov, e: Env, again: bool)
    requires Inv(p) && !JoinBusy(Tick(p, e).join) && Agrees(Tick(p, e))
    ensures !Pass(p, e).dirty
    ensures React(Pass(p, e), Reboot(again)).creds == Pass(p, e).creds
  {
    TickKeepsInv(p, e);
    hide Tick;
  }

  /** Setup mode ends by its maximum time in the very tick in which the trial fails, and the
      restored credentials are joined at once. */
  predicate OutOfTime(p: Prov, e: Env) {
    p.setup.active && p.prev.provisioned && e.now - p.setup.started >= SETUP_MAX
  }

  /** The pass in which a trial fails puts what it falls back to in flash, unless setup mode is
      out of time and the change, held while that join is busy, is younger than 60 s. */
  lemma FailedTrialIsStoredIff(p: Prov, e: Env, again: bool)
    requires Inv(p) && PortalJoinFails(p, e) && FallbackFits(p)
    ensures Pass(p, e).dirty <==> OutOfTime(p, e) && e.now - (if p.dirtySeen then p.dirtySince else e.now) < MAX_HOLD
    ensures !Pass(p, e).dirty ==> React(Pass(p, e), Reboot(again)).creds == Fallback(p) == Pass(p, e).creds
  {
    TickKeepsInv(p, e);
    TickKeepsPending(p, e);
    FailingTick(p, e);
    FailedTrialGate(p, e);
    hide Tick, AttemptFails, StoreTakes, OnTrial, OutOfTime;
  }

  lemma FailedTrialGate(p: Prov, e: Env)
    requires Inv(p) && PortalJoinFails(p, e) && FallbackFits(p)
    ensures JoinBusy(Tick(p, e).join) <==> OutOfTime(p, e)
    ensures OutOfTime(p, e) ==> Tick(p, e).dirty
  {
    FailedTrialDrops(p, e);
    if p.setup.active && p.prev.provisioned {
      FailedPortalJoinRestoresIff(p, e);
    } else {
      FailedPortalJoinClears(p, e);
    }
    hide JoinTick, AttemptFails, Inv, StoreTakes;
  }

  /** A whole setup session: whatever is configured and tried meanwhile, a portal join that
      fails brings back what was there when setup mode was opened, in RAM and across a
      reboot. */
  lemma SetupSessionRestores(p: Prov, now: nat, es: seq<Event>, e: Env, again: bool)
    requires Inv(p) && !p.setup.active && p.creds.provisioned
    requires StaysOpen(OpenSetup(p, now, false), es)
    requires PortalJoinFails(Run(OpenSetup(p, now, false), es), e)
    ensures var q := Run(OpenSetup(p, now, false), es);
            StoreTakes(q.nvs, p.creds) ==>
              && Tick(q, e).creds == p.creds == Reload(Tick(q, e).nvs)
              && (e.now - q.setup.started < SETUP_MAX ==> React(Pass(q, e), Reboot(again)).creds == p.creds)
  {
    var open := OpenSetup(p, now, false);
    StepKeepsInv(p, Open(now, false));
    EveryRunKeepsInv(open, es);
    PrevStaysOverRun(open, es);
    var q := Run(open, es);
    hide Run, StaysOpen, Inv, OnTrial, StoreTakes, AttemptFails, Tick, React, Pass;
    if StoreTakes(q.nvs, p.creds) {
      FailingTick(q, e);
      if e.now - q.setup.started < SETUP_MAX {
        FailedTrialIsStoredIff(q, e, again);
      }
    }
  }

  // ---- Untried credentials and the flash ---------------------------------

  /** Trying credentials that never worked, with the commit gate shut. */
  predicate Trying(p: Prov) {
    p.join.unproven && (p.join.state == Pending || p.join.state == Joining)
  }

  ghost predicate StaysTrying(p: Prov, es: seq<Event>)
    decreases |es|
  {
    Trying(p) && (es == [] || StaysTrying(React(p, es[0]), es[1..]))
  }

  /** At no point of the run does the flash hold the credentials being tried. */
  ghost predicate NeverStored(p: Prov, es: seq<Event>)
    decreases |es|
  {
    Reload(p.flash) != p.creds && (es == [] || NeverStored(React(p, es[0]), es[1..]))
  }

  /** At no point of the run are these credentials the ones tried. */
  ghost predicate NeverTried(c: Creds, p: Prov, es: seq<Event>)
    decreases |es|
  {
    p.creds != c && (es == [] || NeverTried(c, React(p, es[0]), es[1..]))
  }

  /** When nvs_tick first saw, or will first see, the pending change. */
  function FirstSeen(p: Prov, es: seq<Event>): nat {
    if p.dirtySeen then p.dirtySince
    else if es == [] then 0
    else if es[0].NvsTick? then es[0].now
    else FirstSeen(p, es[1..])
  }

  /** No shell command commits, and every nvs_tick comes within 60 s of the first that saw
      the change. */
  predicate Unforced(p: Prov, es: seq<Event>) {
    && CommitNow !in es
    && forall e :: e in es && e.NvsTick? ==> e.now < FirstSeen(p, es) + MAX_HOLD
  }

  lemma TryingStep(p: Prov, e: Event)
    requires Inv(p) && p.dirty && Trying(p) && Trying(React(p, e)) && !Commits(p, e)
    ensures var p' := React(p, e);
            && p'.dirty && p'.flash == p.flash
            && p'.dirtySeen == (p.dirtySeen || e.NvsTick?)
            && p'.dirtySince == if e.NvsTick? && !p.dirtySeen then e.now else p.dirtySince
  {
    match e {
      case Set(ssid, pass) => SetKeepsSetup(p, ssid, pass);
      case Configured(ssid, pass, _) => SetKeepsSetup(p, ssid, pass);
      case TickNow(env) =>
        JoinTickKeepsSetup(p, env);
        SetupTickKeepsPending(JoinTick(p, env), env);
      case _ =>
    }
    hide JoinTick, SetupTick, SetCredentials;
  }

  lemma SetupTickKeepsPending(p: Prov, e: Env)
    ensures var q := SetupTick(p, e);
            && q.flash == p.flash && q.dirty == p.dirty
            && q.dirtySeen == p.dirtySeen && q.dirtySince == p.dirtySince
  {
  }

  lemma CommitIsForced(p: Prov, es: seq<Event>)
    requires es != [] && Trying(p) && p.dirty
    ensures Commits(p, es[0]) ==> !Unforced(p, es)
  {
  }

  lemma UnforcedStep(p: Prov, p': Prov, es: seq<Event>)
    requires es != [] && Trying(p) && p.dirty && !Commits(p, es[0])
    requires p'.dirtySeen == (p.dirtySeen || es[0].NvsTick?)
    requires p'.dirtySince == if es[0].NvsTick? && !p.dirtySeen then es[0].now else p.dirtySince
    ensures Unforced(p, es) <==> Unforced(p', es[1..])
  {
    assert FirstSeen(p, es) == FirstSeen(p', es[1..]) by {
      if !p.dirtySeen && !es[0].NvsTick? { SeenAlike(p, p', es[1..]); }
    }
    assert es == [es[0]] + es[1..];
    assert forall e :: e in es <==> e == es[0] || e in es[1..];
    hide FirstSeen;
    if es[0].NvsTick? {
      assert es[0].now < FirstSeen(p, es) + MAX_HOLD by {
        FirstTick(p, es);
      }
    }
  }

  lemma FirstTick(p: Prov, es: seq<Event>)
    requires es != [] && es[0].NvsTick?
    ensures FirstSeen(p, es) == if p.dirtySeen then p.dirtySince else es[0].now
  {
  }

  lemma {:induction false} SeenAlike(p: Prov, q: Prov, es: seq<Event>)
    requires !p.dirtySeen && !q.dirtySeen
    ensures FirstSeen(p, es) == FirstSeen(q, es)
  {
    if es != [] {
      SeenAlike(p, q, es[1..]);
    }
  }

  /** While credentials are being tried (and tried again with others) over any run, they stay
      out of flash if and only if no shell command commits and no nvs_tick comes 60 s or more
      after the pending change was first seen. */
  lemma {:induction false} TriedStayOutOfFlashIff(p: Prov, es: seq<Event>)
    requires Inv(p) && Agrees(p) && AllFit(p, es)
    requires p.dirty && StaysTrying(p, es) && NeverTried(Reload(p.flash), p, es)
    ensures NeverStored(p, es) <==> Unforced(p, es)
    decreases |es|
  {
    if es == [] {
    } else {
      var p' := React(p, es[0]);
      StepKeepsInv(p, es[0]);
      StepKeepsAgreementIff(p, es[0]);
      CommitStores(p, es[0]);
      assert Trying(p') && NeverStored(p, es) == NeverStored(p', es[1..]);
      hide React, Inv, WritesFit, Trying;
      if Commits(p, es[0]) {
        CommitIsForced(p, es);
        assert !NeverStored(p', es[1..]);
      } else {
        TryingStep(p, es[0]);
        UnforcedStep(p, p', es);
        TriedStayOutOfFlashIff(p', es[1..]);
      }
    }
  }

  function PassRun(p: Prov, envs: seq<Env>): Prov
    decreases |envs|
  {
    if envs == [] then p else PassRun(Pass(p, envs[0]), envs[1..])
  }

  /** Passes of the main loop after time last, at most 29 s apart. */
  predicate Prompt(last: nat, envs: seq<Env>)
    decreases |envs|
  {
    envs == [] || (last <= envs[0].now <= last + 29_000_000 && Prompt(envs[0].now, envs[1..]))
  }

  /** Between passes of one attempt: the change was seen first at t0, and the attempt ends
      within 60 s of that. */
  predicate InAttempt(p: Prov, f: Nvs, t0: nat, last: nat) {
    OnTrial(p) ==>
      && p.flash == f && p.dirty && p.dirtySeen && p.dirtySince == t0
      && (p.join.state == Pending ==> last < p.join.nextEvent == t0 + PORTAL_DELAY)
      && (p.join.state == Joining ==> p.join.nextEvent < t0 + MAX_HOLD)
  }

  lemma TickKeepsPending(p: Prov, e: Env)
    ensures var q := Tick(p, e);
            && q.flash == p.flash && (p.dirty ==> q.dirty)
            && q.dirtySeen == p.dirtySeen && q.dirtySince == p.dirtySince
  {
    JoinTickKeepsSetup(p, e);
    SetupTickKeepsPending(JoinTick(p, e), e);
    hide JoinTick, SetupTick;
  }

  /** How a tick moves an attempt that goes on. */
  lemma TrialTick(p: Prov, e: Env)
    requires Inv(p) && OnTrial(p) && OnTrial(Tick(p, e))
    ensures var j, j' := p.join, Tick(p, e).join;
            if j.state == Pending then
              if j.nextEvent == 0 then j' == j.(nextEvent := e.now + PORTAL_DELAY)
              else if e.now < j.nextEvent then j' == j
              else j'.state == Joining && j'.nextEvent == e.now + JOIN_TIMEOUT
            else j' == j && e.now < j.nextEvent
  {
    TickAndTrial(p, e);
    hide DropUnproven, ScheduleRetry, CredentialsOk;
  }

  lemma PassKeepsAttempt(p: Prov, e: Env, f: Nvs, t0: nat, last: nat)
    requires Inv(p) && InAttempt(p, f, t0, last) && t0 <= last <= e.now <= last + 29_000_000
    ensures InAttempt(Pass(p, e), f, t0, e.now) && Inv(Pass(p, e))
  {
    TickKeepsInv(p, e);
    TickAndTrial(p, e);
    TickKeepsPending(p, e);
    hide Tick, AttemptFails, AttemptWins;
    if OnTrial(Tick(p, e)) {
      TrialTick(p, e);
    }
  }

  lemma {:induction false} PassesKeepAttempt(p: Prov, envs: seq<Env>, f: Nvs, t0: nat, last: nat)
    requires Inv(p) && InAttempt(p, f, t0, last) && t0 <= last && Prompt(last, envs)
    ensures OnTrial(PassRun(p, envs)) ==> PassRun(p, envs).flash == f
    decreases |envs|
  {
    if envs != [] {
      PassKeepsAttempt(p, envs[0], f, t0, last);
      PassesKeepAttempt(Pass(p, envs[0]), envs[1..], f, t0, envs[0].now);
    }
    hide Inv, OnTrial, Pass;
  }

  /** One attempt from the portal, with nothing pending that nvs_tick has seen before and
      passes at most 29 s apart: until its outcome a power cut brings back what the flash
      held before it. */
  lemma OneAttemptStaysInRam(p: Prov, ssid: Text, pass: Text, envs: seq<Env>, again: bool)
    requires Inv(p) && !p.dirtySeen && Configure(p, ssid, pass, true).1 == Ok
    requires envs != [] ==> Prompt(envs[0].now, envs[1..])
    ensures var r := PassRun(Configure(p, ssid, pass, true).0, envs);
            OnTrial(r) ==> React(r, Reboot(again)).creds == Reload(p.flash)
  {
    var q := Configure(p, ssid, pass, true).0;
    ConfigureStartsTrial(p, ssid, pass, true);
    hide Configure, Prompt;
    if envs != [] {
      var e := envs[0];
      TickKeepsInv(q, e);
      TickAndTrial(q, e);
      TickKeepsPending(q, e);
      if OnTrial(Tick(q, e)) {
        TrialTick(q, e);
      }
      hide Tick, AttemptFails, AttemptWins, Inv;
      PassIsInv(q, e);
      PassesKeepAttempt(Pass(q, e), envs[1..], p.flash, e.now, e.now);
    }
  }

  lemma PassIsInv(p: Prov, e: Env)
    requires Inv(p)
    ensures Inv(Pass(p, e))
  {
    TickKeepsInv(p, e);
    hide Tick;
  }

  /** A pass at this time while the radio is still trying. */
  function Quiet(now: nat): Env {
    Env(now, 0, 0, true, false, false, false, 0, true, 1)
  }

  predicate Held(p: Prov, now: nat) {
    p.dirty && !p.setup.active && (p.dirtySeen ==> p.dirtySince <= now < p.dirtySince + MAX_HOLD)
  }

  /** A quiet pass that puts the attempt off by a second; one that starts it; and one that ends
      the 60 s while it goes on. */
  lemma PassPutsOff(p: Prov, now: nat)
    requires Held(p, now) && p.join == Join(Pending, true, true, 0, RETRY_MIN, 0)
    ensures Pass(p, Quiet(now)) == p.(join := Join(Pending, true, true, now + 1_000_000, RETRY_MIN, 0),
                                      dirtySeen := true,
                                      dirtySince := if p.dirtySeen then p.dirtySince else now)
  {
  }

  lemma PassStarts(p: Prov, now: nat)
    requires Held(p, now) && p.dirtySeen && now > 0 && p.join == Join(Pending, true, true, now, RETRY_MIN, 0)
    ensures Pass(p, Quiet(now)) == p.(join := Join(Joining, true, true, now + 30_000_000, RETRY_MIN, 0))
  {
  }

  lemma PassCommits(p: Prov, now: nat)
    requires p.dirty && p.dirtySeen && now >= p.dirtySince + 60_000_000 && !p.setup.active
    requires p.join == Join(Joining, true, true, now + 1_000_000, RETRY_MIN, 0)
    ensures Pass(p, Quiet(now)) == p.(flash := p.nvs, dirty := false, dirtySeen := false)
  {
  }

  lemma PassesUnfold(p: Prov, e1: Env, e2: Env, e3: Env)
    ensures PassRun(p, [e1, e2]) == Pass(Pass(p, e1), e2)
    ensures PassRun(p, [e1, e2, e3]) == Pass(Pass(Pass(p, e1), e2), e3)
  {
    hide Pass;
    assert [e1, e2][1..] == [e2] && [e2][1..] == [];
    assert [e1, e2, e3][1..] == [e2, e3] && [e2, e3][1..] == [e3] && [e3][1..] == [];
    assert PassRun(Pass(p, e1), [e2]) == Pass(Pass(p, e1), e2);
    assert PassRun(Pass(Pass(p, e1), e2), [e3]) == Pass(Pass(Pass(p, e1), e2), e3);
  }

  /** An accepted configuration from the portal. */
  lemma PortalConfigures(p: Prov, ssid: Text, pass: Text)
    requires 0 < |ssid| <= MAX_SSID && MIN_PASS <= |pass| < NVS_VAL_MAX
    requires p.join.discBase == 0 && (p.nvs.free >= 3 || (p.nvs.ssid.Some? && p.nvs.pass.Some?))
    ensures var q := Configure(p, ssid, pass, true).0;
            && q == p.(creds := Creds(ssid, pass, true), nvs := q.nvs, dirty := true,
                       join := Join(Pending, true, true, 0, RETRY_MIN, 0))
            && q.nvs.ssid == Some(ssid) && q.nvs.pass == Some(pass)
  {
  }

  /** Configuring again during an attempt does not start the 60 s over: the credentials of
      the second attempt reach flash while they are still being tried. */
  lemma ReconfiguringReachesFlash(n: Nvs, ssid1: Text, ssid2: Text, pass: Text, again: bool)
    requires NvsOk(n) && n.free >= 3
    requires 0 < |ssid1| <= MAX_SSID && 0 < |ssid2| <= MAX_SSID && MIN_PASS <= |pass| < NVS_VAL_MAX
    ensures var q1 := Configure(PowerOn(n, false), ssid1, pass, true).0;
            var r1 := PassRun(q1, [Quiet(0), Quiet(1_000_000)]);
            var q2 := Configure(r1, ssid2, pass, true).0;
            var r2 := PassRun(q2, [Quiet(30_000_000), Quiet(31_000_000), Quiet(60_000_000)]);
            && OnTrial(r2) && r2.creds == Creds(ssid2, pass, true)
            && React(r2, Reboot(again)).creds == r2.creds
  {
    hide *;
    var on := PowerOn(n, false);
    PowerOnIs(n);
    PortalConfigures(on, ssid1, pass);
    var q1 := Configure(on, ssid1, pass, true).0;
    PassesUnfold(q1, Quiet(0), Quiet(1_000_000), Quiet(0));
    StillHeld(q1, 0);
    PassPutsOff(q1, 0);
    StillHeld(Pass(q1, Quiet(0)), 1_000_000);
    PassStarts(Pass(q1, Quiet(0)), 1_000_000);
    var r1 := PassRun(q1, [Quiet(0), Quiet(1_000_000)]);
    PortalConfigures(r1, ssid2, pass);
    var q2 := Configure(r1, ssid2, pass, true).0;
    PassesUnfold(q2, Quiet(30_000_000), Quiet(31_000_000), Quiet(60_000_000));
    StillHeld(q2, 30_000_000);
    PassPutsOff(q2, 30_000_000);
    StillHeld(Pass(q2, Quiet(30_000_000)), 31_000_000);
    PassStarts(Pass(q2, Quiet(30_000_000)), 31_000_000);
    PassCommits(Pass(Pass(q2, Quiet(30_000_000)), Quiet(31_000_000)), 60_000_000);
    var r2 := PassRun(q2, [Quiet(30_000_000), Quiet(31_000_000), Quiet(60_000_000)]);
    RebootFinds(r2, ssid2, pass, again);
  }

  lemma PowerOnIs(n: Nvs)
    ensures var p := PowerOn(n, false);
            p.nvs == n && p.join.discBase == 0 && !p.setup.active && !p.dirtySeen
  {
  }

  lemma StillHeld(p: Prov, now: nat)
    requires p.dirty && !p.setup.active && now < 60_000_000 && (p.dirtySeen ==> p.dirtySince == 0)
    ensures Held(p, now)
  {
  }

  lemma RebootFinds(r: Prov, ssid: Text, pass: Text, again: bool)
    requires r.join == Join(Joining, true, true, 61_000_000, RETRY_MIN, 0) && r.creds == Creds(ssid, pass, true)
    requires r.flash.ssid == Some(ssid) && ssid != [] && r.flash.pass == Some(pass)
    ensures OnTrial(r) && React(r, Reboot(again)).creds == r.creds
  {
  }
}

// The join and setup machine as it runs (src/provisioning.c): its structs changed in place
// by the tick, the button and the configure handler, with the pending-commit flags of
// src/nvs.c. Each method is tied to the functions of Provisioning, keeps the invariant and
// promises what its callers rely on.

module ProvisioningRuntime {
  import opened Words
  import opened Provisioning
  import opened ProvisioningRuns

  class Provisioner {
    var creds: Creds
    var nvs: Nvs
    var join: Join
    var setup: Setup
    var prev: Creds
    var flash: Nvs
    var dirty: bool
    var dirtySeen: bool
    var dirtySince: nat

    ghost function Abs(): Prov
      reads this
    {
      Prov(creds, nvs, join, setup, prev, flash, dirty, dirtySeen, dirtySince)
    }

    ghost predicate Valid()
      reads this
    {
      Inv(Abs())
    }

    /** What holds even while a tick is moving the join from one state to the next. */
    ghost predicate Sound()
      reads this
    {
      CredentialsOk(Abs()) && RETRY_MIN <= join.retryDelay <= RETRY_MAX
    }

    constructor (store: Nvs, counted: bool)
      requires NvsOk(store)
      ensures Valid() && Abs() == PowerOn(store, counted)
      ensures Agrees(Abs()) && !JoinBusy(join) && !setup.active && flash == store
    {
      creds, nvs, prev := Reload(store), store, NO_CREDS;
      join := Join(Idle, false, false, 0, RETRY_MIN, 0);
      setup := Setup(false, 0, 0, NoEnd);
      flash, dirty, dirtySeen, dirtySince := store, counted, false, 0;
    }

    /** All or nothing in RAM; the cache changes on a refusal only by a split write. */
    method Save(ssid: Text, pass: Text) returns (status: Status)
      requires Sound()
      modifies `creds, `nvs, `dirty
      ensures Sound() && (old(Valid()) ==> Valid())
      ensures (Abs(), status) == SetCredentials(old(Abs()), ssid, pass)
      ensures status == Ok || status == NvsFail <==> UsableLengths(ssid, pass)
      ensures status == SsidEmpty <==> ssid == []
      ensures status == PassTooShort <==> 0 < |ssid| <= 32 && 0 < |pass| < 8
      ensures status == InvalidArg <==> |ssid| > 32 || (ssid != [] && |pass| > 64)
      ensures status != NotFound
      ensures status == Ok ==> creds == Creds(ssid, pass, true) == Reload(nvs) && dirty
      ensures status != Ok ==> creds == old(creds) && (nvs != old(nvs) <==> Splits(old(nvs), ssid, pass))
    {
      SetIsAllOrNothingIff(Abs(), ssid, pass);
      hide Reload, CredsOk, Splits;
      if ssid == [] {
        return SsidEmpty;
      }
      if |ssid| > MAX_SSID {
        return InvalidArg;
      }
      if 0 < |pass| < MIN_PASS {
        return PassTooShort;
      }
      if |pass| > MAX_PASS {
        return InvalidArg;
      }
      if !Takes(nvs.ssid, ssid, nvs.free) {
        return NvsFail;
      }
      nvs, dirty := PutSsid(nvs, ssid), true;
      if pass != [] {
        if !Takes(nvs.pass, pass, nvs.free) {
          return NvsFail;
        }
        nvs := PutPass(nvs, pass);
      } else {
        nvs := ErasePass(nvs);
      }
      nvs := PutFlag(nvs);
      creds := Creds(ssid, pass, true);
      return Ok;
    }

    /** None of the three keys is left, and the change is pending. */
    method ClearSaved()
      requires Sound()
      modifies `creds, `nvs, `dirty
      ensures Sound() && (old(Valid()) ==> Valid())
      ensures Abs() == ClearCredentials(old(Abs()))
      ensures !HasKey(nvs) && creds == NO_CREDS == Reload(nvs) && (dirty || nvs == flash)
    {
      dirty := dirty || HasKey(nvs);
      nvs, creds := EraseAll(nvs), NO_CREDS;
    }

    /** Queues a join exactly if there are credentials, and never puts them on trial. */
    method BeginJoin(keepAp: bool, apUp: bool) returns (status: Status)
      requires CredentialsOk(Abs())
      modifies `join
      ensures (Abs(), status) == JoinBegin(old(Abs()), keepAp, apUp)
      ensures status == Ok <==> creds.provisioned
      ensures status == Ok ==> Valid() && !OnTrial(Abs()) && JoinBusy(join) && (join.keepAp <==> keepAp && apUp)
      ensures status == Ok ==> join.state == Pending && join.nextEvent == 0 && join.retryDelay == RETRY_MIN
      ensures status != Ok ==> join == old(join)
    {
      if !creds.provisioned {
        return NotFound;
      }
      join := Join(Pending, keepAp && apUp, false, 0, RETRY_MIN, join.discBase);
      return Ok;
    }

    /** Accepted credentials are on trial exactly if the SoftAP is up. */
    method HandleConfigure(ssid: Text, pass: Text, apUp: bool) returns (status: Status)
      requires Valid()
      modifies `creds, `nvs, `dirty, `join
      ensures Valid() && (Abs(), status) == Configure(old(Abs()), ssid, pass, apUp)
      ensures status == Ok ==> Trying(Abs()) && (OnTrial(Abs()) <==> apUp) && creds == Creds(ssid, pass, true)
      ensures status != Ok ==> join == old(join) && creds == old(creds)
    {
      hide CredentialsOk, SetCredentials;
      if ssid == [] {
        return SsidEmpty;
      }
      status := Save(ssid, pass);
      if status == Ok {
        var begun := BeginJoin(true, apUp);
        if begun == Ok {
          OtherJoin(Abs(), Abs().(join := join.(unproven := true)));
          join := join.(unproven := true);
        }
      }
    }

    /** Afterwards no join is waiting to start; one under way goes on. */
    method CancelJoin()
      requires Valid()
      modifies `join
      ensures Valid() && Abs() == Cancel(old(Abs()))
      ensures join.state != Pending && join.state != RetryWait
      ensures old(join.state) == Joining ==> join == old(join)
    {
      if join.state == Pending || join.state == RetryWait {
        join := join.(state := Idle);
      }
    }

    /** Waits for the present backoff, a fifth more or less, and doubles the next. */
    method WaitForRetry(now: nat, rand: u32)
      requires Sound() && !join.keepAp
      modifies `join
      ensures Valid() && Abs() == ScheduleRetry(old(Abs()), now, rand)
      ensures var d := old(join.retryDelay); d - d / 5 <= join.nextEvent - now <= d + d / 5
      ensures join.retryDelay == NextBackoff(old(join.retryDelay))
    {
      OtherJoin(Abs(), ScheduleRetry(Abs(), now, rand));
      hide CredentialsOk;
      join := join.(state := RetryWait, nextEvent := now + Jittered(join.retryDelay, rand));
      join := join.(retryDelay := NextBackoff(join.retryDelay));
    }

    /** Gives credentials up exactly if they are unproven and the SoftAP stayed up. */
    method FailAttempt(now: nat, rand: u32)
      requires Sound()
      modifies this
      ensures Valid() && Abs() == AttemptFailed(old(Abs()), now, rand)
      ensures EndsAttempt(old(Abs()), Abs())
    {
      AttemptFailedKeepsInv(Abs(), now, rand);
      SetIsAllOrNothingIff(Abs(), prev.ssid, prev.pass);
      SetKeepsSetup(Abs(), prev.ssid, prev.pass);
      hide SetCredentials, Splits, CredentialsOk;
      if !join.keepAp {
        WaitForRetry(now, rand);
        return;
      }
      if join.unproven {
        if setup.active && prev.provisioned {
          PrevIsTaken(Abs());
          var _ := Save(prev.ssid, prev.pass);
        } else {
          ClearSaved();
        }
        join := join.(unproven := false);
      }
      join := join.(state := Failed);
      setup := setup.(idleSince := now);
    }

    method TickPending(e: Env)
      requires Valid() && join.state == Pending
      modifies this
      ensures Valid() && Abs() == JoinTick(old(Abs()), e)
    {
      JoinTickKeepsInv(Abs(), e);
      InvOfJoin(Abs());
      OtherJoin(Abs(), Started(Abs(), e));
      PendingTick(Abs(), e);
      ghost var p := Abs();
      hide JoinTick, AttemptFailed, Inv, CredentialsOk, EndsAttempt;
      if join.keepAp && join.nextEvent == 0 {
        join := join.(nextEvent := e.now + PORTAL_DELAY);
      } else if e.now >= join.nextEvent {
        join := join.(state := Joining, nextEvent := e.now + JOIN_TIMEOUT, discBase := e.discAfterJoin);
        assert Abs() == Started(p, e);
        if !e.joinOk {
          FailAttempt(e.now, e.rand);
        }
      }
    }

    method TickJoining(e: Env)
      requires Valid() && join.state == Joining
      modifies this
      ensures Valid() && Abs() == JoinTick(old(Abs()), e)
    {
      JoinTickKeepsInv(Abs(), e);
      InvOfJoin(Abs());
      hide AttemptFailed, ScheduleRetry, Inv, CredentialsOk, EndsAttempt;
      if e.discCount != join.discBase || e.supplicantFailed {
        FailAttempt(e.now, e.rand);
      } else if e.connected {
        join := join.(unproven := false, retryDelay := RETRY_MIN);
        if join.keepAp {
          join := join.(state := Handover, nextEvent := e.now + HANDOVER_DELAY);
        } else {
          join := join.(state := Online);
        }
      } else if e.now >= join.nextEvent {
        FailAttempt(e.now, e.rand);
      }
    }

    method TickHandover(e: Env)
      requires Valid() && join.state == Handover
      modifies this
      ensures Valid() && Abs() == JoinTick(old(Abs()), e)
    {
      JoinTickKeepsInv(Abs(), e);
      InvOfJoin(Abs());
      OtherJoin(Abs(), Abs().(join := join.(keepAp := false)));
      hide AttemptFailed, ScheduleRetry, Inv, CredentialsOk, EndsAttempt;
      if e.discCount != join.discBase {
        FailAttempt(e.now, e.rand);
      } else if e.now >= join.nextEvent {
        join := join.(keepAp := false);
        if e.takeOverOk {
          join := join.(state := Online);
        } else {
          FailAttempt(e.now, e.rand);
        }
      }
    }

    /** One tick of the join, by its state. */
    method TickJoin(e: Env)
      requires Valid()
      modifies this
      ensures Valid() && Abs() == JoinTick(old(Abs()), e)
      ensures MovesJoin(old(Abs()), Abs(), e) && Transition(old(join), e, join)
    {
      JoinTickIsTransition(Abs(), e);
      JoinTickKeepsInv(Abs(), e);
      JoinTickMovesJoin(Abs(), e);
      InvOfJoin(Abs());
      OtherJoin(Abs(), Abs().(join := join.(discBase := e.discCount)));
      hide Inv, CredentialsOk, MovesJoin, Transition, ScheduleRetry;
      match join.state {
        case Pending => TickPending(e);
        case Joining => TickJoining(e);
        case Handover => TickHandover(e);
        case Online =>
          if e.discCount != join.discBase {
            join := join.(discBase := e.discCount);
            WaitForRetry(e.now, e.rand);
          }
        case RetryWait =>
          if e.now >= join.nextEvent {
            join := join.(state := Pending);
          }
        case _ =>
      }
    }

    method LeaveSetup(why: SetupEnd)
      requires Valid()
      modifies `setup, `prev
      ensures Valid() && Abs() == EndSetup(old(Abs()), why) && prev == NO_CREDS
    {
      setup, prev := setup.(active := false, lastEnd := why), NO_CREDS;
    }

    /** Remembers the credentials and takes the station off the air; they are still there. */
    method OpenSetupMode(now: nat, apUp: bool)
      requires Valid()
      modifies `setup, `prev, `join
      ensures Valid() && Abs() == OpenSetup(old(Abs()), now, apUp)
      ensures old(!setup.active) && !apUp ==>
                setup.active && prev == creds && !JoinBusy(join) && !join.unproven && setup.idleSince == now
      ensures old(setup.active) || apUp ==> Abs() == old(Abs())
    {
      if setup.active || apUp {
        return;
      }
      setup, prev := Setup(true, now, now, NoEnd), creds;
      join := join.(state := Idle, keepAp := false, unproven := false);
    }

    /** Rejoins with what is saved, tried or not, and without the SoftAP. */
    method CloseSetupMode(why: SetupEnd)
      requires Valid()
      modifies `setup, `prev, `join
      ensures Valid() && Abs() == CloseSetup(old(Abs()), why)
      ensures !setup.active && prev == NO_CREDS
      ensures old(setup.active) && creds.provisioned ==> join.state == Pending && !join.keepAp && !OnTrial(Abs())
    {
      if !setup.active {
        return;
      }
      LeaveSetup(why);
      var _ := BeginJoin(false, false);
    }

    /** Opens setup mode if it is closed, and closes it if it is open. */
    method PressButton(now: nat, apUp: bool)
      requires Valid()
      modifies `setup, `prev, `join
      ensures Valid() && Abs() == Button(old(Abs()), now, apUp)
      ensures setup.active <==> old(!setup.active) && !apUp
      ensures setup.active ==> prev == creds
    {
      if setup.active {
        CloseSetupMode(ByRequest);
      } else {
        OpenSetupMode(now, apUp);
      }
    }

    /** Leaves a portal join alone; otherwise ends setup mode exactly when its time is up or
        the join has taken the SoftAP down. */
    method TickSetup(e: Env)
      requires Valid()
      modifies `setup, `prev, `join
      ensures Valid() && Abs() == SetupTick(old(Abs()), e)
      ensures old(InFlight(join)) ==>
                join == old(join) && setup.active == old(setup.active) && (setup.active ==> setup.idleSince == e.now)
      ensures InFlight(join) || setup.active == old(setup.active) ==> join == old(join)
      ensures old(setup.active && !InFlight(join)) ==>
                var idle := if e.stations > 0 then 0 else e.now - old(setup.idleSince);
                (!setup.active <==> (old(join.state) == Online && !e.apUp)
                                    || e.now - old(setup.started) >= SETUP_MAX || idle >= SETUP_IDLE)
    {
      if !setup.active {
        return;
      }
      if join.state == Online && !e.apUp {
        LeaveSetup(ByJoin);
        return;
      }
      var inFlight := join.keepAp && (join.state == Pending || join.state == Joining || join.state == Handover);
      if e.stations > 0 || inFlight {
        setup := setup.(idleSince := e.now);
      }
      if inFlight {
        return;
      }
      if e.now - setup.started >= SETUP_MAX {
        CloseSetupMode(ByMax);
      } else if e.now - setup.idleSince >= SETUP_IDLE {
        CloseSetupMode(ByIdle);
      }
    }

    /** provisioning_tick: a trial ends only by its outcome, and no time-out ends setup mode
        while a portal join is in flight. */
    method TickAll(e: Env)
      requires Valid()
      modifies this
      ensures Valid() && Abs() == Tick(old(Abs()), e)
      ensures setup.active == old(setup.active) ==> Transition(old(join), e, join)
      ensures !PortalJoinFails(old(Abs()), e) ==> creds == old(creds) && nvs == old(nvs)
      ensures old(setup.active) && InFlight(join) ==> setup.active
      ensures flash == old(flash)
    {
      hide JoinTick, SetupTick, Inv, PortalJoinFails, Transition;
      TickJoin(e);
      TickSetup(e);
    }

    /** nvs_commit: what a reboot finds from now on is what RAM's cache holds. */
    method CommitStore()
      requires Valid()
      modifies `flash, `dirty, `dirtySeen
      ensures Valid() && Abs() == Commit(old(Abs()))
      ensures !dirty && flash == nvs
    {
      if dirty {
        flash, dirty, dirtySeen := nvs, false, false;
      }
    }

    /** nvs_tick: afterwards a change is pending only while a join is busy, and less than
        60 s after it was first seen; otherwise flash and cache agree. */
    method TickStore(now: nat)
      requires Valid()
      modifies `flash, `dirty, `dirtySeen, `dirtySince
      ensures Valid() && Abs() == StoreTick(old(Abs()), now)
      ensures dirty ==> JoinBusy(join) && dirtySeen && now - dirtySince < MAX_HOLD && flash == old(flash)
      ensures !dirty ==> flash == nvs
    {
      if !dirty {
        return;
      }
      if !dirtySeen {
        dirtySeen, dirtySince := true, now;
      }
      var busy := join.state == Pending || join.state == Joining || join.state == Handover;
      if busy && now - dirtySince < MAX_HOLD {
        return;
      }
      CommitStore();
    }
  }
}

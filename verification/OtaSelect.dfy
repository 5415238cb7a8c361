// The OTA slot selection (src/ota.c): two flash sectors hold one record
// each, written alternately, so that a power cut at any flash step leaves either
// the old or the new selection. The checksum is a parameter: every result holds
// for every checksum function.

module OtaSelect {
  import opened Words

  const MAGIC: u32 := 0x4F54_4153
  const TESTING: u32 := 0x55AA_55AA
  const VALID: u32 := 0x5A5A_5A5A
  const BLANK: u32 := U32_MAX

  /** The eleven record words the selection does not look at (image, version, boot count). */
  type Info = w: seq<u32> | |w| == 11 witness [0, 0, 0, 0, 0, 0, 0, 0, 0, 0, 0]

  /** The fields of ota_select_t that its checksum covers. */
  datatype Body = Body(magic: u32, seqNo: u32, slot: u32, state: u32, info: Info)

  datatype Record = Record(body: Body, crc: u32)

  type Checksum = Body -> u32

  const ERASED: Record :=
    Record(Body(BLANK, BLANK, BLANK, BLANK,
                [BLANK, BLANK, BLANK, BLANK, BLANK, BLANK, BLANK, BLANK, BLANK, BLANK, BLANK]), BLANK)

  /** Programming NOR flash only clears bits. */
  function Program(was: Record, rec: Record): Record {
    var w, r := was.body, rec.body;
    var info: seq<u32> := seq(11, k requires 0 <= k < 11 => And(w.info[k], r.info[k]));
    Record(Body(And(w.magic, r.magic), And(w.seqNo, r.seqNo), And(w.slot, r.slot), And(w.state, r.state), info),
           And(was.crc, rec.crc))
  }

  lemma ProgramErased(r: Record)
    ensures Program(ERASED, r) == r
  {
    var p := Program(ERASED, r);
    forall x: u32 ensures And(U32_MAX, x) == x {
      AndAllOnes(x);
    }
    forall k | 0 <= k < 11 ensures p.body.info[k] == r.body.info[k] {
    }
    assert p.body.info == r.body.info;
  }

  predicate IsRecordValid(crc: Checksum, r: Record) {
    && r.body.magic == MAGIC
    && (r.body.slot == 0 || r.body.slot == 1)
    && r.crc == crc(r.body)
  }

  function NewRecord(crc: Checksum, seqNo: u32, slot: u32, state: u32, minor: u32): Record {
    var body := Body(MAGIC, seqNo, slot, state, [0, 0, 1, minor, 0, 0, 0, 0, 0, 0, 0]);
    Record(body, crc(body))
  }

  /** The flash sectors and the static variables of the subsystem. */
  datatype Ota = Ota(
    flash: seq<Record>, records: seq<Record>, valid: seq<bool>,
    slot: u32, fallback: u32, state: u32, seqNo: u32, sector: nat)
  {
    predicate Shaped() {
      |flash| == 2 && |records| == 2 && |valid| == 2 && sector < 2 && slot < 2
    }
  }

  /** What a caller relies on: the running slot, its state, and where that is recorded. */
  datatype Selection = Selection(slot: u32, state: u32, seqNo: u32, sector: nat)

  function Sel(o: Ota): Selection {
    Selection(o.slot, o.state, o.seqNo, o.sector)
  }

  // ---- Deriving the selection from flash --------------------------------

  function TakeSector(o: Ota, i: nat, fallback: u32): Ota
    requires |o.records| == 2 && i < 2
  {
    var r := o.records[i];
    o.(slot := r.body.slot, fallback := fallback, state := r.body.state, seqNo := r.body.seqNo, sector := i)
  }

  function Factory(crc: Checksum): Record {
    NewRecord(crc, 1, 0, VALID, 0)
  }

  /** write_select_record on a flash without errors. */
  function WriteRecord(o: Ota, i: nat, rec: Record): Ota
    requires |o.flash| == |o.records| == |o.valid| == 2 && i < 2
  {
    o.(flash := o.flash[i := rec], records := o.records[i := rec], valid := o.valid[i := true])
  }

  function SelectActive(crc: Checksum, o: Ota): Ota
    requires |o.flash| == |o.records| == |o.valid| == 2
  {
    var r0, r1 := o.records[0], o.records[1];
    if !o.valid[0] && !o.valid[1] then
      TakeSector(WriteRecord(o, 0, Factory(crc)), 0, 0)
    else if !o.valid[1] then TakeSector(o, 0, r0.body.slot)
    else if !o.valid[0] then TakeSector(o, 1, r1.body.slot)
    else if r0.body.seqNo >= r1.body.seqNo then TakeSector(o, 0, r1.body.slot)
    else TakeSector(o, 1, r0.body.slot)
  }

  /** ota_init. Its rollback branch compares a counter that was just set to 1 with 3,
      so it is never taken. */
  function Boot(crc: Checksum, flash: seq<Record>): Ota
    requires |flash| == 2
  {
    SelectActive(crc, Ota(flash, flash, [IsRecordValid(crc, flash[0]), IsRecordValid(crc, flash[1])], 0, 0, 0, 0, 0))
  }

  // ---- The three calls that change the selection ------------------------

  /** The enumerators of ota_slot_t. */
  type SlotArg = x: int | -1 <= x <= 2
  datatype Call = Switch(target: SlotArg) | MarkValid | Rollback
  datatype Status = Ok | InvalidParam | AlreadyActive
  function Reply(sel: Selection, call: Call): Status {
    match call
    case Switch(t) =>
      if t == -1 || t >= 2 then InvalidParam
      else if t == sel.slot then AlreadyActive
      else Ok
    case _ => Ok
  }

  /** The selection after a completed call. */
  function Select(sel: Selection, call: Call): Selection {
    var next := if sel.sector == 0 then 1 else 0;
    match call
    case Switch(t) =>
      if Reply(sel, call) == Ok then Selection(t, TESTING, Add32(sel.seqNo, 1), next) else sel
    case MarkValid =>
      if sel.state == VALID then sel else Selection(sel.slot, VALID, Add32(sel.seqNo, 1), next)
    case Rollback =>
      Selection(if sel.slot == 0 then 1 else 0, VALID, Add32(sel.seqNo, 1), next)
  }

  function Writes(sel: Selection, call: Call): bool {
    Select(sel, call) != sel
  }

  function RecordFor(crc: Checksum, sel: Selection, call: Call): Record {
    var after := Select(sel, call);
    NewRecord(crc, after.seqNo, after.slot, after.state, if call.Switch? then 1 else 0)
  }

  function Apply(crc: Checksum, o: Ota, call: Call): Ota
    requires o.Shaped()
  {
    var after := Select(Sel(o), call);
    if Writes(Sel(o), call) then
      WriteRecord(o, after.sector, RecordFor(crc, Sel(o), call)).(
        slot := after.slot, state := after.state, seqNo := after.seqNo, sector := after.sector,
        fallback := if call.MarkValid? then o.fallback else o.slot)
    else o
  }

  // ---- Coherence of RAM and flash ---------------------------------------

  ghost predicate Mirrors(crc: Checksum, o: Ota)
  {
    && o.Shaped()
    && o.valid == [IsRecordValid(crc, o.flash[0]), IsRecordValid(crc, o.flash[1])]
    && (o.valid[0] ==> o.records[0] == o.flash[0])
    && (o.valid[1] ==> o.records[1] == o.flash[1])
  }

  /** RAM mirrors flash, and the active record wins against the other sector's. */
  ghost predicate Coherent(crc: Checksum, o: Ota) {
    && Mirrors(crc, o)
    && Wins(crc, o.flash, Sel(o))
  }

  ghost predicate Wins(crc: Checksum, flash: seq<Record>, sel: Selection) {
    && |flash| == 2 && sel.sector < 2
    && var r, other := flash[sel.sector], flash[1 - sel.sector];
    && IsRecordValid(crc, r)
    && r.body.slot == sel.slot && r.body.state == sel.state && r.body.seqNo == sel.seqNo
    && (IsRecordValid(crc, other) ==>
          if sel.sector == 0 then other.body.seqNo <= sel.seqNo else other.body.seqNo < sel.seqNo)
  }

  lemma SelectIsCoherent(crc: Checksum, o: Ota)
    requires Mirrors(crc, o)
    ensures Coherent(crc, SelectActive(crc, o))
  {
  }

  /** Whatever flash holds, booting leaves RAM and flash coherent. */
  lemma BootIsCoherent(crc: Checksum, flash: seq<Record>)
    requires |flash| == 2
    ensures Coherent(crc, Boot(crc, flash))
  {
  }

  /** Which record a boot goes by, whatever the sectors hold: one with the magic number, a slot
      that exists and a matching checksum; of two such records the newer one, and the first
      if they are equal; the slot to fall back to is the other one's. With none, slot 0 is
      valid under sequence number 1, in RAM and in the first sector. */
  lemma BootPicksNewest(crc: Checksum, flash: seq<Record>)
    requires |flash| == 2
    ensures var o := Boot(crc, flash);
            var good := seq(2, i requires 0 <= i < 2 =>
              flash[i].body.magic == MAGIC && flash[i].body.slot < 2 && flash[i].crc == crc(flash[i].body));
            && |o.flash| == 2 && o.sector < 2
            && (if good[0] || good[1] then good[o.sector] && o.flash == flash
                else
                  && o.sector == 0 && o.flash == flash[0 := o.flash[0]]
                  && o.slot == 0 && o.state == VALID && o.seqNo == 1)
            && var r, other := o.flash[o.sector].body, flash[1 - o.sector].body;
            && r.slot == o.slot && r.state == o.state && r.seqNo == o.seqNo
            && (good[0] && good[1] ==> if o.sector == 0 then other.seqNo <= r.seqNo else other.seqNo < r.seqNo)
            && o.fallback == if good[0] && good[1] then other.slot else o.slot
  {
  }

  lemma BootFindsWinner(crc: Checksum, flash: seq<Record>, sel: Selection)
    requires Wins(crc, flash, sel)
    ensures Sel(Boot(crc, flash)) == sel && Boot(crc, flash).flash == flash
  {
  }

  /** Re-deriving from the two records gives the RAM selection: a reboot changes nothing. */
  lemma RebootKeepsSelection(crc: Checksum, o: Ota)
    requires Coherent(crc, o)
    ensures Sel(Boot(crc, o.flash)) == Sel(o)
  {
    BootFindsWinner(crc, o.flash, Sel(o));
  }

  lemma ApplyIsSelect(crc: Checksum, o: Ota, call: Call)
    requires o.Shaped()
    ensures Sel(Apply(crc, o, call)) == Select(Sel(o), call)
  {
  }

  lemma ApplyKeepsCoherent(crc: Checksum, o: Ota, call: Call)
    requires Coherent(crc, o) && (Writes(Sel(o), call) ==> o.seqNo != U32_MAX)
    ensures Coherent(crc, Apply(crc, o, call))
  {
    if Writes(Sel(o), call) {
      var o' := Apply(crc, o, call);
      assert o'.flash[o'.sector] == RecordFor(crc, Sel(o), call);
      assert o'.flash[1 - o'.sector] == o.flash[o.sector];
      assert o.seqNo < Add32(o.seqNo, 1);
    }
  }

  /** A completed, writing call survives the next reboot exactly when the sequence
      number does not wrap: the wrapped record carries 0 and loses to the old one. */
  lemma SurvivesRebootIffNoWrap(crc: Checksum, o: Ota, call: Call)
    requires Coherent(crc, o) && Writes(Sel(o), call)
    ensures Sel(Boot(crc, Apply(crc, o, call).flash)) == Select(Sel(o), call) <==> o.seqNo != U32_MAX
  {
    var o' := Apply(crc, o, call);
    if o.seqNo != U32_MAX {
      ApplyKeepsCoherent(crc, o, call);
      ApplyIsSelect(crc, o, call);
      RebootKeepsSelection(crc, o');
    } else {
      assert o'.flash[o'.sector] == RecordFor(crc, Sel(o), call);
      assert o'.flash[1 - o'.sector] == o.flash[o.sector];
      assert Add32(o.seqNo, 1) == 0;
      BootFindsWinner(crc, o'.flash, Sel(o));
    }
  }

  /** RAM names this slot, state and sequence number. */
  predicate Holds(o: Ota, slot: int, state: u32, seqNo: int) {
    o.slot == slot && o.state == state && o.seqNo == seqNo
  }

  /** What the calls do, at once and after the next boot: a switch to the other slot makes it
      the running one, on test, and any other switch does nothing; marking makes the running
      slot valid; a rollback makes the other slot the running one, valid. */
  lemma CallTakesEffect(crc: Checksum, o: Ota, call: Call)
    requires Coherent(crc, o) && o.seqNo != U32_MAX
    ensures var o' := Apply(crc, o, call);
            match call
            case Switch(t) =>
              if t == 1 - o.slot then
                && Holds(o', t, TESTING, o.seqNo + 1) && Holds(Boot(crc, o'.flash), t, TESTING, o.seqNo + 1)
                && o'.fallback == o.slot
              else o' == o
            case MarkValid =>
              && (o.state == VALID ==> o' == o)
              && (o.state != VALID ==> Holds(o', o.slot, VALID, o.seqNo + 1) && o'.fallback == o.fallback)
              && Holds(Boot(crc, o'.flash), o.slot, VALID, o'.seqNo)
            case Rollback =>
              && Holds(o', 1 - o.slot, VALID, o.seqNo + 1) && Holds(Boot(crc, o'.flash), 1 - o.slot, VALID, o.seqNo + 1)
              && o'.fallback == o.slot
  {
    ApplyKeepsCoherent(crc, o, call);
    RebootKeepsSelection(crc, Apply(crc, o, call));
    hide Boot, Coherent, RecordFor;
  }

  // ---- Power cuts --------------------------------------------------------

  /** The flash contents a power cut may leave while record rec is written to sector i:
      untouched, torn by the erase or by the write (a torn record fails its check), or done. */
  predicate WriteCut(crc: Checksum, before: seq<Record>, i: nat, rec: Record, image: seq<Record>)
    requires |before| == 2 && i < 2
  {
    && |image| == 2 && image[1 - i] == before[1 - i]
    && (image[i] == before[i] || image[i] == rec || !IsRecordValid(crc, image[i]))
  }

  predicate CallCut(crc: Checksum, o: Ota, call: Call, image: seq<Record>)
    requires o.Shaped()
  {
    if Writes(Sel(o), call) then
      WriteCut(crc, o.flash, Select(Sel(o), call).sector, RecordFor(crc, Sel(o), call), image)
    else
      image == o.flash
  }

  /** Power-cut atomicity: booting after a cut anywhere inside a call finds the selection
      from exactly before or exactly after that call. */
  lemma CutIsAtomic(crc: Checksum, o: Ota, call: Call, image: seq<Record>)
    requires Coherent(crc, o) && o.seqNo != U32_MAX && CallCut(crc, o, call, image)
    ensures Sel(Boot(crc, image)) == Sel(o) || Sel(Boot(crc, image)) == Select(Sel(o), call)
  {
    var after := Select(Sel(o), call);
    if Writes(Sel(o), call) && image[after.sector] == RecordFor(crc, Sel(o), call) {
      assert image[1 - after.sector] == o.flash[o.sector];
      assert o.seqNo < Add32(o.seqNo, 1);
      BootFindsWinner(crc, image, after);
    } else {
      BootFindsWinner(crc, image, Sel(o));
    }
  }

  /** Cutting ota_init itself, while it writes the factory record, is harmless too. */
  lemma BootCutIsAtomic(crc: Checksum, flash: seq<Record>, image: seq<Record>)
    requires |flash| == 2 && !IsRecordValid(crc, flash[0]) && !IsRecordValid(crc, flash[1])
    requires WriteCut(crc, flash, 0, Factory(crc), image)
    ensures Sel(Boot(crc, image)) == Sel(Boot(crc, flash)) == Selection(0, VALID, 1, 0)
  {
  }

  /** One event of a run: a call that completed, or a call cut by a power loss that left
      image in flash and was followed by ota_init. */
  datatype Event = Done(call: Call) | Cut(call: Call, image: seq<Record>)

  predicate Possible(crc: Checksum, o: Ota, e: Event)
    requires o.Shaped()
  {
    o.seqNo != U32_MAX && (e.Cut? ==> CallCut(crc, o, e.call, e.image))
  }

  function After(crc: Checksum, o: Ota, e: Event): (o': Ota)
    requires o.Shaped() && Possible(crc, o, e)
  {
    match e
    case Done(call) => Apply(crc, o, call)
    case Cut(_, image) => Boot(crc, image)
  }

  /** o' is reachable from o by these events. */
  ghost predicate Runs(crc: Checksum, o: Ota, events: seq<Event>, o': Ota)
    decreases |events|
  {
    o.Shaped() &&
    if events == [] then o' == o
    else Possible(crc, o, events[0]) && Runs(crc, After(crc, o, events[0]), events[1..], o')
  }

  /** Replays the calls on the selection alone; a call counts if took says so. */
  function Replay(sel: Selection, events: seq<Event>, took: seq<bool>): Selection
    requires |took| == |events|
    decreases |events|
  {
    if events == [] then sel
    else Replay(if took[0] then Select(sel, events[0].call) else sel, events[1..], took[1..])
  }

  /** The running slot after calls of which took took effect: the target of the last switch
      or rollback among these. */
  function SlotAfter(slot: int, events: seq<Event>, took: seq<bool>): int
    requires |took| == |events|
    decreases |events|
  {
    if events == [] then slot
    else
      var n := |events| - 1;
      var before := SlotAfter(slot, events[..n], took[..n]);
      if !took[n] then before
      else
        match events[n].call
        case Switch(t) => if t == 0 || t == 1 then t else before
        case MarkValid => before
        case Rollback => 1 - before
  }

  /** Its state: on test after the last switch to another slot, valid after a mark or rollback. */
  function StateAfter(slot: int, state: u32, events: seq<Event>, took: seq<bool>): u32
    requires |took| == |events|
    decreases |events|
  {
    if events == [] then state
    else
      var n := |events| - 1;
      var before := StateAfter(slot, state, events[..n], took[..n]);
      if !took[n] then before
      else if events[n].call.Switch? then
        if events[n].call.target == 1 - SlotAfter(slot, events[..n], took[..n]) then TESTING else before
      else VALID
  }

  lemma {:induction false} ReplayLast(sel: Selection, events: seq<Event>, took: seq<bool>)
    requires |took| == |events| > 0
    ensures var n := |events| - 1; var before := Replay(sel, events[..n], took[..n]);
            Replay(sel, events, took) == if took[n] then Select(before, events[n].call) else before
    decreases |events|
  {
    var n := |events| - 1;
    if n > 0 {
      assert events[1..][..n - 1] == events[..n][1..] && took[1..][..n - 1] == took[..n][1..];
      ReplayLast(if took[0] then Select(sel, events[0].call) else sel, events[1..], took[1..]);
    }
  }

  /** So the calls that took effect leave the slot the last switch or rollback among them
      asked for, on test or valid as the last of them made it. */
  lemma {:induction false} ReplayEndsAt(sel: Selection, events: seq<Event>, took: seq<bool>)
    requires |took| == |events| && sel.slot < 2
    ensures var after := Replay(sel, events, took);
            after.slot == SlotAfter(sel.slot, events, took) < 2
            && after.state == StateAfter(sel.slot, sel.state, events, took)
    decreases |events|
  {
    if events != [] {
      var n := |events| - 1;
      ReplayEndsAt(sel, events[..n], took[..n]);
      ReplayLast(sel, events, took);
    }
    hide Replay;
  }

  lemma EventIsAllOrNothing(crc: Checksum, o: Ota, e: Event) returns (took: bool)
    requires Coherent(crc, o) && Possible(crc, o, e)
    ensures Coherent(crc, After(crc, o, e))
    ensures e.Done? ==> took
    ensures Sel(After(crc, o, e)) == if took then Select(Sel(o), e.call) else Sel(o)
  {
    match e {
      case Done(call) =>
        ApplyKeepsCoherent(crc, o, call);
        ApplyIsSelect(crc, o, call);
        took := true;
      case Cut(call, image) =>
        CutIsAtomic(crc, o, call, image);
        BootIsCoherent(crc, image);
        took := Sel(Boot(crc, image)) == Select(Sel(o), call);
    }
  }

  /** Over any run of calls, each possibly cut at any flash step, the two sectors behave as
      one atomic register: the final selection is that of running every completed call and
      some of the interrupted ones, in order, and so the target of the last switch or rollback
      among these. */
  lemma {:induction false} EveryRunIsAtomic(crc: Checksum, o: Ota, events: seq<Event>, o': Ota)
    returns (took: seq<bool>)
    requires Coherent(crc, o) && Runs(crc, o, events, o')
    ensures Coherent(crc, o')
    ensures |took| == |events| && (forall k :: 0 <= k < |events| && events[k].Done? ==> took[k])
    ensures Sel(o') == Replay(Sel(o), events, took)
    ensures o'.slot == SlotAfter(o.slot, events, took) && o'.state == StateAfter(o.slot, o.state, events, took)
    decreases |events|
  {
    if events == [] {
      took := [];
    } else {
      var head := EventIsAllOrNothing(crc, o, events[0]);
      var rest := EveryRunIsAtomic(crc, After(crc, o, events[0]), events[1..], o');
      took := [head] + rest;
      assert took[1..] == rest;
    }
    hide Coherent, Runs, After;
    ReplayEndsAt(Sel(o), events, took);
  }

  // ---- Snapshots ---------------------------------------------------------

  datatype Snapshot = Snapshot(records: seq<Record>, valid: seq<bool>) {
    predicate Shaped() {
      |records| == 2 && |valid| == 2
    }

    /** The records marked valid pass their check, as in any snapshot saved by this code. */
    predicate Genuine(crc: Checksum)
      requires Shaped()
    {
      (valid[0] ==> IsRecordValid(crc, records[0])) && (valid[1] ==> IsRecordValid(crc, records[1]))
    }
  }

  function Save(o: Ota): Snapshot {
    Snapshot(o.records, o.valid)
  }

  predicate SectorMatches(snap: Snapshot, o: Ota, i: nat)
    requires snap.Shaped() && o.Shaped() && i < 2
  {
    snap.valid[i] == o.valid[i] && (snap.valid[i] ==> snap.records[i] == o.records[i])
  }

  predicate Matches(snap: Snapshot, o: Ota)
    requires snap.Shaped() && o.Shaped()
  {
    SectorMatches(snap, o, 0) && SectorMatches(snap, o, 1)
  }

  function RestoreSector(snap: Snapshot, o: Ota, i: nat): (o': Ota)
    requires snap.Shaped() && o.Shaped() && i < 2
    ensures o'.Shaped()
  {
    if SectorMatches(snap, o, i) then o
    else if snap.valid[i] then WriteRecord(o, i, snap.records[i])
    else Ota(o.flash[i := ERASED], o.records[i := snap.records[i]], o.valid[i := false],
             o.slot, o.fallback, o.state, o.seqNo, o.sector)
  }

  function Restore(crc: Checksum, snap: Snapshot, o: Ota): Ota
    requires snap.Shaped() && o.Shaped()
  {
    if Matches(snap, o) then o
    else SelectActive(crc, RestoreSector(snap, RestoreSector(snap, o, 0), 1))
  }

  lemma RestoreSectorMirrors(crc: Checksum, snap: Snapshot, o: Ota, i: nat)
    requires snap.Shaped() && snap.Genuine(crc) && Mirrors(crc, o) && i < 2
    ensures Mirrors(crc, RestoreSector(snap, o, i)) && SectorMatches(snap, RestoreSector(snap, o, i), i)
  {
  }

  /** A snapshot with a valid record comes back whole: each sector is valid exactly if it was
      saved as valid, and then holds the saved record, in RAM and in flash. */
  predicate BroughtBack(snap: Snapshot, o: Ota) {
    && o.Shaped() && snap.Shaped()
    && SectorIsBack(snap, o, 0) && SectorIsBack(snap, o, 1)
  }

  predicate SectorIsBack(snap: Snapshot, o: Ota, i: nat)
    requires o.Shaped() && snap.Shaped() && i < 2
  {
    o.valid[i] == snap.valid[i] && (snap.valid[i] ==> o.flash[i] == o.records[i] == snap.records[i])
  }

  lemma SectorComesBack(crc: Checksum, snap: Snapshot, o: Ota, i: nat)
    requires snap.Shaped() && Mirrors(crc, o) && i < 2
    ensures var o' := RestoreSector(snap, o, i);
            SectorIsBack(snap, o', i) && (SectorIsBack(snap, o, 1 - i) ==> SectorIsBack(snap, o', 1 - i))
  {
  }

  lemma SelectKeepsSectors(crc: Checksum, snap: Snapshot, o: Ota)
    requires snap.Shaped() && o.Shaped() && (snap.valid[0] || snap.valid[1]) && BroughtBack(snap, o)
    requires snap.Genuine(crc)
    ensures BroughtBack(snap, SelectActive(crc, o))
  {
  }

  lemma RestoreBringsBack(crc: Checksum, snap: Snapshot, o: Ota)
    requires snap.Shaped() && snap.Genuine(crc) && Mirrors(crc, o) && (snap.valid[0] || snap.valid[1])
    ensures BroughtBack(snap, Restore(crc, snap, o))
  {
    if Matches(snap, o) {
      assert SectorIsBack(snap, o, 0) && SectorIsBack(snap, o, 1);
    } else {
      var first := RestoreSector(snap, o, 0);
      RestoreSectorMirrors(crc, snap, o, 0);
      SectorComesBack(crc, snap, o, 0);
      SectorComesBack(crc, snap, first, 1);
      hide RestoreSector, Mirrors, SectorIsBack, SelectActive;
      SelectKeepsSectors(crc, snap, RestoreSector(snap, first, 1));
    }
  }

  /** After a restore the snapshot matches, unless neither of its records was valid and
      something had to be rewritten: then a factory record takes sector 0. */
  lemma RestoreMatchesIff(crc: Checksum, snap: Snapshot, o: Ota)
    requires snap.Shaped() && Mirrors(crc, o)
    requires snap.Genuine(crc)
    ensures var o' := Restore(crc, snap, o);
            && o'.Shaped()
            && (Matches(snap, o') <==> Matches(snap, o) || snap.valid[0] || snap.valid[1])
  {
    if snap.valid[0] || snap.valid[1] {
      RestoreBringsBack(crc, snap, o);
      hide Restore;
    }
  }

  lemma GenuineRestore(crc: Checksum, snap: Snapshot, o: Ota)
    requires snap.Shaped() && o.Shaped()
    ensures snap.Genuine(crc) && Coherent(crc, o) ==>
              && Coherent(crc, Restore(crc, snap, o))
              && (snap.valid[0] || snap.valid[1] ==> BroughtBack(snap, Restore(crc, snap, o)))
  {
    if snap.Genuine(crc) && Coherent(crc, o) {
      RestoreKeepsCoherent(crc, snap, o);
      if snap.valid[0] || snap.valid[1] {
        RestoreBringsBack(crc, snap, o);
      }
    }
    hide Restore, BroughtBack;
  }

  /** Whatever was called since, restoring what was saved gives back the slot, its state and
      its sequence number, now and after the next boot. */
  lemma RestoreUndoes(crc: Checksum, saved: Ota, o: Ota)
    requires Coherent(crc, saved) && Coherent(crc, o)
    ensures Sel(Restore(crc, Save(saved), o)) == Sel(saved)
    ensures Sel(Boot(crc, Restore(crc, Save(saved), o).flash)) == Sel(saved)
  {
    var o' := Restore(crc, Save(saved), o);
    RestoreBringsBack(crc, Save(saved), o);
    RestoreKeepsCoherent(crc, Save(saved), o);
    hide Restore;
    assert o'.sector == saved.sector;
  }

  /** A state saved earlier in a run and restored later survives a reboot like any other. */
  lemma RestoreKeepsCoherent(crc: Checksum, snap: Snapshot, o: Ota)
    requires snap.Shaped() && Coherent(crc, o)
    requires snap.Genuine(crc)
    ensures Coherent(crc, Restore(crc, snap, o))
    ensures Sel(Boot(crc, Restore(crc, snap, o).flash)) == Sel(Restore(crc, snap, o))
  {
    if !Matches(snap, o) {
      RestoreSectorMirrors(crc, snap, o, 0);
      RestoreSectorMirrors(crc, snap, RestoreSector(snap, o, 0), 1);
      SelectIsCoherent(crc, RestoreSector(snap, RestoreSector(snap, o, 0), 1));
    }
    RebootKeepsSelection(crc, Restore(crc, snap, o));
  }

  /** What a power cut may leave while sector i is restored. */
  predicate SectorCut(crc: Checksum, snap: Snapshot, o: Ota, i: nat, image: seq<Record>)
    requires snap.Shaped() && o.Shaped() && i < 2
  {
    if SectorMatches(snap, o, i) then image == o.flash
    else WriteCut(crc, o.flash, i, if snap.valid[i] then snap.records[i] else o.flash[i], image)
  }

  /** What one may leave during a restore: sector 0, then sector 1, then perhaps a factory
      record. */
  predicate RestoreCut(crc: Checksum, snap: Snapshot, o: Ota, image: seq<Record>)
    requires snap.Shaped() && o.Shaped()
  {
    var first := RestoreSector(snap, o, 0);
    var both := RestoreSector(snap, first, 1);
    || SectorCut(crc, snap, o, 0, image)
    || SectorCut(crc, snap, first, 1, image)
    || (!both.valid[0] && !both.valid[1] && WriteCut(crc, both.flash, 0, Factory(crc), image))
  }

  /** A record that was there before, is the snapshot's, or is the factory's. */
  predicate Known(crc: Checksum, snap: Snapshot, o: Ota, r: Record)
    requires snap.Shaped() && o.Shaped()
  {
    || r in o.flash || r == Factory(crc)
    || (snap.valid[0] && r == snap.records[0]) || (snap.valid[1] && r == snap.records[1])
  }

  /** Two sectors are rewritten, so a cut may leave one old record beside one of the snapshot.
      Booting is coherent all the same, and selects a record that was there before, is the
      snapshot's, or is the factory's: never a torn one. */
  lemma RestoreCutBootsKnownRecord(crc: Checksum, snap: Snapshot, o: Ota, image: seq<Record>)
    requires snap.Shaped() && o.Shaped() && RestoreCut(crc, snap, o, image)
    ensures |image| == 2
    ensures var b := Boot(crc, image);
            && Coherent(crc, b) && Known(crc, snap, o, b.flash[b.sector]) && IsRecordValid(crc, b.flash[b.sector])
  {
    BootIsCoherent(crc, image);
    forall i: nat | i < 2 ensures IsRecordValid(crc, image[i]) ==> Known(crc, snap, o, image[i]) {
      RestoreCutRecords(crc, snap, o, image, i);
    }
    hide RestoreCut, Known;
  }

  lemma RestoreCutRecords(crc: Checksum, snap: Snapshot, o: Ota, image: seq<Record>, i: nat)
    requires snap.Shaped() && o.Shaped() && RestoreCut(crc, snap, o, image) && i < 2
    ensures |image| == 2
    ensures IsRecordValid(crc, image[i]) ==> Known(crc, snap, o, image[i])
  {
    assert !IsRecordValid(crc, ERASED);
    var first := RestoreSector(snap, o, 0);
    assert first.flash[0] in {o.flash[0], snap.records[0], ERASED} && first.flash[1] == o.flash[1];
  }

  // ---- The subsystem as it runs ------------------------------------------

  class Subsystem {
    const crc: Checksum
    var flash: seq<Record>
    var records: seq<Record>
    var valid: seq<bool>
    var activeSlot: u32
    var fallbackSlot: u32
    var activeState: u32
    var activeSeq: u32
    var activeSector: nat
    ghost var images: seq<seq<Record>>  // every flash content a power cut could have left so far

    ghost function Abs(): Ota
      reads this
    {
      Ota(flash, records, valid, activeSlot, fallbackSlot, activeState, activeSeq, activeSector)
    }

    ghost predicate Shaped()
      reads this
    {
      |flash| == 2 && |records| == 2 && |valid| == 2
    }

    /** Every image logged since the log had length from satisfies WriteCut. */
    ghost predicate CutsAre(from: nat, before: seq<Record>, i: nat, rec: Record)
      requires |before| == 2 && i < 2
      reads this
    {
      forall k: nat :: from <= k < |images| ==> WriteCut(crc, before, i, rec, images[k])
    }

    constructor (crc: Checksum, flash: seq<Record>)
      requires |flash| == 2
      ensures this.crc == crc && Abs() == Boot(crc, flash)
      ensures images == [] || CutsAre(0, flash, 0, Factory(crc))
    {
      this.crc, this.flash := crc, flash;
      records, valid := flash, [false, false];
      activeSlot, fallbackSlot, activeState, activeSeq, activeSector := 0, 0, 0, 0, 0;
      images := [];
      new;
      Init();
    }

    /** Erases one sector; a cut leaves it torn. */
    method EraseSector(i: nat)
      requires Shaped() && i < 2
      modifies this`flash, this`images
      ensures flash == old(flash)[i := ERASED]
      ensures old(images) <= images
      ensures forall rec :: CutsAre(|old(images)|, old(flash), i, rec)
    {
      assert !IsRecordValid(crc, ERASED);
      ghost var torn: Record :| !IsRecordValid(crc, torn);
      images := images + [flash[i := torn]] + [flash[i := ERASED]];
      flash := flash[i := ERASED];
    }

    /** Programs one record into a sector; a cut leaves it torn. */
    method WriteSector(i: nat, rec: Record)
      requires Shaped() && i < 2
      modifies this`flash, this`images
      ensures flash == old(flash)[i := Program(old(flash[i]), rec)]
      ensures old(images) <= images
      ensures old(flash[i]) == ERASED ==> CutsAre(|old(images)|, old(flash), i, rec)
    {
      assert !IsRecordValid(crc, ERASED);
      ghost var torn: Record :| !IsRecordValid(crc, torn);
      images := images + [flash[i := torn]];
      flash := flash[i := Program(flash[i], rec)];
      images := images + [flash];
      ProgramErased(rec);
    }

    method WriteSelectRecord(i: nat, rec: Record)
      requires Shaped() && i < 2
      modifies this`flash, this`images, this`records, this`valid
      ensures Abs() == WriteRecord(old(Abs()), i, rec)
      ensures old(images) <= images
      ensures CutsAre(|old(images)|, old(flash), i, rec)
    {
      records := records[i := rec];
      valid := valid[i := true];
      EraseSector(i);
      ghost var erased := images;
      assert CutsAre(|old(images)|, old(flash), i, rec);
      WriteSector(i, rec);
      ProgramErased(rec);
      forall k | |old(images)| <= k < |images| ensures WriteCut(crc, old(flash), i, rec, images[k]) {
        if k < |erased| {
          assert images[k] == erased[k];
        }
      }
    }

    method SelectActiveRecord()
      requires Shaped()
      modifies this
      ensures Abs() == SelectActive(crc, old(Abs()))
      ensures old(images) <= images
      ensures if old(!valid[0] && !valid[1]) then CutsAre(|old(images)|, old(flash), 0, Factory(crc))
              else images == old(images)
    {
      if !valid[0] && !valid[1] {
        WriteSelectRecord(0, NewRecord(crc, 1, 0, VALID, 0));
        activeSlot, fallbackSlot, activeState, activeSeq, activeSector := 0, 0, VALID, 1, 0;
      } else if valid[0] && !valid[1] {
        activeSlot := records[0].body.slot;
        fallbackSlot := activeSlot;
        activeState, activeSeq, activeSector := records[0].body.state, records[0].body.seqNo, 0;
      } else if !valid[0] && valid[1] {
        activeSlot := records[1].body.slot;
        fallbackSlot := activeSlot;
        activeState, activeSeq, activeSector := records[1].body.state, records[1].body.seqNo, 1;
      } else if records[0].body.seqNo >= records[1].body.seqNo {
        activeSlot, fallbackSlot := records[0].body.slot, records[1].body.slot;
        activeState, activeSeq, activeSector := records[0].body.state, records[0].body.seqNo, 0;
      } else {
        activeSlot, fallbackSlot := records[1].body.slot, records[0].body.slot;
        activeState, activeSeq, activeSector := records[1].body.state, records[1].body.seqNo, 1;
      }
    }

    method Init()
      requires Shaped()
      modifies this
      ensures Abs() == Boot(crc, old(flash))
      ensures images == old(images) || CutsAre(|old(images)|, old(flash), 0, Factory(crc))
    {
      records := flash;
      valid := [IsRecordValid(crc, records[0]), IsRecordValid(crc, records[1])];
      SelectActiveRecord();
      var bootAttempts := 0;
      if activeState == TESTING {
        bootAttempts := bootAttempts + 1;
        assert bootAttempts <= 3;  // so no rollback
      }
    }

    /** Every flash image logged by a call boots into the selection before or after it. */
    ghost predicate AtomicSince(from: nat, before: Selection, after: Selection)
      reads this
    {
      forall k: nat :: from <= k < |images| ==>
                    |images[k]| == 2 && (Sel(Boot(crc, images[k])) == before || Sel(Boot(crc, images[k])) == after)
    }

    /** The states from which calls are atomic and survive a reboot. */
    ghost predicate Regular()
      reads this
    {
      Coherent(crc, Abs()) && activeSeq != U32_MAX
    }

    /** write_select_record as the three calls use it: on the sector that is not active. */
    method WriteNextRecord(next: nat, rec: Record, ghost call: Call)
      requires Abs().Shaped() && Writes(Sel(Abs()), call)
      requires next == 1 - activeSector && rec == RecordFor(crc, Sel(Abs()), call)
      modifies this`flash, this`images, this`records, this`valid
      ensures Abs() == WriteRecord(old(Abs()), next, rec)
      ensures old(images) <= images
      ensures old(Regular()) ==> AtomicSince(|old(images)|, old(Sel(Abs())), Select(old(Sel(Abs())), call))
    {
      ghost var o := Abs();
      WriteSelectRecord(next, rec);
      forall k: nat | Coherent(crc, o) && o.seqNo != U32_MAX && |old(images)| <= k < |images|
        ensures Sel(Boot(crc, images[k])) == Sel(o) || Sel(Boot(crc, images[k])) == Select(Sel(o), call)
      {
        CutIsAtomic(crc, o, call, images[k]);
      }
    }

    method SwitchSlot(slot: SlotArg) returns (status: Status)
      requires Abs().Shaped()
      modifies this
      ensures status == Reply(old(Sel(Abs())), Switch(slot))
      ensures Abs() == Apply(crc, old(Abs()), Switch(slot))
      ensures status == Ok <==> (slot == 0 || slot == 1) && slot != old(activeSlot)
      ensures status == InvalidParam <==> slot == -1 || slot == 2
      ensures status == Ok ==> activeSlot == slot && activeState == TESTING && fallbackSlot == old(activeSlot)
      ensures status == Ok && old(Regular()) ==> Holds(Boot(crc, flash), slot, TESTING, old(activeSeq) + 1)
      ensures status != Ok ==> Abs() == old(Abs()) && images == old(images)
      ensures old(images) <= images
      ensures old(Regular()) ==> Coherent(crc, Abs()) && AtomicSince(|old(images)|, old(Sel(Abs())), Sel(Abs()))
    {
      hide Boot, Coherent, Wins;
      if slot == -1 || slot >= 2 {
        return InvalidParam;
      }
      if slot == activeSlot {
        return AlreadyActive;
      }
      if Regular() {
        ApplyKeepsCoherent(crc, Abs(), Switch(slot));
        CallTakesEffect(crc, Abs(), Switch(slot));
      }
      var next := 1 - activeSector;
      var rec := NewRecord(crc, Add32(activeSeq, 1), slot, TESTING, 1);
      WriteNextRecord(next, rec, Switch(slot));
      fallbackSlot := activeSlot;
      activeSlot, activeState, activeSeq, activeSector := slot, TESTING, rec.body.seqNo, next;
      return Ok;
    }

    method MarkSlotValid()
      requires Abs().Shaped()
      modifies this
      ensures Abs() == Apply(crc, old(Abs()), MarkValid)
      ensures activeSlot == old(activeSlot) && activeState == VALID && fallbackSlot == old(fallbackSlot)
      ensures old(Regular()) ==> Holds(Boot(crc, flash), activeSlot, VALID, activeSeq)
      ensures old(images) <= images
      ensures old(Regular()) ==> Coherent(crc, Abs()) && AtomicSince(|old(images)|, old(Sel(Abs())), Sel(Abs()))
    {
      if Regular() {
        ApplyKeepsCoherent(crc, Abs(), MarkValid);
        CallTakesEffect(crc, Abs(), MarkValid);
      }
      if activeState == VALID {
        return;
      }
      var next := 1 - activeSector;
      var rec := NewRecord(crc, Add32(activeSeq, 1), activeSlot, VALID, 0);
      WriteNextRecord(next, rec, MarkValid);
      activeState, activeSeq, activeSector := VALID, rec.body.seqNo, next;
    }

    method RollBack()
      requires Abs().Shaped()
      modifies this
      ensures Abs() == Apply(crc, old(Abs()), Rollback)
      ensures activeSlot == 1 - old(activeSlot) && activeState == VALID && fallbackSlot == old(activeSlot)
      ensures old(Regular()) ==> Holds(Boot(crc, flash), activeSlot, VALID, old(activeSeq) + 1)
      ensures old(images) <= images
      ensures old(Regular()) ==> Coherent(crc, Abs()) && AtomicSince(|old(images)|, old(Sel(Abs())), Sel(Abs()))
    {
      if Regular() {
        ApplyKeepsCoherent(crc, Abs(), Rollback);
        CallTakesEffect(crc, Abs(), Rollback);
      }
      var target: u32 := if activeSlot == 0 then 1 else 0;
      var next := 1 - activeSector;
      var rec := NewRecord(crc, Add32(activeSeq, 1), target, VALID, 0);
      WriteNextRecord(next, rec, Rollback);
      fallbackSlot := activeSlot;
      activeSlot, activeState, activeSeq, activeSector := target, VALID, rec.body.seqNo, next;
    }

    /** Any snapshot is restored as specified; one saved by this code leaves RAM and flash
        coherent, and every content a cut may leave on the way is one RestoreCut allows. */
    method RestoreSnapshot(snap: Snapshot) returns (rewritten: bool)
      requires snap.Shaped() && Abs().Shaped()
      modifies this
      ensures Abs() == Restore(crc, snap, old(Abs()))
      ensures rewritten <==> !old(Matches(snap, Abs()))
      ensures snap.Genuine(crc) && old(Coherent(crc, Abs())) ==> Coherent(crc, Abs())
      ensures snap.Genuine(crc) && old(Coherent(crc, Abs())) && (snap.valid[0] || snap.valid[1]) ==>
                BroughtBack(snap, Abs())
      ensures old(images) <= images
      ensures forall k: nat :: |old(images)| <= k < |images| ==> RestoreCut(crc, snap, old(Abs()), images[k])
    {
      ghost var o := Abs();
      ghost var from := |images|;
      RestoredInTwo(crc, snap, o);
      GenuineRestore(crc, snap, o);
      hide Coherent, Mirrors, BroughtBack, RestoreCut, SectorCut, IsRecordValid, WriteCut, SelectActive, Factory;
      hide RestoreSector, Restored, SectorMatches, Restore, Matches;
      rewritten := false;
      var i := 0;
      while i < 2
        invariant i <= 2 && old(images) <= images
        invariant Abs() == Restored(snap, o, i)
        invariant rewritten <==> (i > 0 && !SectorMatches(snap, o, 0)) || (i > 1 && !SectorMatches(snap, o, 1))
        invariant forall k: nat :: from <= k < |images| ==> RestoreCut(crc, snap, o, images[k])
      {
        ghost var logged := images;
        RestoredNext(snap, o, i);
        var wrote := RestoreOne(snap, i);
        rewritten := rewritten || wrote;
        forall k: nat | from <= k < |images| ensures RestoreCut(crc, snap, o, images[k]) {
          if k < |logged| {
            assert images[k] == logged[k];
          } else {
            CutOfSector(crc, snap, o, i, images[k]);
          }
        }
        i := i + 1;
      }
      if rewritten {
        ghost var logged := images;
        SelectActiveRecord();
        forall k: nat | from <= k < |images| ensures RestoreCut(crc, snap, o, images[k]) {
          if k < |logged| {
            assert images[k] == logged[k];
          } else {
            CutOfFactory(crc, snap, o, images[k]);
          }
        }
      }
    }

    /** One sector of a restore. */
    method RestoreOne(snap: Snapshot, i: nat) returns (wrote: bool)
      requires snap.Shaped() && Abs().Shaped() && i < 2
      modifies this`flash, this`images, this`records, this`valid
      ensures Abs() == RestoreSector(snap, old(Abs()), i)
      ensures wrote <==> !SectorMatches(snap, old(Abs()), i)
      ensures old(images) <= images
      ensures forall k: nat :: |old(images)| <= k < |images| ==> SectorCut(crc, snap, old(Abs()), i, images[k])
    {
      if snap.valid[i] == valid[i] && (snap.valid[i] ==> snap.records[i] == records[i]) {
        return false;
      }
      wrote := true;
      if snap.valid[i] {
        WriteSelectRecord(i, snap.records[i]);
      } else {
        EraseSector(i);
        assert CutsAre(|old(images)|, old(flash), i, old(flash[i]));
        records := records[i := snap.records[i]];
        valid := valid[i := false];
      }
    }
  }

  /** The state after the first i sectors of a restore. */
  function Restored(snap: Snapshot, o: Ota, i: nat): (r: Ota)
    requires snap.Shaped() && o.Shaped() && i <= 2
    ensures r.Shaped()
  {
    if i == 0 then o else RestoreSector(snap, Restored(snap, o, i - 1), i - 1)
  }

  lemma RestoredNext(snap: Snapshot, o: Ota, i: nat)
    requires snap.Shaped() && o.Shaped() && i < 2
    ensures Restored(snap, o, i + 1) == RestoreSector(snap, Restored(snap, o, i), i)
    ensures SectorMatches(snap, Restored(snap, o, i), i) == SectorMatches(snap, o, i)
  {
  }

  lemma RestoredInTwo(crc: Checksum, snap: Snapshot, o: Ota)
    requires snap.Shaped() && o.Shaped()
    ensures Restored(snap, o, 0) == o
    ensures Restored(snap, o, 2) == RestoreSector(snap, RestoreSector(snap, o, 0), 1)
    ensures Matches(snap, o) <==> SectorMatches(snap, o, 0) && SectorMatches(snap, o, 1)
    ensures Restore(crc, snap, o) == if Matches(snap, o) then o else SelectActive(crc, Restored(snap, o, 2))
    ensures Matches(snap, o) ==> Restored(snap, o, 2) == o
  {
    assert Restored(snap, o, 1) == RestoreSector(snap, o, 0);
  }

  lemma CutOfSector(crc: Checksum, snap: Snapshot, o: Ota, i: nat, image: seq<Record>)
    requires snap.Shaped() && o.Shaped() && i < 2 && SectorCut(crc, snap, Restored(snap, o, i), i, image)
    ensures RestoreCut(crc, snap, o, image)
  {
    assert Restored(snap, o, 1) == RestoreSector(snap, o, 0);
  }

  lemma CutOfFactory(crc: Checksum, snap: Snapshot, o: Ota, image: seq<Record>)
    requires snap.Shaped() && o.Shaped()
    requires var both := Restored(snap, o, 2);
             !both.valid[0] && !both.valid[1] && WriteCut(crc, both.flash, 0, Factory(crc), image)
    ensures RestoreCut(crc, snap, o, image)
  {
    assert Restored(snap, o, 1) == RestoreSector(snap, o, 0);
  }
}

// The PMP driver as it runs (src/pmp.c): control registers read and written one at a
// time. Each method is tied to the functions of Pmp and promises what they were proved to
// do to the entries.

module PmpRuntime {
  import opened Pmp

  class PmpUnit {
    var regs: Csrs

    constructor (regs: Csrs)
      ensures this.regs == regs
    {
      this.regs := regs;
    }

    method WriteCfg(v: bv32)
      modifies this
      ensures regs == old(regs).(cfg := v)
    {
      regs := regs.(cfg := v);
    }

    method WriteAddr(i: nat, v: bv32)
      requires i < 4
      modifies this
      ensures regs == WithAddr(old(regs), i, v)
    {
      regs := WithAddr(regs, i, v);
    }

    /** pmp_init: one pass over the entries, then one write of pmpcfg0. */
    method Initialise()
      modifies this
      ensures regs == Init(old(regs))
      ensures forall j: nat :: j < 4 && IsLocked(old(regs), j) ==> SameEntry(old(regs), regs, j)
      ensures forall j: nat :: j < 4 && !IsLocked(old(regs), j) ==> Entry(regs.cfg, j) == 0 && Addr(regs, j) == 0
    {
      hide Entry, Cleared, WithAddr, IsLocked;
      ghost var c := regs;
      var curCfg := regs.cfg;
      var i := 0;
      while i < 4
        invariant i <= 4 && regs == InitAddrs(c, i) && curCfg == InitCfg(c, i)
      {
        InitEntryKept(c, i);
        if !EntryLocked(curCfg, i) {
          curCfg := Cleared(curCfg, i);
          WriteAddr(i, 0);
        }
        i := i + 1;
      }
      WriteCfg(curCfg);
      forall j: nat | j < 4
        ensures if IsLocked(c, j) then SameEntry(c, regs, j) else Entry(regs.cfg, j) == 0 && Addr(regs, j) == 0
      {
        InitClears(c, j);
      }
      hide SameEntry;
    }

    /** pmp_set_region; off and moved are the registers after its first two writes. */
    method SetTo(r: Region) returns (status: Status, ghost off: Csrs, ghost moved: Csrs)
      modifies this
      ensures match SetRegion(old(regs), r)
              case Rejected(why) => status == why && regs == old(regs)
              case Written(o, m, n) => status == Ok && off == o && moved == m && regs == n
      ensures status == Ok <==> r.idx < 4 && !IsLocked(old(regs), r.idx) && Acceptable(old(regs), r)
      ensures status != Ok ==>
                status == if r.idx >= 4 then InvalidRegion
                          else if IsLocked(old(regs), r.idx) then Locked
                          else Complaint(r)
      ensures status == Ok ==> MovesWhileOff(old(regs), off, moved, regs, r.idx)
      ensures status == Ok && Resolve(old(regs), r) == Napot ==>
                forall a :: EntryMatches(regs, r.idx, a) <==> Inside(a, r.start, r.length)
    {
      SetPromises(regs, r);
      SetAcceptsIff(regs, r);
      hide MovesWhileOff, EntryMatches, Inside, Acceptable, Complaint;
      hide Entry, Cleared, Placed, EntryByte, WithAddr, CalcNapot, Bottom, WordAligned, WellAligned, WordOf;
      off, moved := regs, regs;
      if r.idx >= 4 {
        return InvalidRegion, off, moved;
      }
      var cfg := regs.cfg;
      if EntryLocked(cfg, r.idx) {
        return Locked, off, moved;
      }
      var coded := EncodeRegion(r);
      if coded.Refused? {
        return coded.status, off, moved;
      }
      cfg := Cleared(cfg, r.idx);
      WriteCfg(cfg);
      off := regs;
      WriteAddr(r.idx, coded.addr);
      moved := regs;
      cfg := Placed(cfg, r.idx, EntryByte(coded.field, r));
      WriteCfg(cfg);
      WithAddrKeepsCfg(off, r.idx, coded.addr);
      return Ok, off, moved;
    }

    /** The mode that fits the region, its address register value and A field. */
    method EncodeRegion(r: Region) returns (coded: Coded)
      ensures coded == Code(regs, r) && EncodesExactly(regs, r, coded)
    {
      CodeEncodesExactly(regs, r);
      hide EncodesExactly;
      hide CalcNapot, Bottom, WordAligned, WellAligned, WordOf, EndOf;
      var mode := r.mode;
      if mode == Auto {
        if r.length == 0 {
          mode := Off;
        } else if r.length == 4 && WordAligned(r.start) {
          mode := Na4;
        } else if WellAligned(r.start, r.length) {
          mode := Napot;
        } else if WordAligned(r.start) && r.start == Bottom(regs, r.idx) {
          mode := Tor;
        } else {
          return Refused(InvalidAlign);
        }
      }
      match mode {
        case Off => return Coded(0, A_OFF);
        case Tor =>
          if !WordAligned(r.start) {
            return Refused(InvalidAlign);
          }
          if r.start != Bottom(regs, r.idx) {
            return Refused(InvalidAddr);
          }
          return Coded(WordOf(EndOf(r)), A_TOR);
        case Na4 =>
          if !WordAligned(r.start) {
            return Refused(InvalidAlign);
          }
          return Coded(WordOf(r.start), A_NA4);
        case Napot =>
          var (status, addr) := CalcNapot(r.start, r.length);
          if status != Ok {
            return Refused(status);
          }
          return Coded(addr, A_NAPOT);
        case _ => return Refused(InvalidRegion);
      }
    }

    /** pmp_disable_region; off are the registers after its first write. */
    method DisableEntry(i: nat) returns (status: Status, ghost off: Csrs)
      modifies this
      ensures match Disable(old(regs), i)
              case Rejected(why) => status == why && regs == old(regs)
              case Written(o, _, n) => status == Ok && off == o && regs == n
      ensures status == Ok <==> i < 4 && !IsLocked(old(regs), i)
      ensures status == Ok ==>
                !IsLocked(old(regs), i) && MovesWhileOff(old(regs), off, regs, regs, i) && Addr(regs, i) == 0
    {
      if Disable(regs, i).Written? {
        DisableMovesWhileOff(regs, i);
      }
      hide MovesWhileOff, Addr;
      hide Entry, Cleared, WithAddr;
      off := regs;
      if i >= 4 {
        return InvalidRegion, off;
      }
      if EntryLocked(regs.cfg, i) {
        return Locked, off;
      }
      WriteCfg(Cleared(regs.cfg, i));
      off := regs;
      WriteAddr(i, 0);
      return Ok, off;
    }
  }

  predicate EntryLocked(cfg: bv32, i: nat) {
    Entry(cfg, i) & L_BIT != 0
  }

  /** The loop of pmp_init clears only entries it has passed. */
  lemma InitEntryKept(c: Csrs, i: nat)
    requires i < 4
    ensures Entry(InitCfg(c, i), i) == Entry(c.cfg, i)
    ensures EntryLocked(InitCfg(c, i), i) <==> IsLocked(c, i)
  {
    InitCfgAt(c, i, i);
    hide Entry, InitCfg;
  }

  lemma SetPromises(c: Csrs, r: Region)
    ensures SetRegion(c, r).Written? ==>
              var o := SetRegion(c, r);
              && !IsLocked(c, r.idx) && MovesWhileOff(c, o.off, o.moved, o.on, r.idx)
              && (Resolve(c, r) == Napot ==> forall a :: EntryMatches(o.on, r.idx, a) <==> Inside(a, r.start, r.length))
  {
    if SetRegion(c, r).Written? {
      SetMovesWhileOff(c, r);
      if Resolve(c, r) == Napot {
        forall a ensures EntryMatches(SetRegion(c, r).on, r.idx, a) <==> Inside(a, r.start, r.length) {
          NapotRegionIsExact(c, r, a);
        }
      }
    }
    hide *;
  }

  lemma WithAddrKeepsCfg(c: Csrs, i: nat, v: bv32)
    ensures WithAddr(c, i, v).cfg == c.cfg
  {
  }
}

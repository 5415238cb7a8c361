// The key-value store as it runs (src/nvs.c): an array of 32 entries changed in
// place, and a sector rewritten step by step. Each method is tied to the functions
// of NvsStore.

module NvsRuntime {
  import opened Words
  import opened NvsStore

  /** Sector contents that may each be left by a power cut during one rewrite. */
  ghost predicate AllCuts(cuts: seq<Sector>, sums: Sums, before: Sector, es: seq<Entry>, hdr: Header) {
    forall k :: 0 <= k < |cuts| ==> RewriteCut(sums, before, es, hdr, cuts[k])
  }

  const BLANK_SECTOR: Sector :=
    Sector(Header(U32_MAX, U32_MAX, U32_MAX, U32_MAX), seq(MAX_ENTRIES, _ => BLANK))

  /** The bytes before the first terminator. */
  function CString(b: Bytes): Bytes {
    if b == [] || b[0] == 0 then [] else [b[0]] + CString(b[1..])
  }

  lemma {:induction false} CStringStops(v: Bytes, rest: Bytes)
    requires 0 !in v
    ensures CString(v + [0] + rest) == v
  {
    if v != [] {
      assert (v + [0] + rest)[1..] == v[1..] + [0] + rest;
      CStringStops(v[1..], rest);
    }
  }

  /** While entry i is programmed: torn, or done. */
  lemma EntryCut(sums: Sums, before: Sector, es: seq<Entry>, s: Sector, i: nat, torn: Entry)
    requires i < |es| <= MAX_ENTRIES && s.slots == es[..i] + seq(MAX_ENTRIES - i, _ => BLANK) && !Genuine(sums, torn)
    ensures var done := s.slots[i := es[i]];
            && done == es[..i + 1] + seq(MAX_ENTRIES - (i + 1), _ => BLANK)
            && RewriteCut(sums, before, es, s.hdr, s.(slots := s.slots[i := torn]))
            && RewriteCut(sums, before, es, s.hdr, s.(slots := done))
  {
    assert !Genuine(sums, BLANK);
    assert ProgrammedUpTo(sums, es, i, s.slots[i := torn]);
    assert ProgrammedUpTo(sums, es, i + 1, s.slots[i := es[i]]);
  }

  class Nvs {
    const sums: Sums
    const cache: array<Entry>
    var count: nat
    var seqNo: u32
    var dirty: bool
    var dirtySeen: bool
    var dirtySince: nat
    var flashCrc: u32
    var initialized: bool
    var sector: Sector

    ghost predicate Shaped()
      reads this
    {
      cache.Length == MAX_ENTRIES && count <= MAX_ENTRIES && |sector.slots| == MAX_ENTRIES
    }

    ghost function Abs(): Store
      requires Shaped()
      reads this, cache
    {
      Store(cache[..count], seqNo, dirty, dirtySeen, dirtySince, flashCrc, sector)
    }

    /** Power-on: RAM state is meaningless until Init. */
    constructor (sums: Sums, sector: Sector)
      requires |sector.slots| == MAX_ENTRIES
      ensures Shaped() && fresh(cache)
      ensures this.sums == sums && Abs().(dirtySince := 0) == Boot(sums, sector)
    {
      this.sums, this.sector := sums, sector;
      cache := new Entry[MAX_ENTRIES](_ => BLANK);
      count, seqNo, dirty, dirtySeen, dirtySince, flashCrc, initialized := 0, 1, false, false, 0, 0, false;
      new;
      Init();
    }

    /** Erases the sector; cuts are the contents a power loss here may leave, with the header
        spoiled or spared. */
    method EraseSector() returns (ghost cuts: seq<Sector>)
      requires Shaped()
      modifies this`sector
      ensures sector == BLANK_SECTOR
      ensures forall es, hdr :: AllCuts(cuts, sums, old(sector), es, hdr)
    {
      assert EraseCut(sums, sector, sector);
      ghost var spared: Sector :| EraseCut(sums, sector, spared);
      assert |BLANK_SECTOR.slots| == MAX_ENTRIES && !HeaderOk(sums, BLANK_SECTOR.hdr);
      ghost var torn: Sector :| |torn.slots| == MAX_ENTRIES && !HeaderOk(sums, torn.hdr);
      sector := BLANK_SECTOR;
      cuts := [spared, torn, sector];
    }

    method WriteHeader(hdr: Header) returns (ghost cuts: seq<Sector>)
      requires sector == BLANK_SECTOR
      modifies this`sector
      ensures sector == BLANK_SECTOR.(hdr := hdr)
      ensures forall before, es :: |es| <= MAX_ENTRIES ==> AllCuts(cuts, sums, before, es, hdr)
    {
      assert !HeaderOk(sums, BLANK_SECTOR.hdr);
      ghost var torn: Header :| !HeaderOk(sums, torn);
      cuts := [sector.(hdr := torn)];
      sector := sector.(hdr := hdr);
      assert forall es :: |es| <= MAX_ENTRIES ==> ProgrammedUpTo(sums, es, 0, sector.slots);
      cuts := cuts + [sector];
    }

    /** Programs the entries after the header, in order. */
    method WriteEntries(ghost before: Sector) returns (ghost cuts: seq<Sector>)
      requires Shaped() && sector.slots == BLANK_SECTOR.slots
      modifies this`sector
      ensures sector == old(sector).(slots := cache[..count] + seq(MAX_ENTRIES - count, _ => BLANK))
      ensures AllCuts(cuts, sums, before, cache[..count], sector.hdr)
    {
      hide RewriteCut;
      ghost var es := cache[..count];
      cuts := [];
      for i := 0 to count
        invariant sector == old(sector).(slots := es[..i] + seq(MAX_ENTRIES - i, _ => BLANK))
        invariant AllCuts(cuts, sums, before, es, sector.hdr)
      {
        assert !Genuine(sums, BLANK);
        ghost var torn: Entry :| !Genuine(sums, torn);
        EntryCut(sums, before, es, sector, i, torn);
        cuts := cuts + [sector.(slots := sector.slots[i := torn])];
        sector := sector.(slots := sector.slots[i := cache[i]]);
        cuts := cuts + [sector];
      }
    }

    /** The checksum over the count and the checksum of every entry, in order. */
    method CacheImageCrc() returns (crc: u32)
      requires Shaped()
      ensures crc == ImageCrc(sums, cache[..count])
      ensures crc == sums.image(Digest(Abs().entries))
    {
      ImageCrcIs(sums, cache[..count]);
      var list: seq<u32> := [count];
      for i := 0 to count
        invariant list == [count] + Crcs(cache[..i])
      {
        list := list + [cache[i].crc];
      }
      crc := sums.image(list);
    }

    method FlushCacheToFlash() returns (ghost cuts: seq<Sector>)
      requires Shaped()
      modifies this`sector, this`seqNo, this`flashCrc, this`dirty, this`dirtySeen
      ensures Shaped() && Abs() == Flush(sums, old(Abs()))
      ensures AllCuts(cuts, sums, old(sector), cache[..count], sector.hdr)
    {
      var hdr := MakeHeader(sums, Add32(seqNo, 1), count);
      ghost var cuts1 := EraseSector();
      ghost var cuts2 := WriteHeader(hdr);
      ghost var cuts3 := [];
      if count > 0 {
        cuts3 := WriteEntries(old(sector));
      }
      ghost var es := cache[..count];
      assert AllCuts(cuts1, sums, old(sector), es, hdr);
      assert AllCuts(cuts2, sums, old(sector), es, hdr);
      cuts := cuts1 + cuts2 + cuts3;
      seqNo := hdr.seqNo;
      flashCrc := CacheImageCrc();
      dirty, dirtySeen := false, false;
    }

    method CommitNow() returns (ghost cuts: seq<Sector>)
      requires Shaped()
      modifies this`sector, this`seqNo, this`flashCrc, this`dirty, this`dirtySeen
      ensures Shaped() && Abs() == Commit(sums, old(Abs()))
      ensures old(dirty && Valid(sums, Abs()) && TellsApart(sums, Abs().entries, Loaded(sums, sector))) ==>
                Loaded(sums, sector) == Abs().entries
      ensures AllCuts(cuts, sums, old(sector), cache[..count], sector.hdr)
    {
      cuts := [];
      if !dirty {
        return;
      }
      if Valid(sums, Abs()) && TellsApart(sums, Abs().entries, Loaded(sums, sector)) {
        CommitStores(sums, Abs());
      }
      hide Valid, TellsApart, Loaded;
      var crc := CacheImageCrc();
      dirty, dirtySeen := false, false;
      if crc == flashCrc {
        return;
      }
      cuts := FlushCacheToFlash();
    }

    /** Nothing stored changes; a pending change stays pending exactly while the gate is busy
        and less than 60 s have passed since it was first seen, and until then nothing is
        written; every content on the way of a write is one a cut may leave. */
    method TickAt(now: nat, busy: bool) returns (ghost cuts: seq<Sector>)
      requires Shaped()
      modifies this`sector, this`seqNo, this`flashCrc, this`dirty, this`dirtySeen, this`dirtySince
      ensures Shaped() && Abs() == Tick(sums, old(Abs()), now, busy)
      ensures Abs().entries == old(Abs().entries)
      ensures dirty <==> old(dirty) && busy && now - (if old(dirtySeen) then old(dirtySince) else now) < MAX_HOLD_US
      ensures dirty || !old(dirty) ==> sector == old(sector) && cuts == []
      ensures !dirty && old(dirty && Valid(sums, Abs()) && TellsApart(sums, Abs().entries, Loaded(sums, sector))) ==>
                Loaded(sums, sector) == Abs().entries
      ensures AllCuts(cuts, sums, old(sector), cache[..count], sector.hdr)
    {
      cuts := [];
      if !dirty {
        return;
      }
      if !dirtySeen {
        dirtySeen := true;
        dirtySince := now;
      }
      var held := now - dirtySince;
      if busy && held < MAX_HOLD_US {
        return;
      }
      cuts := CommitNow();
    }

    method FindKeyIndex(key: string) returns (i: nat)
      requires Shaped()
      ensures i == Find(cache[..count], key)
    {
      ghost var es := cache[..count];
      i := 0;
      while i < count
        invariant i <= count && forall j :: 0 <= j < i ==> !Matches(es[j], key)
      {
        if cache[i].f.flags == FLAG_VALID && cache[i].f.key == key {
          break;
        }
        i := i + 1;
      }
    }

    /** Reads the entries behind a good header: as many as there are genuine ones. */
    method LoadEntries()
      requires Shaped() && HeaderOk(sums, sector.hdr)
      modifies this`count, cache
      ensures Shaped() && cache[..count] == Loaded(sums, sector)
    {
      var n := sector.hdr.count;
      ghost var raw := sector.slots[..n];
      forall i | 0 <= i < n {
        cache[i] := sector.slots[i];
      }
      var loaded := 0;
      for i := 0 to n
        invariant loaded == CountGenuine(sums, raw[..i]) && cache[..n] == raw
      {
        assert raw[..i + 1][..i] == raw[..i];
        if Genuine(sums, cache[i]) {
          loaded := loaded + 1;
        }
      }
      assert raw[..n] == raw;
      count := loaded;
      assert cache[..count] == raw[..count];
    }

    /** The first half of nvs_init: takes over the sector, reformatting it if its header is bad. */
    method LoadSector()
      requires Shaped()
      modifies this, cache
      ensures Shaped() && initialized == old(initialized)
      ensures Abs().(dirtySince := 0) == Load(sums, old(sector))
    {
      dirty, dirtySeen := false, false;
      forall i | 0 <= i < cache.Length {
        cache[i] := BLANK;
      }
      count, seqNo := 0, 1;
      if HeaderOk(sums, sector.hdr) {
        seqNo := sector.hdr.seqNo;
        LoadEntries();
        flashCrc := CacheImageCrc();
      } else {
        assert cache[..count] == [];
        ghost var _ := FlushCacheToFlash();
      }
    }

    /** nvs_init: loads the sector and counts the boot. */
    method Init()
      requires Shaped()
      modifies this, cache
      ensures Shaped()
      ensures Abs().(dirtySince := 0) ==
              Boot(sums, if old(initialized) then Commit(sums, old(Abs())).sector else old(sector))
    {
      if initialized {
        ghost var _ := CommitNow();
      }
      LoadSector();
      initialized := true;
      var bootCount := ReadBootCount();
      var _ := PutEntry(BOOT_KEY, TYPE_U32, U32Bytes(Add32(bootCount, 1)));
    }

    method ReadBootCount() returns (n: u32)
      requires Shaped()
      ensures n == BootCount(cache[..count])
    {
      var i := FindKeyIndex(BOOT_KEY);
      n := if i < count && |cache[i].f.val| >= 4 then BytesU32(cache[i].f.val) else 0;
    }

    /** What the three setters share: replace in place, or append. */
    method PutEntry(key: string, kind: u8, val: Bytes) returns (status: Status)
      requires Shaped()
      modifies this`count, this`dirty, cache
      ensures Shaped()
      ensures (Abs().entries, status) == Put(sums, old(Abs().entries), key, kind, val)
      ensures dirty == (status == Ok || old(dirty))
    {
      ghost var es := cache[..count];
      var i := FindKeyIndex(key);
      if i == count {
        if count >= MAX_ENTRIES {
          return StoreFull;
        }
        count := count + 1;
      }
      cache[i] := MakeEntry(sums, key, kind, val);
      assert cache[..count] == if i < |es| then es[i := cache[i]] else es + [cache[i]];
      dirty := true;
      return Ok;
    }

    method SetBlob(key: string, val: Bytes) returns (status: Status)
      requires Shaped() && WellFormed(sums, Abs().entries)
      modifies this`count, this`dirty, cache
      ensures Shaped() && WellFormed(sums, Abs().entries)
      ensures status == if val == [] || |val| > 64 || key == [] || |key| >= 32 then InvalidParam
                        else if key !in old(View(Abs().entries)) && |old(View(Abs().entries))| == MAX_ENTRIES
                        then StoreFull
                        else Ok
      ensures View(Abs().entries) ==
              if status == Ok then old(View(Abs().entries))[key := (TYPE_BLOB, val)] else old(View(Abs().entries))
      ensures dirty == (status == Ok || old(dirty))
    {
      if val == [] || |val| > VAL_MAX || !KeyOk(key) {
        return InvalidParam;
      }
      PutIsMapUpdate(sums, Abs().entries, key, TYPE_BLOB, val);
      status := PutEntry(key, TYPE_BLOB, val);
    }

    method SetU32(key: string, val: u32) returns (status: Status)
      requires Shaped() && WellFormed(sums, Abs().entries)
      modifies this`count, this`dirty, cache
      ensures Shaped() && WellFormed(sums, Abs().entries)
      ensures status == if key == [] || |key| >= 32 then InvalidParam
                        else if key !in old(View(Abs().entries)) && |old(View(Abs().entries))| == MAX_ENTRIES
                        then StoreFull
                        else Ok
      ensures View(Abs().entries) ==
              if status == Ok then old(View(Abs().entries))[key := (TYPE_U32, U32Bytes(val))]
              else old(View(Abs().entries))
      ensures dirty == (status == Ok || old(dirty))
    {
      if !KeyOk(key) {
        return InvalidParam;
      }
      PutIsMapUpdate(sums, Abs().entries, key, TYPE_U32, U32Bytes(val));
      status := PutEntry(key, TYPE_U32, U32Bytes(val));
    }

    /** val is a C string: no zero byte; it is stored with its terminator. */
    method SetStr(key: string, val: Bytes) returns (status: Status)
      requires Shaped() && WellFormed(sums, Abs().entries) && 0 !in val
      modifies this`count, this`dirty, cache
      ensures Shaped() && WellFormed(sums, Abs().entries)
      ensures status == if |val| >= 64 || key == [] || |key| >= 32 then InvalidParam
                        else if key !in old(View(Abs().entries)) && |old(View(Abs().entries))| == MAX_ENTRIES
                        then StoreFull
                        else Ok
      ensures View(Abs().entries) ==
              if status == Ok then old(View(Abs().entries))[key := (TYPE_STR, val + [0])] else old(View(Abs().entries))
      ensures dirty == (status == Ok || old(dirty))
    {
      if |val| >= VAL_MAX || !KeyOk(key) {
        return InvalidParam;
      }
      PutIsMapUpdate(sums, Abs().entries, key, TYPE_STR, val + [0]);
      status := PutEntry(key, TYPE_STR, val + [0]);
    }

    /** Whatever the cache holds, the full length is the one stored, and the copy stays inside
        the value exactly if it is at most 64 bytes; of a well-formed store it is the mapped
        value, clipped. What lies past the value is not modelled. */
    method GetBlob(key: string, maxLen: nat) returns (status: Status, out: Bytes, fullLen: nat, ghost inside: bool)
      requires Shaped()
      ensures var es := Abs().entries; var i := Find(es, key);
              && status == (if maxLen == 0 then InvalidParam else if i < |es| then Ok else NotFound)
              && (status == Ok ==>
                    fullLen == ValLen(es[i]) && inside == StaysInside(es[i], maxLen)
                    && out <= es[i].f.val && (inside ==> |out| == Copied(es[i], maxLen)))
      ensures WellFormed(sums, Abs().entries) ==>
                status == if maxLen == 0 then InvalidParam else if key in View(Abs().entries) then Ok else NotFound
      ensures WellFormed(sums, Abs().entries) && status == Ok ==>
                var val := View(Abs().entries)[key].1;
                fullLen == |val| && out <= val && |out| == if |val| > maxLen then maxLen else |val|
    {
      if WellFormed(sums, Abs().entries) {
        ViewHas(sums, Abs().entries, key);
      }
      out, fullLen, inside := [], 0, true;
      if maxLen == 0 {
        return InvalidParam, out, fullLen, inside;
      }
      var i := FindKeyIndex(key);
      if i == count {
        return NotFound, out, fullLen, inside;
      }
      var val := cache[i].f.val;
      fullLen := |val| + cache[i].f.excess;
      var copyLen := if fullLen > maxLen then maxLen else fullLen;
      return Ok, if copyLen < |val| then val[..copyLen] else val, fullLen, copyLen <= VAL_MAX;
    }

    method GetU32(key: string) returns (status: Status, val: u32)
      requires Shaped()
      ensures var es := Abs().entries; var i := Find(es, key);
              && status == (if i == |es| then NotFound else if ValLen(es[i]) < 4 then Corrupt else Ok)
              && (status == Ok ==> val == BytesU32(es[i].f.val))
      ensures WellFormed(sums, Abs().entries) ==>
                status == if key !in View(Abs().entries) then NotFound
                          else if |View(Abs().entries)[key].1| < 4 then Corrupt
                          else Ok
      ensures WellFormed(sums, Abs().entries) && status == Ok ==>
                && val == BytesU32(View(Abs().entries)[key].1)
                && forall v: u32 :: View(Abs().entries)[key].1 == U32Bytes(v) ==> val == v
    {
      if WellFormed(sums, Abs().entries) {
        ViewHas(sums, Abs().entries, key);
      }
      var i := FindKeyIndex(key);
      if i == count {
        return NotFound, 0;
      }
      if |cache[i].f.val| + cache[i].f.excess < 4 {
        return Corrupt, 0;
      }
      forall v: u32 ensures BytesU32(U32Bytes(v)) == v {
        U32RoundTrip(v);
      }
      return Ok, BytesU32(cache[i].f.val);
    }

    /** The clipped string and its terminators read as the string, clipped. */
    static lemma ClippedReads(v: Bytes, maxLen: nat, out: Bytes)
      requires 0 !in v && maxLen > 0
      requires out == (if |v| + 1 >= maxLen then (v + [0])[..maxLen - 1] else v + [0]) + [0]
      ensures CString(out) == if |v| < maxLen then v else v[..maxLen - 1]
    {
      var w := if |v| < maxLen then v else v[..maxLen - 1];
      CStringStops(w, out[|w| + 1..]);
      assert out == w + [0] + out[|w| + 1..];
    }

    /** out is the caller's buffer up to the terminator; it never needs more than maxLen bytes.
        The copy stays inside the value as that of GetBlob into one byte less does. */
    method GetStr(key: string, maxLen: nat) returns (status: Status, out: Bytes, ghost inside: bool)
      requires Shaped()
      ensures var es := Abs().entries; var i := Find(es, key);
              && status == (if maxLen == 0 then InvalidParam else if i < |es| then Ok else NotFound)
              && (status == Ok ==> inside == StaysInside(es[i], maxLen - 1))
      ensures WellFormed(sums, Abs().entries) ==>
                status == if maxLen == 0 then InvalidParam else if key in View(Abs().entries) then Ok else NotFound
      ensures WellFormed(sums, Abs().entries) ==>
                forall v: Bytes :: status == Ok && 0 !in v && View(Abs().entries)[key].1 == v + [0] ==>
                  CString(out) == if |v| < maxLen then v else v[..maxLen - 1]
      ensures status == Ok ==> 0 < |out| <= maxLen && out[|out| - 1] == 0
    {
      if WellFormed(sums, Abs().entries) {
        ViewHas(sums, Abs().entries, key);
      }
      inside := true;
      if maxLen == 0 {
        return InvalidParam, [], inside;
      }
      var i := FindKeyIndex(key);
      if i == count {
        return NotFound, [], inside;
      }
      var val := cache[i].f.val;
      var valLen := |val| + cache[i].f.excess;
      var n := if valLen >= maxLen then maxLen - 1 else valLen;
      inside := n <= VAL_MAX;
      out := (if n < |val| then val[..n] else val) + [0];
      forall v: Bytes | 0 !in v && val == v + [0] && cache[i].f.excess == 0
        ensures CString(out) == if |v| < maxLen then v else v[..maxLen - 1]
      {
        ClippedReads(v, maxLen, out);
      }
      return Ok, out, inside;
    }

    method EraseKey(key: string) returns (status: Status)
      requires Shaped() && WellFormed(sums, Abs().entries)
      modifies this`count, this`dirty, cache
      ensures Shaped() && WellFormed(sums, Abs().entries)
      ensures (Abs().entries, status) == Remove(old(Abs().entries), key)
      ensures status == if key in old(View(Abs().entries)) then Ok else NotFound
      ensures View(Abs().entries) == old(View(Abs().entries)) - {key}
      ensures dirty == (status == Ok || old(dirty))
    {
      RemoveIsMapRemoval(sums, cache[..count], key);
      var i := FindKeyIndex(key);
      if i == count {
        return NotFound;
      }
      ShiftLeft(i);
      dirty := true;
      return Ok;
    }

    /** Drops entry i; the later ones move up by one. */
    method ShiftLeft(i: nat)
      requires Shaped() && i < count
      modifies this`count, cache
      ensures Shaped() && cache[..count] == Without(old(cache[..count]), i)
    {
      ghost var es := cache[..count];
      var k := i;
      while k + 1 < count
        invariant i <= k < count == |es|
        invariant forall j :: 0 <= j < i ==> cache[j] == es[j]
        invariant forall j :: i <= j < k ==> cache[j] == es[j + 1]
        invariant forall j :: k <= j < count ==> cache[j] == es[j]
      {
        cache[k] := cache[k + 1];
        k := k + 1;
      }
      count := count - 1;
      assert cache[..count] == Without(es, i);
      cache[count] := BLANK;
    }

    /** Cache and sector hold nothing, at once and whatever they held before. */
    method Clear() returns (ghost cuts: seq<Sector>)
      requires Shaped()
      modifies this`count, this`sector, this`seqNo, this`flashCrc, this`dirty, this`dirtySeen
      ensures Shaped() && Abs() == Flush(sums, old(Abs()).(entries := []))
      ensures View(Abs().entries) == map[] && Valid(sums, Abs()) && !dirty
      ensures Load(sums, sector).entries == []
      ensures AllCuts(cuts, sums, old(sector), [], sector.hdr)
    {
      count := 0;
      assert cache[..count] == [];
      FlushStores(sums, Abs());
      cuts := FlushCacheToFlash();
    }

    /** What a restore needs to bring the present entries back, and never too much for one. */
    method SnapshotSave() returns (snap: seq<Entry>)
      requires Shaped()
      ensures snap == Abs().entries && |snap| <= MAX_ENTRIES
    {
      snap := cache[..count];
    }

    /** Whatever happened since, a restore makes the store hold exactly the snapshot. */
    method SnapshotRestore(snap: seq<Entry>) returns (status: Status, rewritten: bool)
      requires Shaped()
      modifies this`count, this`sector, this`seqNo, this`flashCrc, this`dirty, this`dirtySeen, cache
      ensures Shaped()
      ensures status == if |snap| > MAX_ENTRIES then InvalidParam else Ok
      ensures status == Ok ==> Abs().entries == snap && (rewritten <==> snap != old(Abs().entries))
      ensures rewritten ==> status == Ok
      ensures Abs() == if rewritten then Flush(sums, old(Abs()).(entries := snap)) else old(Abs())
    {
      rewritten := false;
      if |snap| > MAX_ENTRIES {
        return InvalidParam, false;
      }
      if snap == cache[..count] {
        return Ok, false;
      }
      forall i | 0 <= i < |snap| {
        cache[i] := snap[i];
      }
      count := |snap|;
      assert cache[..count] == snap;
      ghost var _ := FlushCacheToFlash();
      return Ok, true;
    }
  }
}

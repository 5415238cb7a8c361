// The key-value store (src/nvs.c): a RAM cache of at most 32 entries, committed
// later as one rewrite of a flash sector. Checksums are parameters; where the code
// takes equal checksums for equal data, the results say so.

module NvsStore {
  import opened Words

  const MAX_ENTRIES: int := 32
  const KEY_MAX: int := 32
  const VAL_MAX: int := 64
  const ENTRY_MAGIC: u32 := 0x4952_4E56
  const SECTOR_MAGIC: u32 := 0x4E56_5331
  const FLAG_VALID: u8 := 1
  const TYPE_U32: u8 := 1
  const TYPE_STR: u8 := 2
  const TYPE_BLOB: u8 := 3
  const MAX_HOLD_US: int := 60_000_000
  const BOOT_KEY: string := "boot_count"

  type Bytes = seq<u8>

  /** The checksummed fields of nvs_entry_t. The stored val_len is the length of val, the bytes
      of the value, plus the excess by which a damaged one points past the 64 bytes there are. */
  datatype RawFields = Fields(magic: u32, key: string, kind: u8, flags: u8, val: Bytes, excess: nat)
  type Fields = f: RawFields | f.excess > 0 ==> |f.val| >= VAL_MAX witness Fields(0, [], 0, 0, [], 0)

  datatype Entry = Entry(f: Fields, crc: u32)
  datatype Header = Header(magic: u32, seqNo: u32, count: u32, crc: u32)

  /** What the flash sector reads back as. */
  datatype Sector = Sector(hdr: Header, slots: seq<Entry>)

  /** The checksum over a header, over an entry, and over a list of entry checksums. */
  datatype Sums = Sums(header: (u32, u32, u32) -> u32, entry: Fields -> u32, image: seq<u32> -> u32)

  const BLANK: Entry := Entry(Fields(U32_MAX, [], 0xFF, 0xFF, seq(VAL_MAX, _ => 0xFF), 0xFFFF - VAL_MAX), U32_MAX)

  datatype Status = Ok | NotFound | InvalidParam | StoreFull | Corrupt

  predicate Genuine(sums: Sums, e: Entry) {
    e.f.magic == ENTRY_MAGIC && e.f.flags == FLAG_VALID && e.crc == sums.entry(e.f)
  }

  predicate HeaderOk(sums: Sums, h: Header) {
    && h.magic == SECTOR_MAGIC
    && h.crc == sums.header(h.magic, h.seqNo, h.count)
    && h.count <= MAX_ENTRIES
  }

  function MakeEntry(sums: Sums, key: string, kind: u8, val: Bytes): Entry {
    var f := Fields(ENTRY_MAGIC, key, kind, FLAG_VALID, val, 0);
    Entry(f, sums.entry(f))
  }

  function MakeHeader(sums: Sums, seqNo: u32, count: u32): Header {
    Header(SECTOR_MAGIC, seqNo, count, sums.header(SECTOR_MAGIC, seqNo, count))
  }

  // ---- The cache as a finite map ----------------------------------------

  predicate Matches(e: Entry, key: string) {
    e.f.flags == FLAG_VALID && e.f.key == key
  }

  /** The first entry with this key, or the length of es. */
  function Find(es: seq<Entry>, key: string): (i: nat)
    ensures i <= |es|
    ensures i < |es| ==> Matches(es[i], key)
    ensures forall j :: 0 <= j < i ==> !Matches(es[j], key)
  {
    if es == [] || Matches(es[0], key) then 0 else 1 + Find(es[1..], key)
  }

  ghost predicate WellFormed(sums: Sums, es: seq<Entry>) {
    && |es| <= MAX_ENTRIES
    && (forall i :: 0 <= i < |es| ==> Genuine(sums, es[i]) && es[i].f.excess == 0)
    && (forall i, j :: 0 <= i < j < |es| ==> es[i].f.key != es[j].f.key)
  }

  type Value = (u8, Bytes)

  /** The stored map: key to type and bytes. */
  ghost function View(es: seq<Entry>): map<string, Value> {
    if es == [] then map[]
    else var e := es[|es| - 1]; View(es[..|es| - 1])[e.f.key := (e.f.kind, e.f.val)]
  }

  lemma FindInit(es: seq<Entry>, key: string)
    requires es != []
    ensures var n := |es| - 1;
            Find(es, key) == if Find(es[..n], key) < n || Matches(es[n], key) then Find(es[..n], key) else n + 1
  {
    var n := |es| - 1;
    var i, j := Find(es, key), Find(es[..n], key);
    assert i < n ==> es[..n][i] == es[i];
    assert j < n ==> es[..n][j] == es[j];
  }

  lemma {:induction false} ViewHas(sums: Sums, es: seq<Entry>, key: string)
    requires WellFormed(sums, es)
    ensures |View(es)| == |es|
    ensures key in View(es) <==> Find(es, key) < |es|
    ensures Find(es, key) < |es| ==> View(es)[key] == (es[Find(es, key)].f.kind, es[Find(es, key)].f.val)
  {
    if es != [] {
      var n := |es| - 1;
      ViewHas(sums, es[..n], key);
      ViewHas(sums, es[..n], es[n].f.key);
      FindInit(es, key);
      FindInit(es, es[n].f.key);
      assert Find(es[..n], es[n].f.key) == n;
    }
  }

  lemma KeysDiffer(sums: Sums, es: seq<Entry>, i: nat, j: nat)
    requires WellFormed(sums, es) && i < j < |es|
    ensures es[i].f.key != es[j].f.key && WellFormed(sums, es[..j])
  {
  }

  lemma {:induction false} ViewReplace(sums: Sums, es: seq<Entry>, i: nat, e: Entry)
    requires WellFormed(sums, es) && i < |es| && e.f.key == es[i].f.key
    ensures View(es[i := e]) == View(es)[e.f.key := (e.f.kind, e.f.val)]
  {
    var n := |es| - 1;
    if i == n {
      assert es[i := e][..n] == es[..n];
    } else {
      assert es[i := e][..n] == es[..n][i := e];
      KeysDiffer(sums, es, i, n);
      ViewReplace(sums, es[..n], i, e);
      hide WellFormed;
    }
  }

  function Without<T>(es: seq<T>, i: nat): seq<T>
    requires i < |es|
  {
    es[..i] + es[i + 1..]
  }

  lemma WithoutLast<T>(es: seq<T>, i: nat)
    requires i < |es| - 1
    ensures var n := |es| - 1;
            Without(es, i)[..n - 1] == Without(es[..n], i) && Without(es, i)[n - 1] == es[n]
  {
  }

  lemma WithoutKeepsWellFormed(sums: Sums, es: seq<Entry>, i: nat)
    requires WellFormed(sums, es) && i < |es|
    ensures WellFormed(sums, Without(es, i))
  {
  }

  lemma UpdateThenDrop<K, V>(m: map<K, V>, k: K, gone: K, v: V)
    requires k == gone ==> gone !in m
    ensures m[k := v] - {gone} == if k == gone then m else (m - {gone})[k := v]
  {
  }

  lemma ViewOfLast(es: seq<Entry>)
    requires es != []
    ensures var n := |es| - 1; View(es) == View(es[..n])[es[n].f.key := (es[n].f.kind, es[n].f.val)]
  {
  }

  lemma LastKeyIsNew(sums: Sums, es: seq<Entry>)
    requires WellFormed(sums, es) && es != []
    ensures es[|es| - 1].f.key !in View(es[..|es| - 1])
  {
    ViewHas(sums, es[..|es| - 1], es[|es| - 1].f.key);
    FindInit(es, es[|es| - 1].f.key);
  }

  lemma ViewWithoutLast(sums: Sums, es: seq<Entry>)
    requires WellFormed(sums, es) && es != []
    ensures var n := |es| - 1; Without(es, n) == es[..n] && View(es[..n]) == View(es) - {es[n].f.key}
  {
    var n := |es| - 1;
    LastKeyIsNew(sums, es);
    ViewOfLast(es);
    hide View, WellFormed;
    UpdateThenDrop(View(es[..n]), es[n].f.key, es[n].f.key, (es[n].f.kind, es[n].f.val));
  }

  lemma ViewWithoutEarlier(es: seq<Entry>, i: nat)
    requires i < |es| - 1 && es[i].f.key != es[|es| - 1].f.key
    requires View(Without(es[..|es| - 1], i)) == View(es[..|es| - 1]) - {es[i].f.key}
    ensures View(Without(es, i)) == View(es) - {es[i].f.key}
  {
    var n := |es| - 1;
    WithoutLast(es, i);
    hide View;
    ViewOfLast(es);
    ViewOfLast(Without(es, i));
    UpdateThenDrop(View(es[..n]), es[n].f.key, es[i].f.key, (es[n].f.kind, es[n].f.val));
  }

  lemma {:induction false} ViewRemove(sums: Sums, es: seq<Entry>, i: nat)
    requires WellFormed(sums, es) && i < |es|
    ensures View(Without(es, i)) == View(es) - {es[i].f.key}
    ensures WellFormed(sums, Without(es, i))
  {
    hide View, Without, WellFormed;
    var n := |es| - 1;
    WithoutKeepsWellFormed(sums, es, i);
    if i == n {
      ViewWithoutLast(sums, es);
    } else {
      KeysDiffer(sums, es, i, n);
      ViewRemove(sums, es[..n], i);
      ViewWithoutEarlier(es, i);
    }
  }

  /** set: one entry replaced in place or appended; refused only for a new key at 32. */
  function Put(sums: Sums, es: seq<Entry>, key: string, kind: u8, val: Bytes): (seq<Entry>, Status) {
    var e := MakeEntry(sums, key, kind, val);
    var i := Find(es, key);
    if i < |es| then (es[i := e], Ok)
    else if |es| >= MAX_ENTRIES then (es, StoreFull)
    else (es + [e], Ok)
  }

  lemma PutIsMapUpdate(sums: Sums, es: seq<Entry>, key: string, kind: u8, val: Bytes)
    requires WellFormed(sums, es)
    ensures var (es', status) := Put(sums, es, key, kind, val);
            && WellFormed(sums, es')
            && (status == StoreFull <==> key !in View(es) && |View(es)| == MAX_ENTRIES)
            && View(es') == if status == Ok then View(es)[key := (kind, val)] else View(es)
  {
    ViewHas(sums, es, key);
    var e := MakeEntry(sums, key, kind, val);
    var i := Find(es, key);
    if i < |es| {
      ViewReplace(sums, es, i, e);
    } else if |es| < MAX_ENTRIES {
      assert (es + [e])[..|es|] == es;
    }
  }

  /** erase: the entry goes, the later ones move up. */
  function Remove(es: seq<Entry>, key: string): (seq<Entry>, Status) {
    var i := Find(es, key);
    if i < |es| then (Without(es, i), Ok) else (es, NotFound)
  }

  lemma RemoveIsMapRemoval(sums: Sums, es: seq<Entry>, key: string)
    requires WellFormed(sums, es)
    ensures var (es', status) := Remove(es, key);
            && WellFormed(sums, es')
            && (status == NotFound <==> key !in View(es))
            && View(es') == View(es) - {key}
  {
    ViewHas(sums, es, key);
    var i := Find(es, key);
    if i < |es| {
      ViewRemove(sums, es, i);
    }
  }

  // ---- Values ------------------------------------------------------------

  function U32Bytes(v: u32): (b: Bytes)
    ensures |b| == 4
  {
    var w: int := v;
    [w % 256, w / 256 % 256, w / 65536 % 256, w / 16777216]
  }

  function BytesU32(b: Bytes): u32
    requires |b| >= 4
  {
    var b0: int, b1: int, b2: int, b3: int := b[0], b[1], b[2], b[3];
    b0 + 256 * b1 + 65536 * b2 + 16777216 * b3
  }

  lemma U32RoundTrip(v: u32)
    ensures BytesU32(U32Bytes(v)) == v
  {
    assert v / 65536 == 256 * (v / 16777216) + v / 65536 % 256;
    assert v / 256 == 256 * (v / 65536) + v / 256 % 256;
  }

  predicate KeyOk(key: string) {
    0 < |key| < KEY_MAX
  }

  // ---- The sector --------------------------------------------------------

  function CountGenuine(sums: Sums, es: seq<Entry>): (n: nat)
    ensures n <= |es|
  {
    if es == [] then 0
    else CountGenuine(sums, es[..|es| - 1]) + if Genuine(sums, es[|es| - 1]) then 1 else 0
  }

  /** What nvs_init takes from a sector with a good header: as many of the first entries
      as the sector holds genuine ones. */
  function Loaded(sums: Sums, s: Sector): seq<Entry>
    requires |s.slots| == MAX_ENTRIES
  {
    if HeaderOk(sums, s.hdr) then s.slots[..CountGenuine(sums, s.slots[..s.hdr.count])] else []
  }

  lemma {:induction false} CountAll(sums: Sums, es: seq<Entry>)
    requires forall i :: 0 <= i < |es| ==> Genuine(sums, es[i])
    ensures CountGenuine(sums, es) == |es|
  {
    if es != [] {
      CountAll(sums, es[..|es| - 1]);
    }
  }

  lemma {:induction false} CountNone(sums: Sums, es: seq<Entry>)
    ensures CountGenuine(sums, es) == 0 <==> forall i :: 0 <= i < |es| ==> !Genuine(sums, es[i])
  {
    if es != [] {
      var n := |es| - 1;
      CountNone(sums, es[..n]);
      if CountGenuine(sums, es) == 0 {
        forall i | 0 <= i < |es| ensures !Genuine(sums, es[i]) {
          assert i < n ==> es[..n][i] == es[i];
        }
      } else if CountGenuine(sums, es[..n]) != 0 {
        var i :| 0 <= i < n && Genuine(sums, es[..n][i]);
        assert Genuine(sums, es[i]);
      }
    }
  }

  lemma {:induction false} CountSplit(sums: Sums, es: seq<Entry>, k: nat)
    requires k <= |es|
    ensures CountGenuine(sums, es) == CountGenuine(sums, es[..k]) + CountGenuine(sums, es[k..])
  {
    var n := |es| - 1;
    if k == |es| {
      assert es[..k] == es && es[k..] == [];
    } else {
      CountSplit(sums, es[..n], k);
      assert es[..n][..k] == es[..k] && es[..n][k..] == es[k..][..n - k];
    }
  }

  ghost predicate GenuinePrefix(sums: Sums, es: seq<Entry>) {
    forall i, j :: 0 <= i < j < |es| && Genuine(sums, es[j]) ==> Genuine(sums, es[i])
  }

  /** nvs_init counts genuine entries without moving them together, so on an arbitrarily
      damaged sector it loads only genuine entries exactly when these come first. */
  lemma LoadsOnlyGenuineIff(sums: Sums, s: Sector)
    requires |s.slots| == MAX_ENTRIES && HeaderOk(sums, s.hdr)
    ensures (forall e :: e in Loaded(sums, s) ==> Genuine(sums, e))
            <==> GenuinePrefix(sums, s.slots[..s.hdr.count])
  {
    var es := s.slots[..s.hdr.count];
    var v := CountGenuine(sums, es);
    assert Loaded(sums, s) == es[..v];
    if forall e :: e in Loaded(sums, s) ==> Genuine(sums, e) {
      forall i | 0 <= i < v ensures Genuine(sums, es[i]) {
        assert es[i] in Loaded(sums, s);
      }
      CountAll(sums, es[..v]);
      CountSplit(sums, es, v);
      CountNone(sums, es[v..]);
      forall j | v <= j < |es| ensures !Genuine(sums, es[j]) {
        assert es[j] == es[v..][j - v];
      }
    } else if GenuinePrefix(sums, es) {
      var k := GenuinePrefixLength(sums, es);
      CountPrefix(sums, es, k);
      assert false;
    }
  }

  lemma {:induction false} GenuinePrefixLength(sums: Sums, es: seq<Entry>) returns (k: nat)
    requires GenuinePrefix(sums, es)
    ensures k <= |es|
    ensures forall i :: 0 <= i < |es| ==> (Genuine(sums, es[i]) <==> i < k)
  {
    if es == [] || Genuine(sums, es[|es| - 1]) {
      k := |es|;
    } else {
      k := GenuinePrefixLength(sums, es[..|es| - 1]);
    }
  }

  lemma CountPrefix(sums: Sums, es: seq<Entry>, k: nat)
    requires k <= |es|
    requires forall i :: 0 <= i < |es| ==> (Genuine(sums, es[i]) <==> i < k)
    ensures CountGenuine(sums, es) == k
  {
    CountAll(sums, es[..k]);
    CountSplit(sums, es, k);
    CountNone(sums, es[k..]);
  }

  /** A header for two entries, the first damaged: the damaged one is loaded. */
  lemma DamagedEntryCanBeLoaded(sums: Sums, good: Entry)
    requires Genuine(sums, good)
    ensures var s := Sector(MakeHeader(sums, 1, 2), [BLANK, good] + seq(30, _ => BLANK));
            BLANK in Loaded(sums, s) && !Genuine(sums, BLANK)
  {
    var s := Sector(MakeHeader(sums, 1, 2), [BLANK, good] + seq(30, _ => BLANK));
    assert s.slots[..2] == [BLANK, good];
    assert [BLANK, good][..1] == [BLANK];
    assert CountGenuine(sums, [BLANK, good]) == CountGenuine(sums, [BLANK]) + 1;
    assert [BLANK][..0] == [];
    assert CountGenuine(sums, [BLANK]) == 0;
    assert Loaded(sums, s)[0] == BLANK;
  }

  // ---- Committing --------------------------------------------------------

  function Crcs(es: seq<Entry>): (c: seq<u32>)
    ensures |c| == |es|
    ensures forall i :: 0 <= i < |es| ==> c[i] == es[i].crc
  {
    if es == [] then [] else [es[0].crc] + Crcs(es[1..])
  }

  /** cache_image_crc: a checksum over the count and the entry checksums. */
  function ImageCrc(sums: Sums, es: seq<Entry>): u32
    requires |es| <= MAX_ENTRIES
  {
    sums.image([|es|] + Crcs(es))
  }

  function Image(sums: Sums, es: seq<Entry>, seqNo: u32): (s: Sector)
    requires |es| <= MAX_ENTRIES
    ensures |s.slots| == MAX_ENTRIES
  {
    Sector(MakeHeader(sums, seqNo, |es|), es + seq(MAX_ENTRIES - |es|, _ => BLANK))
  }

  /** RAM state and sector. */
  datatype Store = Store(
    entries: seq<Entry>, seqNo: u32, dirty: bool, dirtySeen: bool, dirtySince: nat,
    flashCrc: u32, sector: Sector)

  ghost predicate Valid(sums: Sums, s: Store) {
    && WellFormed(sums, s.entries)
    && |s.sector.slots| == MAX_ENTRIES
    && HeaderOk(sums, s.sector.hdr)
    && WellFormed(sums, Loaded(sums, s.sector))
    && s.flashCrc == ImageCrc(sums, Loaded(sums, s.sector))
  }

  /** With no change pending, the sector decodes to the cache. */
  ghost predicate InSync(sums: Sums, s: Store)
    requires |s.sector.slots| == MAX_ENTRIES
  {
    s.dirty || Loaded(sums, s.sector) == s.entries
  }

  function Flush(sums: Sums, s: Store): Store
    requires |s.entries| <= MAX_ENTRIES
  {
    var seqNo := Add32(s.seqNo, 1);
    Store(s.entries, seqNo, false, false, s.dirtySince, ImageCrc(sums, s.entries), Image(sums, s.entries, seqNo))
  }

  function Commit(sums: Sums, s: Store): Store
    requires |s.entries| <= MAX_ENTRIES
  {
    if !s.dirty then s
    else if ImageCrc(sums, s.entries) == s.flashCrc then s.(dirty := false, dirtySeen := false)
    else Flush(sums, s)
  }

  /** The checksums tell the cache from what the sector holds. */
  ghost predicate NoCollision(sums: Sums, s: Store)
    requires Valid(sums, s)
  {
    TellsApart(sums, s.entries, Loaded(sums, s.sector))
  }

  /** nvs_tick: holds a pending change back while the gate is busy, for at most 60 s. */
  function Tick(sums: Sums, s: Store, now: nat, busy: bool): Store
    requires |s.entries| <= MAX_ENTRIES
  {
    if !s.dirty then s
    else
      var since := if s.dirtySeen then s.dirtySince else now;
      var s1 := s.(dirtySeen := true, dirtySince := since);
      if busy && now - since < MAX_HOLD_US then s1 else Commit(sums, s1)
  }

  lemma LoadedImage(sums: Sums, es: seq<Entry>, seqNo: u32)
    requires WellFormed(sums, es)
    ensures HeaderOk(sums, Image(sums, es, seqNo).hdr)
    ensures Loaded(sums, Image(sums, es, seqNo)) == es
  {
    assert Image(sums, es, seqNo).slots[..|es|] == es;
    CountAll(sums, es);
  }

  lemma FlushStores(sums: Sums, s: Store)
    requires WellFormed(sums, s.entries)
    ensures Valid(sums, Flush(sums, s)) && Loaded(sums, Flush(sums, s).sector) == s.entries
  {
    LoadedImage(sums, s.entries, Add32(s.seqNo, 1));
  }

  /** The count of the entries and their checksums in order. */
  function Digest(es: seq<Entry>): seq<u32>
    requires |es| <= MAX_ENTRIES
  {
    [|es|] + seq(|es|, i requires 0 <= i < |es| => es[i].crc)
  }

  lemma ImageCrcIs(sums: Sums, es: seq<Entry>)
    requires |es| <= MAX_ENTRIES
    ensures ImageCrc(sums, es) == sums.image(Digest(es))
  {
    assert Crcs(es) == seq(|es|, i requires 0 <= i < |es| => es[i].crc);
  }

  lemma CommitIs(sums: Sums, s: Store)
    requires Valid(sums, s) && s.dirty
    ensures |Loaded(sums, s.sector)| <= MAX_ENTRIES
    ensures var s' := Commit(sums, s);
            && Valid(sums, s') && !s'.dirty && s'.entries == s.entries
            && if ImageCrc(sums, s.entries) == ImageCrc(sums, Loaded(sums, s.sector)) then s'.sector == s.sector
               else Loaded(sums, s'.sector) == s.entries
  {
    FlushStores(sums, s);
  }

  /** A commit brings the sector up to date exactly when the checksum over count and entry
      checksums, in order, is not the same for the cache and for something else in the sector. */
  lemma CommitStoresIff(sums: Sums, s: Store)
    requires Valid(sums, s) && s.dirty
    ensures var s' := Commit(sums, s);
            var held := Loaded(sums, s.sector);
            && Valid(sums, s') && !s'.dirty && s'.entries == s.entries
            && (Loaded(sums, s'.sector) == s.entries <==>
                  (sums.image(Digest(s.entries)) == sums.image(Digest(held)) ==> s.entries == held))
  {
    CommitIs(sums, s);
    ImageCrcIs(sums, s.entries);
    ImageCrcIs(sums, Loaded(sums, s.sector));
    hide *;
  }

  /** The checksums tell these two lists of entries apart: different fields have different entry
      checksums, and different lists of a count and entry checksums have different sums. */
  ghost predicate TellsApart(sums: Sums, a: seq<Entry>, b: seq<Entry>) {
    && |a| <= MAX_ENTRIES && |b| <= MAX_ENTRIES
    && (forall e, g :: e in a && g in b && e.f != g.f ==> e.crc != g.crc)
    && (Digest(a) != Digest(b) ==> sums.image(Digest(a)) != sums.image(Digest(b)))
  }

  lemma NoCollisionMeansEqual(sums: Sums, a: seq<Entry>, b: seq<Entry>)
    requires TellsApart(sums, a, b) && sums.image(Digest(a)) == sums.image(Digest(b))
    ensures a == b
  {
    assert Digest(a)[0] == |a| && Digest(b)[0] == |b|;
    forall i | 0 <= i < |a| ensures a[i] == b[i] {
      assert Digest(a)[i + 1] == a[i].crc && Digest(b)[i + 1] == b[i].crc;
      assert a[i] in a && b[i] in b;
    }
  }

  /** A commit writes every change the checksums can tell. */
  lemma CommitStores(sums: Sums, s: Store)
    requires Valid(sums, s) && s.dirty && TellsApart(sums, s.entries, Loaded(sums, s.sector))
    ensures var s' := Commit(sums, s);
            Valid(sums, s') && !s'.dirty && s'.entries == s.entries && Loaded(sums, s'.sector) == s.entries
  {
    CommitStoresIff(sums, s);
    if sums.image(Digest(s.entries)) == sums.image(Digest(Loaded(sums, s.sector))) {
      NoCollisionMeansEqual(sums, s.entries, Loaded(sums, s.sector));
    }
    hide *;
  }

  /** No flash write while the gate is busy and the change has waited less than 60 s since
      it was first seen; otherwise the tick commits. */
  lemma TickRespectsGate(sums: Sums, s: Store, now: nat, busy: bool)
    requires Valid(sums, s) && s.dirty && (s.dirtySeen ==> s.dirtySince <= now)
    ensures var s' := Tick(sums, s, now, busy);
            var waited := if s.dirtySeen then now - s.dirtySince else 0;
            && s'.entries == s.entries && Valid(sums, s')
            && (s'.dirty <==> busy && waited < MAX_HOLD_US)
            && (s'.dirty ==> s'.sector == s.sector && s'.dirtySeen && now - s'.dirtySince == waited)
            && (!s'.dirty && NoCollision(sums, s) ==> Loaded(sums, s'.sector) == s.entries)
  {
    var since := if s.dirtySeen then s.dirtySince else now;
    CommitStoresIff(sums, s.(dirtySeen := true, dirtySince := since));
    if NoCollision(sums, s) {
      CommitStores(sums, s.(dirtySeen := true, dirtySince := since));
    }
    hide Commit, Valid, Loaded;
  }

  // ---- Booting -----------------------------------------------------------

  /** nvs_init up to the boot counter, on a sector of any content. */
  function Load(sums: Sums, sector: Sector): (s: Store)
    requires |sector.slots| == MAX_ENTRIES
    ensures |s.entries| <= MAX_ENTRIES
  {
    if HeaderOk(sums, sector.hdr) then
      var es := Loaded(sums, sector);
      Store(es, sector.hdr.seqNo, false, false, 0, ImageCrc(sums, es), sector)
    else
      Flush(sums, Store([], 1, false, false, 0, 0, sector))
  }

  function BootCount(es: seq<Entry>): u32 {
    var i := Find(es, BOOT_KEY);
    if i < |es| && |es[i].f.val| >= 4 then BytesU32(es[i].f.val) else 0
  }

  function Boot(sums: Sums, sector: Sector): Store
    requires |sector.slots| == MAX_ENTRIES
  {
    var s := Load(sums, sector);
    var (es, status) := Put(sums, s.entries, BOOT_KEY, TYPE_U32, U32Bytes(Add32(BootCount(s.entries), 1)));
    if status == Ok then s.(entries := es, dirty := true) else s
  }

  /** Booting from a sector in sync with es gives the same map, one boot later; only a
      store already full of other keys cannot take the counter. */
  lemma BootRestoresMap(sums: Sums, es: seq<Entry>, sector: Sector)
    requires WellFormed(sums, es) && |sector.slots| == MAX_ENTRIES
    requires HeaderOk(sums, sector.hdr) && Loaded(sums, sector) == es
    ensures var s := Boot(sums, sector);
            var fits := BOOT_KEY in View(es) || |View(es)| < MAX_ENTRIES;
            && Valid(sums, s) && (s.dirty <==> fits)
            && View(s.entries) ==
                 (if fits then View(es)[BOOT_KEY := (TYPE_U32, U32Bytes(Add32(BootCount(es), 1)))] else View(es))
            && (fits ==> BootCount(s.entries) == Add32(BootCount(es), 1))
  {
    var next := Add32(BootCount(es), 1);
    PutIsMapUpdate(sums, es, BOOT_KEY, TYPE_U32, U32Bytes(next));
    ViewHas(sums, es, BOOT_KEY);
    var s := Boot(sums, sector);
    ViewHas(sums, s.entries, BOOT_KEY);
    U32RoundTrip(next);
  }

  // ---- Power cuts --------------------------------------------------------

  /** Every entry of es up to k is programmed; the slots after that fail their check. */
  ghost predicate ProgrammedUpTo(sums: Sums, es: seq<Entry>, k: nat, slots: seq<Entry>) {
    && |slots| == MAX_ENTRIES && k <= |es| <= MAX_ENTRIES
    && slots[..k] == es[..k]
    && forall j :: k <= j < |slots| ==> !Genuine(sums, slots[j])
  }

  /** The sector contents a power cut may leave during a rewrite once the old header is gone:
      untouched; a header that fails its check (interrupted erase, erased, torn header); or
      the new header followed by some of the entries. Bytes are programmed in order, so the
      entries come in order. */
  ghost predicate FlushCut(sums: Sums, before: Sector, es: seq<Entry>, hdr: Header, image: Sector) {
    && |image.slots| == MAX_ENTRIES
    && (|| image == before
        || !HeaderOk(sums, image.hdr)
        || (image.hdr == hdr && exists k: nat :: ProgrammedUpTo(sums, es, k, image.slots)))
  }

  /** An interrupted erase that spares the old header: each slot is as it was, or fails its
      check. */
  ghost predicate EraseCut(sums: Sums, before: Sector, image: Sector) {
    && |before.slots| == |image.slots| == MAX_ENTRIES && image.hdr == before.hdr
    && forall j :: 0 <= j < MAX_ENTRIES ==> image.slots[j] == before.slots[j] || !Genuine(sums, image.slots[j])
  }

  /** The entries such an erase left whole come before those it spoiled. */
  ghost predicate SparedFirst(sums: Sums, image: Sector) {
    |image.slots| == MAX_ENTRIES && image.hdr.count <= MAX_ENTRIES
    && GenuinePrefix(sums, image.slots[..image.hdr.count])
  }

  /** Anything a power cut during a rewrite may leave. */
  ghost predicate RewriteCut(sums: Sums, before: Sector, es: seq<Entry>, hdr: Header, image: Sector) {
    FlushCut(sums, before, es, hdr, image) || EraseCut(sums, before, image)
  }

  /** After a cut anywhere in a sector rewrite, nvs_init loads the old image or exactly a
      prefix of the new one, never a mixture or a foreign entry; if an interrupted erase
      spared the old header, a prefix of the old image exactly when the entries left whole
      come first, and otherwise an entry it spoiled. */
  lemma CutLoadsPrefix(sums: Sums, before: Sector, es: seq<Entry>, seqNo: u32, image: Sector)
    requires WellFormed(sums, es) && |before.slots| == MAX_ENTRIES
    requires RewriteCut(sums, before, es, MakeHeader(sums, seqNo, |es|), image)
    ensures FlushCut(sums, before, es, MakeHeader(sums, seqNo, |es|), image) ==>
              image == before || Load(sums, image).entries <= es
    ensures FlushCut(sums, before, es, MakeHeader(sums, seqNo, |es|), image) && image != before ==>
              Valid(sums, Load(sums, image)) && InSync(sums, Load(sums, image))
    ensures EraseCut(sums, before, image) && HeaderOk(sums, before.hdr) && WellFormed(sums, Loaded(sums, before)) ==>
              && (Load(sums, image).entries <= Loaded(sums, before) <==> SparedFirst(sums, image))
              && (SparedFirst(sums, image) ==> Valid(sums, Load(sums, image)) && InSync(sums, Load(sums, image)))
              && (!SparedFirst(sums, image) ==> exists e :: e in Load(sums, image).entries && !Genuine(sums, e))
  {
    if FlushCut(sums, before, es, MakeHeader(sums, seqNo, |es|), image) {
      FlushCutLoadsPrefix(sums, before, es, seqNo, image);
    }
    if EraseCut(sums, before, image) && HeaderOk(sums, before.hdr) && WellFormed(sums, Loaded(sums, before)) {
      EraseCutLoadsPrefixIff(sums, before, image);
    }
    hide FlushCut, EraseCut, Load, Valid, InSync, WellFormed, SparedFirst;
  }

  lemma FlushCutLoadsPrefix(sums: Sums, before: Sector, es: seq<Entry>, seqNo: u32, image: Sector)
    requires WellFormed(sums, es) && |before.slots| == MAX_ENTRIES
    requires FlushCut(sums, before, es, MakeHeader(sums, seqNo, |es|), image)
    ensures image == before || Load(sums, image).entries <= es
    ensures image != before ==> Valid(sums, Load(sums, image)) && InSync(sums, Load(sums, image))
  {
    if image != before {
      if HeaderOk(sums, image.hdr) {
        var k: nat :| ProgrammedUpTo(sums, es, k, image.slots);
        var mine := image.slots[..|es|];
        assert forall i :: 0 <= i < k ==> mine[i] == image.slots[..k][i] == es[i];
        CountPrefix(sums, mine, k);
        assert Loaded(sums, image) == es[..k];
      } else {
        FlushStores(sums, Store([], 1, false, false, 0, 0, image));
      }
    }
  }

  lemma EraseCutLoadsPrefixIff(sums: Sums, before: Sector, image: Sector)
    requires EraseCut(sums, before, image) && HeaderOk(sums, before.hdr) && WellFormed(sums, Loaded(sums, before))
    ensures Load(sums, image).entries <= Loaded(sums, before) <==> SparedFirst(sums, image)
    ensures !SparedFirst(sums, image) ==> exists e :: e in Load(sums, image).entries && !Genuine(sums, e)
    ensures SparedFirst(sums, image) ==> Valid(sums, Load(sums, image)) && InSync(sums, Load(sums, image))
  {
    LoadsOnlyGenuineIff(sums, image);
    LoadsOnlyGenuineIff(sums, before);
    var was, now := Loaded(sums, before), Loaded(sums, image);
    if now <= was {
      forall e | e in now ensures Genuine(sums, e) {
        var i :| 0 <= i < |now| && now[i] == e;
        assert now[i] == was[i];
      }
    }
    if SparedFirst(sums, image) {
      forall e | e in was ensures Genuine(sums, e) {
        var i :| 0 <= i < |was| && was[i] == e;
      }
      SparedAreOld(sums, before, image);
    }
  }

  lemma SparedAreOld(sums: Sums, before: Sector, image: Sector)
    requires EraseCut(sums, before, image) && HeaderOk(sums, before.hdr)
    requires SparedFirst(sums, before) && SparedFirst(sums, image)
    ensures Loaded(sums, image) <= Loaded(sums, before)
  {
    var n := before.hdr.count;
    var j := GenuinePrefixLength(sums, before.slots[..n]);
    var k := GenuinePrefixLength(sums, image.slots[..n]);
    CountPrefix(sums, before.slots[..n], j);
    CountPrefix(sums, image.slots[..n], k);
    forall i | 0 <= i < k ensures image.slots[i] == before.slots[i] && i < j {
      assert Genuine(sums, image.slots[..n][i]) && image.slots[..n][i] == image.slots[i];
      assert before.slots[..n][i] == before.slots[i];
    }
    if k > 0 {
      assert image.slots[k - 1] == before.slots[k - 1] && k - 1 < j;
    }
    assert Loaded(sums, image) == image.slots[..k] && Loaded(sums, before) == before.slots[..j];
    forall i | 0 <= i < k ensures image.slots[..k][i] == before.slots[..j][i] {
      assert image.slots[i] == before.slots[i];
    }
  }

  // ---- Runs --------------------------------------------------------------

  datatype Op =
    | Set(key: string, kind: u8, val: Bytes)
    | Erase(key: string)
    | EraseAll
    | CommitNow
    | TickAt(now: nat, busy: bool)
    | Restore(es: seq<Entry>)
    | CutWhileFlushing(es: seq<Entry>, image: Sector)   // power lost while es was being written, then a boot
    | PowerCycle   // power lost outside a sector rewrite, then a boot

  /** Assumptions about one step of a run: restored snapshots were saved from this store,
      cuts leave what RewriteCut allows, with the entries a broken erase spared coming first
      (where they do not, CutLoadsPrefix says what is loaded), and the checksums tell the cache
      from what the sector holds. */
  ghost predicate Possible(sums: Sums, s: Store, op: Op)
    requires Valid(sums, s)
  {
    match op
    case Restore(es) => WellFormed(sums, es)
    case CutWhileFlushing(es, image) =>
      && WellFormed(sums, es)
      && (|| FlushCut(sums, s.sector, es, MakeHeader(sums, Add32(s.seqNo, 1), |es|), image)
          || (EraseCut(sums, s.sector, image) && SparedFirst(sums, image)))
    case _ => NoCollision(sums, s)
  }

  ghost function Step(sums: Sums, s: Store, op: Op): Store
    requires Valid(sums, s) && Possible(sums, s, op)
  {
    match op
    case Set(key, kind, val) =>
      var (es, status) := Put(sums, s.entries, key, kind, val);
      if status == Ok then s.(entries := es, dirty := true) else s
    case Erase(key) =>
      var (es, status) := Remove(s.entries, key);
      if status == Ok then s.(entries := es, dirty := true) else s
    case EraseAll => Flush(sums, s.(entries := []))
    case CommitNow => Commit(sums, s)
    case TickAt(now, busy) => Tick(sums, s, now, busy)
    case Restore(es) => if es == s.entries then s else Flush(sums, s.(entries := es))
    case CutWhileFlushing(_, image) => Boot(sums, image)
    case PowerCycle => Boot(sums, s.sector)
  }

  lemma StepKeepsSync(sums: Sums, s: Store, op: Op)
    requires Valid(sums, s) && InSync(sums, s) && Possible(sums, s, op)
    ensures Valid(sums, Step(sums, s, op)) && InSync(sums, Step(sums, s, op))
  {
    match op {
      case Set(key, kind, val) => PutIsMapUpdate(sums, s.entries, key, kind, val);
      case Erase(key) => RemoveIsMapRemoval(sums, s.entries, key);
      case EraseAll => FlushStores(sums, s.(entries := []));
      case CommitNow =>
        if s.dirty { CommitStores(sums, s); }
      case TickAt(now, busy) =>
        if s.dirty {
          var since := if s.dirtySeen then s.dirtySince else now;
          CommitStores(sums, s.(dirtySeen := true, dirtySince := since));
        }
      case Restore(es) =>
        if es != s.entries { FlushStores(sums, s.(entries := es)); }
      case CutWhileFlushing(es, image) =>
        CutLoadsPrefix(sums, s.sector, es, Add32(s.seqNo, 1), image);
        BootKeepsSync(sums, image);
      case PowerCycle => BootKeepsSync(sums, s.sector);
    }
  }

  lemma BootKeepsSync(sums: Sums, sector: Sector)
    requires |sector.slots| == MAX_ENTRIES
    requires Valid(sums, Load(sums, sector)) && InSync(sums, Load(sums, sector))
    ensures Valid(sums, Boot(sums, sector)) && InSync(sums, Boot(sums, sector))
  {
    var s := Load(sums, sector);
    PutIsMapUpdate(sums, s.entries, BOOT_KEY, TYPE_U32, U32Bytes(Add32(BootCount(s.entries), 1)));
  }

  ghost predicate Runs(sums: Sums, s: Store, ops: seq<Op>, s': Store)
    decreases |ops|
  {
    Valid(sums, s) &&
    if ops == [] then s' == s
    else Possible(sums, s, ops[0]) && Runs(sums, Step(sums, s, ops[0]), ops[1..], s')
  }

  /** Over every run of sets, erases, commits, ticks, restores, power cuts and boots, the
      store stays well formed, and whenever no change is pending the sector decodes to
      exactly the cache. */
  lemma {:induction false} EveryRunStaysInSync(sums: Sums, s: Store, ops: seq<Op>, s': Store)
    requires Valid(sums, s) && InSync(sums, s) && Runs(sums, s, ops, s')
    ensures Valid(sums, s') && InSync(sums, s')
    decreases |ops|
  {
    if ops != [] {
      StepKeepsSync(sums, s, ops[0]);
      EveryRunStaysInSync(sums, Step(sums, s, ops[0]), ops[1..], s');
    }
  }

  // ---- Reading values ----------------------------------------------------

  /** val_len as stored. */
  function ValLen(e: Entry): nat {
    |e.f.val| + e.f.excess
  }

  /** How many bytes nvs_get_blob copies into a buffer of room bytes. */
  function Copied(e: Entry, room: nat): nat {
    if ValLen(e) > room then room else ValLen(e)
  }

  /** The copy stays inside the 64 bytes of the value. */
  predicate StaysInside(e: Entry, room: nat) {
    Copied(e, room) <= VAL_MAX
  }

  predicate Sized(es: seq<Entry>) {
    forall i :: 0 <= i < |es| ==> ValLen(es[i]) <= VAL_MAX
  }

  /** Whatever key is asked for and whatever the buffer, a read stays inside its entry exactly
      if every entry a search can find has a length of at most 64. */
  lemma ReadsStayInsideIff(es: seq<Entry>)
    ensures (forall key, room: nat :: Find(es, key) < |es| ==> StaysInside(es[Find(es, key)], room))
            <==> forall i :: 0 <= i < |es| && Find(es, es[i].f.key) == i ==> ValLen(es[i]) <= VAL_MAX
  {
    if forall key, room: nat :: Find(es, key) < |es| ==> StaysInside(es[Find(es, key)], room) {
      forall i | 0 <= i < |es| && Find(es, es[i].f.key) == i ensures ValLen(es[i]) <= VAL_MAX {
        assert StaysInside(es[Find(es, es[i].f.key)], ValLen(es[i]));
      }
    } else {
      var key, room: nat :| Find(es, key) < |es| && !StaysInside(es[Find(es, key)], room);
      assert es[Find(es, key)].f.key == key;
    }
  }

  /** A damaged entry that is loaded may send a read past its value: one of length 0xFFFF. */
  lemma DamagedEntryIsOverread(sums: Sums, good: Entry, crc: u32)
    requires Genuine(sums, good)
    ensures var f := Fields(ENTRY_MAGIC, "k", TYPE_BLOB, FLAG_VALID, seq(VAL_MAX, _ => 0), 0xFFFF - VAL_MAX);
            var bad := Entry(f, crc);
            var s := Sector(MakeHeader(sums, 1, 2), [bad, good] + seq(30, _ => BLANK));
            crc != sums.entry(f) ==>
              Find(Loaded(sums, s), "k") == 0 && Loaded(sums, s) == [bad] && !StaysInside(bad, VAL_MAX + 1)
  {
    var f := Fields(ENTRY_MAGIC, "k", TYPE_BLOB, FLAG_VALID, seq(VAL_MAX, _ => 0), 0xFFFF - VAL_MAX);
    var bad := Entry(f, crc);
    if crc != sums.entry(f) {
      var s := Sector(MakeHeader(sums, 1, 2), [bad, good] + seq(30, _ => BLANK));
      assert s.slots[..2] == [bad, good] && [bad, good][..1] == [bad] && [bad][..0] == [];
      assert CountGenuine(sums, [bad]) == 0;
      assert CountGenuine(sums, [bad, good]) == 1;
      assert s.slots[..1] == [bad];
    }
  }

  /** Steps that bring in no longer value: the setters refuse those. */
  predicate SizedOp(op: Op) {
    match op
    case Set(_, _, val) => |val| <= VAL_MAX
    case Restore(es) => Sized(es)
    case CutWhileFlushing(es, _) => Sized(es)
    case _ => true
  }

  ghost predicate SizedStore(sums: Sums, s: Store)
    requires |s.sector.slots| == MAX_ENTRIES
  {
    Sized(s.entries) && Sized(Loaded(sums, s.sector))
  }

  lemma PutKeepsSized(sums: Sums, es: seq<Entry>, key: string, kind: u8, val: Bytes)
    requires Sized(es) && |val| <= VAL_MAX
    ensures Sized(Put(sums, es, key, kind, val).0)
  {
  }

  lemma FlushKeepsSized(sums: Sums, s: Store)
    requires WellFormed(sums, s.entries) && Sized(s.entries)
    ensures SizedStore(sums, Flush(sums, s))
  {
    FlushStores(sums, s);
  }

  lemma CommitKeepsSized(sums: Sums, s: Store)
    requires Valid(sums, s) && SizedStore(sums, s)
    ensures SizedStore(sums, Commit(sums, s))
  {
    FlushKeepsSized(sums, s);
    hide Flush, Sized;
  }

  lemma BootKeepsSized(sums: Sums, sector: Sector)
    requires |sector.slots| == MAX_ENTRIES && Sized(Loaded(sums, sector))
    ensures SizedStore(sums, Boot(sums, sector))
  {
    var s := Load(sums, sector);
    FlushKeepsSized(sums, Store([], 1, false, false, 0, 0, sector));
    PutKeepsSized(sums, s.entries, BOOT_KEY, TYPE_U32, U32Bytes(Add32(BootCount(s.entries), 1)));
  }

  lemma CutKeepsSized(sums: Sums, s: Store, es: seq<Entry>, image: Sector)
    requires Valid(sums, s) && SizedStore(sums, s) && Sized(es) && Possible(sums, s, CutWhileFlushing(es, image))
    ensures SizedStore(sums, Boot(sums, image))
  {
    CutLoadsPrefix(sums, s.sector, es, Add32(s.seqNo, 1), image);
    if HeaderOk(sums, image.hdr) {
      assert Load(sums, image).entries == Loaded(sums, image);
    }
    hide FlushCut, EraseCut;
    BootKeepsSized(sums, image);
  }

  lemma StepKeepsSized(sums: Sums, s: Store, op: Op)
    requires Valid(sums, s) && SizedStore(sums, s) && Possible(sums, s, op) && SizedOp(op)
    ensures |Step(sums, s, op).sector.slots| == MAX_ENTRIES && SizedStore(sums, Step(sums, s, op))
  {
    match op {
      case Set(key, kind, val) => PutKeepsSized(sums, s.entries, key, kind, val);
      case Erase(_) =>
      case EraseAll => FlushKeepsSized(sums, s.(entries := []));
      case CommitNow => CommitKeepsSized(sums, s);
      case TickAt(now, _) =>
        CommitKeepsSized(sums, s.(dirtySeen := true, dirtySince := if s.dirtySeen then s.dirtySince else now));
      case Restore(es) => FlushKeepsSized(sums, s.(entries := es));
      case CutWhileFlushing(es, image) => CutKeepsSized(sums, s, es, image);
      case PowerCycle => BootKeepsSized(sums, s.sector);
    }
    hide Boot, Commit, Flush;
  }

  /** Over every run, power cuts included, every read of the store stays inside its entry. */
  lemma {:induction false} EveryRunReadsInside(sums: Sums, s: Store, ops: seq<Op>, s': Store, key: string, room: nat)
    requires Valid(sums, s) && InSync(sums, s) && SizedStore(sums, s)
    requires Runs(sums, s, ops, s') && forall op :: op in ops ==> SizedOp(op)
    ensures Find(s'.entries, key) < |s'.entries| ==> StaysInside(s'.entries[Find(s'.entries, key)], room)
    decreases |ops|
  {
    if ops != [] {
      assert ops[0] in ops && forall op :: op in ops[1..] ==> op in ops;
      StepKeepsSync(sums, s, ops[0]);
      StepKeepsSized(sums, s, ops[0]);
      EveryRunReadsInside(sums, Step(sums, s, ops[0]), ops[1..], s', key, room);
    }
  }
}

// Physical memory protection (src/pmp.c): the encodings of a region, and the control
// registers written step by step.

module Pmp {
  import opened BitOrder

  const R_BIT: bv32 := 1
  const W_BIT: bv32 := 2
  const X_BIT: bv32 := 4
  const A_MASK: bv32 := 0x18
  const A_OFF: bv32 := 0
  const A_TOR: bv32 := 0x08
  const A_NA4: bv32 := 0x10
  const A_NAPOT: bv32 := 0x18
  const L_BIT: bv32 := 0x80
  const ALL_BITS: bv32 := 0xFFFF_FFFF

  datatype Status = Ok | InvalidRegion | InvalidAlign | Locked | InvalidLen | InvalidAddr

  // ---- NAPOT encoding ----------------------------------------------------

  /** pmp_calc_napot: the address register for a naturally aligned power of two. */
  function CalcNapot(base: bv32, len: bv32): (Status, bv32) {
    if len < 8 then (InvalidLen, 0)
    else if len & (len - 1) != 0 then (InvalidLen, 0)
    else if base & (len - 1) != 0 then (InvalidAlign, 0)
    else (Ok, (base >> 2) | ((len - 1) >> 3))
  }

  /** The lowest clear bit of x, as a mask; 0 if x is all ones. The code's count of trailing
      ones is its position. */
  function LowestClear(x: bv32): bv32 {
    !x & (x + 1)
  }

  lemma LowestClearIsLowest(x: bv32)
    ensures var z := LowestClear(x);
            && (z == 0 <==> x == ALL_BITS)
            && z & (z - 1) == 0 && x & z == 0 && x & (z - 1) == z - 1
  {
  }

  /** pmp_decode_napot: base and length; with 29 trailing ones or more the length no longer
      fits 32 bits and all ones stand for it. */
  function DecodeNapot(x: bv32): (bv32, bv32) {
    var z := LowestClear(x);
    (BaseAbove(x, z), if z == 0 || z >= 0x2000_0000 then ALL_BITS else LengthOf(z))
  }

  function BaseAbove(x: bv32, z: bv32): bv32 {
    (x & !(z - 1)) << 2
  }

  function LengthOf(z: bv32): bv32 {
    z << 3
  }

  // With m = len - 1, the facts about the encoding go one bit operation at a time.

  predicate LowOnes(m: bv32) {
    m & (m + 1) == 0 && m >= 7
  }

  predicate Aligned(b: bv32, m: bv32) {
    b & m == 0
  }

  function Encoding(b: bv32, m: bv32): bv32 {
    (b >> 2) | (m >> 3)
  }

  lemma CalcEncodes(base: bv32, len: bv32)
    requires CalcNapot(base, len).0 == Ok
    ensures LowOnes(len - 1) && Aligned(base, len - 1) && len >= 8 && len & (len - 1) == 0
    ensures CalcNapot(base, len).1 == Encoding(base, len - 1)
  {
  }

  lemma AlignedToWords(b: bv32, m: bv32)
    requires LowOnes(m)
    ensures Aligned(b, m) ==> b & 7 == 0 && b & 3 == 0
    ensures b & !m & 3 == 0 && m & 7 == 7
  {
  }

  /** a lies in the block of b. */
  predicate SameBlock(a: bv32, b: bv32, m: bv32) {
    a & !m == b
  }

  predicate Within(a: bv32, b: bv32, m: bv32) {
    b <= a && a - b <= m
  }

  /** The bits the match rule ignores. */
  function DontCare(p: bv32): bv32 {
    p ^ (p + 1)
  }

  lemma EncodingDontCare(b: bv32, m: bv32)
    requires LowOnes(m) && Aligned(b, m)
    ensures DontCare(Encoding(b, m)) == m >> 2
  {
  }

  lemma EncodingCares(b: bv32, m: bv32)
    requires LowOnes(m) && Aligned(b, m)
    ensures Encoding(b, m) & !(m >> 2) == b >> 2
  {
  }

  lemma AddressCares(a: bv32, m: bv32)
    ensures (a >> 2) & !(m >> 2) == (a & !m) >> 2
  {
  }

  lemma MatchIsEquality(p: bv32, a: bv32, d: bv32)
    requires d == DontCare(p) && (a >> 2) & !d == p & !d
    ensures NapotMatches(p, a)
  {
  }

  lemma MatchIfSameBlock(b: bv32, m: bv32, a: bv32)
    requires LowOnes(m) && Aligned(b, m) && SameBlock(a, b, m)
    ensures NapotMatches(Encoding(b, m), a)
  {
    EncodingDontCare(b, m);
    EncodingCares(b, m);
    AddressCares(a, m);
    assert a & !m == b;
    hide *;
    MatchIsEquality(Encoding(b, m), a, m >> 2);
  }

  lemma SameBlockIfMatch(b: bv32, m: bv32, a: bv32)
    requires LowOnes(m) && Aligned(b, m) && NapotMatches(Encoding(b, m), a)
    ensures SameBlock(a, b, m)
  {
  }

  lemma WithinIfSameBlock(a: bv32, b: bv32, m: bv32)
    requires LowOnes(m) && Aligned(b, m) && SameBlock(a, b, m)
    ensures Within(a, b, m)
  {
  }

  lemma SameBlockIfWithin(a: bv32, b: bv32, m: bv32)
    requires LowOnes(m) && Aligned(b, m) && Within(a, b, m)
    ensures SameBlock(a, b, m)
  {
  }

  lemma EncodingLowestClear(b: bv32, m: bv32)
    requires LowOnes(m) && Aligned(b, m)
    ensures LowestClear(Encoding(b, m)) == (m >> 3) + 1
  {
  }

  lemma EncodingBase(b: bv32, m: bv32)
    requires LowOnes(m) && Aligned(b, m)
    ensures Encoding(b, m) & !(m >> 3) == b >> 2
  {
  }

  lemma ShiftBack(b: bv32, m: bv32)
    requires b & 7 == 0 && m & 7 == 7
    ensures (b >> 2) << 2 == b && ((m >> 3) + 1) << 3 == m + 1
    ensures 0 < (m >> 3) + 1 && (m != ALL_BITS ==> (m >> 3) + 1 < 0x2000_0000)
  {
  }

  // ---- The address-match rule --------------------------------------------

  /** Section 3.7.1 of the RISC-V Privileged Architecture: the register's trailing ones and
      the zero above them are don't-care bits. */
  predicate NapotMatches(p: bv32, a: bv32) {
    (a >> 2) & !(p ^ (p + 1)) == p & !(p ^ (p + 1))
  }

  predicate Inside(a: bv32, start: bv32, length: bv32) {
    start <= a && a - start < length
  }

  lemma EncodingMatches(b: bv32, m: bv32, a: bv32)
    requires LowOnes(m) && Aligned(b, m)
    ensures NapotMatches(Encoding(b, m), a) <==> Within(a, b, m)
  {
    hide *;
    if Within(a, b, m) {
      SameBlockIfWithin(a, b, m);
      MatchIfSameBlock(b, m, a);
    }
    if NapotMatches(Encoding(b, m), a) {
      SameBlockIfMatch(b, m, a);
      WithinIfSameBlock(a, b, m);
    }
  }

  /** Every region pmp_calc_napot accepts, from 8 bytes to 2^31, is matched exactly. */
  lemma NapotMatchesExactly(base: bv32, len: bv32, a: bv32)
    requires CalcNapot(base, len).0 == Ok
    ensures NapotMatches(CalcNapot(base, len).1, a) <==> Inside(a, base, len)
  {
    CalcEncodes(base, len);
    EncodingMatches(base, len - 1, a);
    LessEqual(a - base, len);
    hide CalcNapot, NapotMatches, Encoding, LowOnes, Aligned;
  }

  lemma LessEqual(x: bv32, len: bv32)
    requires len >= 8 && len & (len - 1) == 0
    ensures x <= len - 1 ==> x < len
    ensures x < len ==> x <= len - 1
  {
  }

  /** Decoding gives back what was encoded. */
  lemma DecodeInvertsCalc(base: bv32, len: bv32)
    requires CalcNapot(base, len).0 == Ok
    ensures DecodeNapot(CalcNapot(base, len).1) == (base, len)
  {
    CalcEncodes(base, len);
    var m := len - 1;
    EncodingLowestClear(base, m);
    EncodingBase(base, m);
    AlignedToWords(base, m);
    ShiftBack(base, m);
    hide CalcNapot, LowestClear, Encoding, LowOnes, Aligned;
  }

  /** The registers that stand for a region of 32-bit addresses. */
  predicate Representable(p: bv32) {
    p < 0x4000_0000 && 0 < LowestClear(p) < 0x2000_0000
  }

  /** Encoding what was decoded gives the register back exactly when it has no bit above
      address bit 31 and fewer than 29 trailing ones. */
  lemma CalcInvertsDecodeIff(p: bv32)
    ensures var (base, len) := DecodeNapot(p); CalcNapot(base, len) == (Ok, p) <==> Representable(p)
  {
    var (base, len) := DecodeNapot(p);
    hide *;
    if Representable(p) {
      RepresentableRoundTrips(p);
    } else {
      OthersDoNot(p);
    }
  }

  lemma RepresentableRoundTrips(p: bv32)
    requires Representable(p)
    ensures CalcNapot(DecodeNapot(p).0, DecodeNapot(p).1) == (Ok, p)
  {
    hide *;
    DecodedIsAligned(p);
    DecodedFits(p);
    CalcFrom(DecodeNapot(p).0, DecodeNapot(p).1, p);
  }

  /** What a naturally aligned power of two is, and its encoding. */
  predicate WellAligned(base: bv32, len: bv32) {
    len >= 8 && len & (len - 1) == 0 && base & (len - 1) == 0
  }

  predicate EncodesTo(base: bv32, len: bv32, p: bv32) {
    (base >> 2) | ((len - 1) >> 3) == p
  }

  lemma CalcFrom(base: bv32, len: bv32, p: bv32)
    requires WellAligned(base, len) && EncodesTo(base, len, p)
    ensures CalcNapot(base, len) == (Ok, p)
  {
  }

  lemma OthersDoNot(p: bv32)
    requires !Representable(p)
    ensures CalcNapot(DecodeNapot(p).0, DecodeNapot(p).1) != (Ok, p)
  {
    EncodedIsShort(DecodeNapot(p).0, DecodeNapot(p).1);
    hide LowestClear;
  }

  lemma EncodedIsShort(base: bv32, len: bv32)
    ensures (base >> 2) | ((len - 1) >> 3) < 0x4000_0000
  {
  }

  lemma DecodedIsAligned(p: bv32)
    requires Representable(p)
    ensures WellAligned(DecodeNapot(p).0, DecodeNapot(p).1)
  {
  }

  lemma DecodedFits(p: bv32)
    requires Representable(p)
    ensures EncodesTo(DecodeNapot(p).0, DecodeNapot(p).1, p)
  {
    BitsFit(p, LowestClear(p));
    hide LowestClear, BaseAbove, LengthOf, EncodesTo;
  }

  lemma BitsFit(p: bv32, z: bv32)
    requires z == LowestClear(p) && 0 < z < 0x2000_0000 && p < 0x4000_0000
    ensures EncodesTo(BaseAbove(p, z), LengthOf(z), p)
  {
  }

  // ---- The registers -----------------------------------------------------

  /** pmpcfg0 with its four entry bytes, and pmpaddr0 to pmpaddr3. */
  datatype Csrs = Csrs(cfg: bv32, a0: bv32, a1: bv32, a2: bv32, a3: bv32)

  function Addr(c: Csrs, i: nat): bv32 {
    if i == 0 then c.a0 else if i == 1 then c.a1 else if i == 2 then c.a2 else c.a3
  }

  function WithAddr(c: Csrs, i: nat, v: bv32): Csrs {
    if i == 0 then c.(a0 := v) else if i == 1 then c.(a1 := v) else if i == 2 then c.(a2 := v) else c.(a3 := v)
  }

  /** x << (8 * i) and x >> (8 * i), the shifts used for entry i. */
  function Up(x: bv32, i: nat): bv32 {
    if i == 0 then x else if i == 1 then x << 8 else if i == 2 then x << 16 else x << 24
  }

  function Down(x: bv32, i: nat): bv32 {
    if i == 0 then x else if i == 1 then x >> 8 else if i == 2 then x >> 16 else x >> 24
  }

  function Entry(cfg: bv32, i: nat): bv32 {
    Down(cfg, i) & 0xFF
  }

  function Keep(x: bv32, m: bv32): bv32 {
    x & m
  }

  function Drop(x: bv32, m: bv32): bv32 {
    x & !m
  }

  function Join(x: bv32, y: bv32): bv32 {
    x | y
  }

  function Cleared(cfg: bv32, i: nat): bv32 {
    Drop(cfg, Up(0xFF, i))
  }

  function Placed(cfg: bv32, i: nat, b: bv32): bv32 {
    Join(cfg, Up(b, i))
  }

  /** The byte of entry i where it stands. */
  function Field(x: bv32, i: nat): bv32 {
    Keep(x, Up(0xFF, i))
  }

  lemma EntryMasked0(x: bv32)
    ensures Entry(x, 0) == Down(Field(x, 0), 0)
  {
  }

  lemma EntryMasked1(x: bv32)
    ensures Entry(x, 1) == Down(Field(x, 1), 1)
  {
  }

  lemma EntryMasked2(x: bv32)
    ensures Entry(x, 2) == Down(Field(x, 2), 2)
  {
  }

  lemma EntryMasked3(x: bv32)
    ensures Entry(x, 3) == Down(Field(x, 3), 3)
  {
  }

  lemma EntryMasked(x: bv32, i: nat)
    requires i < 4
    ensures Entry(x, i) == Down(Field(x, i), i)
  {
    hide *;
    if i == 0 {
      EntryMasked0(x);
    } else if i == 1 {
      EntryMasked1(x);
    } else if i == 2 {
      EntryMasked2(x);
    } else {
      EntryMasked3(x);
    }
  }

  predicate IsByte(b: bv32) {
    b & 0xFF == b
  }

  lemma UpDown(b: bv32, i: nat)
    requires IsByte(b)
    ensures Down(Up(b, i), i) == b
  {
  }

  lemma UpInside(b: bv32, i: nat)
    requires IsByte(b)
    ensures Keep(Up(b, i), Up(0xFF, i)) == Up(b, i)
  {
  }

  lemma FieldsDisjoint(i: nat, j: nat)
    requires i < 4 && j < 4 && i != j
    ensures Keep(Up(0xFF, i), Up(0xFF, j)) == 0
  {
  }

  lemma DownZero(i: nat)
    ensures Down(0, i) == 0
  {
  }

  lemma DropSelf(x: bv32, m: bv32)
    ensures Keep(Drop(x, m), m) == 0
  {
  }

  lemma DropOther(x: bv32, m: bv32, n: bv32)
    requires Keep(m, n) == 0
    ensures Keep(Drop(x, m), n) == Keep(x, n)
  {
  }

  lemma JoinSelf(x: bv32, v: bv32, m: bv32)
    requires Keep(v, m) == v
    ensures Keep(Join(Drop(x, m), v), m) == v
  {
  }

  lemma JoinOther(x: bv32, v: bv32, m: bv32, n: bv32)
    requires Keep(m, n) == 0 && Keep(v, m) == v
    ensures Keep(Join(Drop(x, m), v), n) == Keep(x, n)
  {
  }

  lemma FieldOfCleared(cfg: bv32, i: nat, j: nat)
    requires i < 4 && j < 4
    ensures Field(Cleared(cfg, i), j) == if i == j then 0 else Field(cfg, j)
  {
    hide Up, Keep, Drop;
    if i == j {
      DropSelf(cfg, Up(0xFF, i));
    } else {
      FieldsDisjoint(i, j);
      DropOther(cfg, Up(0xFF, i), Up(0xFF, j));
    }
  }

  lemma FieldOfPlaced(cfg: bv32, i: nat, j: nat, b: bv32)
    requires i < 4 && j < 4 && IsByte(b)
    ensures Field(Placed(Cleared(cfg, i), i, b), j) == if i == j then Up(b, i) else Field(cfg, j)
  {
    hide Up, Keep, Drop, Join, IsByte;
    UpInside(b, i);
    if i == j {
      JoinSelf(cfg, Up(b, i), Up(0xFF, i));
    } else {
      FieldsDisjoint(i, j);
      JoinOther(cfg, Up(b, i), Up(0xFF, i), Up(0xFF, j));
    }
  }

  lemma ClearedEntry(cfg: bv32, i: nat, j: nat)
    requires i < 4 && j < 4
    ensures Entry(Cleared(cfg, i), j) == if i == j then 0 else Entry(cfg, j)
  {
    hide *;
    FieldOfCleared(cfg, i, j);
    EntryMasked(cfg, j);
    EntryMasked(Cleared(cfg, i), j);
    DownZero(i);
  }

  lemma PlacedEntry(cfg: bv32, i: nat, j: nat, b: bv32)
    requires i < 4 && j < 4 && IsByte(b)
    ensures Entry(Placed(Cleared(cfg, i), i, b), j) == if i == j then b else Entry(cfg, j)
  {
    hide *;
    FieldOfPlaced(cfg, i, j, b);
    EntryMasked(cfg, j);
    EntryMasked(Placed(Cleared(cfg, i), i, b), j);
    UpDown(b, i);
  }

  predicate IsLocked(c: Csrs, i: nat) {
    Entry(c.cfg, i) & L_BIT != 0
  }

  /** Which addresses an entry applies to (section 3.7.1 of the RISC-V Privileged
      Architecture); registers hold address bits 33 to 2. */
  predicate EntryMatches(c: Csrs, i: nat, a: bv32) {
    var field := Entry(c.cfg, i) & A_MASK;
    if field == A_OFF then false
    else if field == A_TOR then TorMatches(if i == 0 then 0 else Addr(c, i - 1), Addr(c, i), a)
    else if field == A_NA4 then WordMatches(Addr(c, i), a)
    else NapotMatches(Addr(c, i), a)
  }

  predicate WordMatches(p: bv32, a: bv32) {
    a >> 2 == p
  }

  predicate TorMatches(bottom: bv32, top: bv32, a: bv32) {
    NotAbove(bottom, a >> 2) && After(top, a >> 2)
  }

  // ---- Setting a region --------------------------------------------------

  datatype Mode = Auto | Tor | Na4 | Napot | Off | Unknown

  datatype Region = Region(
    idx: nat, start: bv32, length: bv32, read: bool, write: bool, execute: bool, lock: bool, mode: Mode)

  /** The bottom of entry i in top-of-range mode. */
  function Bottom(c: Csrs, i: nat): bv32 {
    if i == 0 then 0 else Addr(c, i - 1) << 2
  }

  predicate WordAligned(a: bv32) {
    a & 3 == 0
  }

  function WordOf(a: bv32): bv32 {
    a >> 2
  }

  /** The end as the code computes it, wrapping around. */
  function EndOf(r: Region): bv32 {
    r.start + r.length
  }

  function Resolve(c: Csrs, r: Region): Mode {
    if r.mode != Auto then r.mode
    else if r.length == 0 then Off
    else if r.length == 4 && WordAligned(r.start) then Na4
    else if WellAligned(r.start, r.length) then Napot
    else if WordAligned(r.start) && r.start == Bottom(c, r.idx) then Tor
    else Auto
  }

  /** The address register and the A field for a region, or why it is refused. */
  datatype Coded = Coded(addr: bv32, field: bv32) | Refused(status: Status)

  function Code(c: Csrs, r: Region): Coded {
    match Resolve(c, r)
    case Auto => Refused(InvalidAlign)
    case Off => Coded(0, A_OFF)
    case Tor =>
      if !WordAligned(r.start) then Refused(InvalidAlign)
      else if r.start != Bottom(c, r.idx) then Refused(InvalidAddr)
      else Coded(WordOf(EndOf(r)), A_TOR)
    case Na4 => if !WordAligned(r.start) then Refused(InvalidAlign) else Coded(WordOf(r.start), A_NA4)
    case Napot =>
      var (status, addr) := CalcNapot(r.start, r.length);
      if status == Ok then Coded(addr, A_NAPOT) else Refused(status)
    case Unknown => Refused(InvalidRegion)
  }

  function EntryByte(field: bv32, r: Region): bv32 {
    field | (if r.read then R_BIT else 0) | (if r.write then W_BIT else 0)
    | (if r.execute then X_BIT else 0) | (if r.lock then L_BIT else 0)
  }

  /** The register states one call goes through. */
  datatype Outcome = Rejected(status: Status) | Written(off: Csrs, moved: Csrs, on: Csrs)

  /** pmp_set_region: off, new address, on. */
  function SetRegion(c: Csrs, r: Region): Outcome {
    if r.idx >= 4 then Rejected(InvalidRegion)
    else if IsLocked(c, r.idx) then Rejected(Locked)
    else
      match Code(c, r)
      case Refused(status) => Rejected(status)
      case Coded(addr, field) =>
        var off := c.(cfg := Cleared(c.cfg, r.idx));
        var moved := WithAddr(off, r.idx, addr);
        Written(off, moved, moved.(cfg := Placed(off.cfg, r.idx, EntryByte(field, r))))
  }

  predicate IsField(field: bv32) {
    field == A_OFF || field == A_TOR || field == A_NA4 || field == A_NAPOT
  }

  lemma EntryByteIsByte(field: bv32, r: Region)
    requires IsField(field)
    ensures IsByte(EntryByte(field, r))
  {
  }

  lemma ByteFields(field: bv32, r: Region)
    requires IsField(field)
    ensures var b := EntryByte(field, r);
            && b & A_MASK == field && (b & L_BIT != 0 <==> r.lock)
            && (b & R_BIT != 0 <==> r.read) && (b & W_BIT != 0 <==> r.write) && (b & X_BIT != 0 <==> r.execute)
  {
  }

  lemma AddrAfter(c: Csrs, i: nat, j: nat, v: bv32)
    requires i < 4 && j < 4
    ensures Addr(WithAddr(c, i, v), j) == if i == j then v else Addr(c, j)
    ensures WithAddr(c, i, v).cfg == c.cfg
  {
  }

  lemma AddrIgnoresCfg(c: Csrs, j: nat, cfg: bv32)
    ensures Addr(c.(cfg := cfg), j) == Addr(c, j)
  {
  }

  /** In every intermediate state the entry is as it was, off, or entirely new, the address
      moves only while it is off, and the other entries do not change at all. */
  lemma SetGoesThroughOff(c: Csrs, r: Region, j: nat)
    requires SetRegion(c, r).Written? && j < 4
    ensures var w := SetRegion(c, r);
            var coded := Code(c, r);
            && coded.Coded?
            && Entry(w.off.cfg, r.idx) == 0 && Entry(w.moved.cfg, r.idx) == 0
            && Addr(w.off, r.idx) == Addr(c, r.idx) && Addr(w.moved, r.idx) == coded.addr
            && Entry(w.on.cfg, r.idx) == EntryByte(coded.field, r) && Addr(w.on, r.idx) == coded.addr
            && (j != r.idx ==>
                  && Entry(w.off.cfg, j) == Entry(w.moved.cfg, j) == Entry(w.on.cfg, j) == Entry(c.cfg, j)
                  && Addr(w.off, j) == Addr(w.moved, j) == Addr(w.on, j) == Addr(c, j))
  {
    CodeFields(c, r);
    hide Code, EntryByte, Entry, Cleared, Placed, IsLocked, IsByte, IsField;
    hide Addr, WithAddr;
    var b := EntryByte(Code(c, r).field, r);
    EntryByteIsByte(Code(c, r).field, r);
    var w := SetRegion(c, r);
    AddrIgnoresCfg(c, j, w.off.cfg);
    AddrIgnoresCfg(c, r.idx, w.off.cfg);
    AddrIgnoresCfg(w.moved, j, w.on.cfg);
    AddrIgnoresCfg(w.moved, r.idx, w.on.cfg);
    AddrAfter(w.off, r.idx, j, Code(c, r).addr);
    AddrAfter(w.off, r.idx, r.idx, Code(c, r).addr);
    ClearedEntry(c.cfg, r.idx, j);
    ClearedEntry(c.cfg, r.idx, r.idx);
    PlacedEntry(c.cfg, r.idx, j, b);
    PlacedEntry(c.cfg, r.idx, r.idx, b);
  }

  lemma CodeFields(c: Csrs, r: Region)
    ensures Code(c, r).Coded? ==> IsField(Code(c, r).field)
  {
    hide CalcNapot, Resolve, Bottom;
  }

  // ---- Which regions are accepted ----------------------------------------

  function PowerOf(k: bv32): bv32
    requires k <= 31
  {
    (1 as bv32) << k
  }

  /** Two to the power of k for some k from 3 to 31. */
  ghost predicate IsPower(len: bv32) {
    exists k: bv32 :: 3 <= k <= 31 && len == PowerOf(k)
  }

  lemma PowersHaveOneBit(k: bv32)
    requires 3 <= k <= 31
    ensures var len := PowerOf(k); len >= 8 && len & (len - 1) == 0
  {
  }

  lemma SmallOneBit(len: bv32)
    requires 8 <= len < 0x2_0000 && len & (len - 1) == 0
    ensures || len == 0x8 || len == 0x10 || len == 0x20 || len == 0x40 || len == 0x80 || len == 0x100 || len == 0x200
            || len == 0x400 || len == 0x800 || len == 0x1000 || len == 0x2000 || len == 0x4000 || len == 0x8000
            || len == 0x1_0000
  {
  }

  lemma LargeOneBit(len: bv32)
    requires len >= 0x2_0000 && len & (len - 1) == 0
    ensures || len == 0x2_0000 || len == 0x4_0000 || len == 0x8_0000 || len == 0x10_0000 || len == 0x20_0000
            || len == 0x40_0000 || len == 0x80_0000 || len == 0x100_0000 || len == 0x200_0000 || len == 0x400_0000
            || len == 0x800_0000 || len == 0x1000_0000 || len == 0x2000_0000 || len == 0x4000_0000 || len == 0x8000_0000
  {
  }

  lemma OneBitIsPower(len: bv32)
    requires len >= 8 && len & (len - 1) == 0
    ensures IsPower(len)
  {
    if len < 0x2_0000 {
      SmallOneBit(len);
      assert PowerOf(3) == 0x8 && PowerOf(4) == 0x10;
      assert PowerOf(5) == 0x20 && PowerOf(6) == 0x40;
      assert PowerOf(7) == 0x80 && PowerOf(8) == 0x100;
      assert PowerOf(9) == 0x200 && PowerOf(10) == 0x400;
      assert PowerOf(11) == 0x800 && PowerOf(12) == 0x1000;
      assert PowerOf(13) == 0x2000 && PowerOf(14) == 0x4000;
      assert PowerOf(15) == 0x8000 && PowerOf(16) == 0x1_0000;
    } else {
      LargeOneBit(len);
      assert PowerOf(17) == 0x2_0000 && PowerOf(18) == 0x4_0000;
      assert PowerOf(19) == 0x8_0000 && PowerOf(20) == 0x10_0000;
      assert PowerOf(21) == 0x20_0000 && PowerOf(22) == 0x40_0000;
      assert PowerOf(23) == 0x80_0000 && PowerOf(24) == 0x100_0000;
      assert PowerOf(25) == 0x200_0000 && PowerOf(26) == 0x400_0000;
      assert PowerOf(27) == 0x800_0000 && PowerOf(28) == 0x1000_0000;
      assert PowerOf(29) == 0x2000_0000 && PowerOf(30) == 0x4000_0000;
      assert PowerOf(31) == 0x8000_0000;
    }
  }

  /** A power of two from 8 on at a multiple of itself. */
  ghost predicate Natural(base: bv32, len: bv32) {
    IsPower(len) && Aligned(base, len - 1)
  }

  predicate OneBit(len: bv32) {
    len >= 8 && len & (len - 1) == 0
  }

  lemma OneBitIffPower(len: bv32)
    ensures OneBit(len) <==> IsPower(len)
  {
    if OneBit(len) {
      OneBitIsPower(len);
    } else if IsPower(len) {
      var k: bv32 :| 3 <= k <= 31 && len == PowerOf(k);
      PowersHaveOneBit(k);
    }
    hide IsPower, PowerOf;
  }

  lemma CalcByBits(base: bv32, len: bv32)
    ensures CalcNapot(base, len).0 ==
            if !OneBit(len) then InvalidLen else if Aligned(base, len - 1) then Ok else InvalidAlign
  {
  }

  /** pmp_calc_napot accepts exactly the powers of two from 8 to 2^31 at multiples of themselves,
      and says which of the two is missing. */
  lemma CalcAcceptsIff(base: bv32, len: bv32)
    ensures CalcNapot(base, len).0 == Ok <==> Natural(base, len)
    ensures CalcNapot(base, len).0 == InvalidLen <==> !IsPower(len)
    ensures CalcNapot(base, len).0 in {Ok, InvalidLen, InvalidAlign}
  {
    CalcByBits(base, len);
    OneBitIffPower(len);
    hide CalcNapot, OneBit, IsPower;
  }

  /** Which regions fit their mode; in automatic mode, one of them. */
  ghost predicate Acceptable(c: Csrs, r: Region) {
    var adjoins := r.start == Bottom(c, r.idx);
    match r.mode
    case Off => true
    case Na4 => WordAligned(r.start)
    case Napot => Natural(r.start, r.length)
    case Tor => WordAligned(r.start) && adjoins
    case Auto => r.length == 0 || Natural(r.start, r.length) || (WordAligned(r.start) && (r.length == 4 || adjoins))
    case Unknown => false
  }

  /** What a refused region is told. */
  ghost function Complaint(r: Region): Status {
    match r.mode
    case Napot => if IsPower(r.length) then InvalidAlign else InvalidLen
    case Tor => if WordAligned(r.start) then InvalidAddr else InvalidAlign
    case Unknown => InvalidRegion
    case _ => InvalidAlign
  }

  lemma PowerIsWellAligned(base: bv32, len: bv32)
    ensures WellAligned(base, len) <==> Natural(base, len)
  {
    CalcAcceptsIff(base, len);
    hide IsPower, Natural;
  }

  lemma AutoAcceptsIff(c: Csrs, r: Region)
    requires r.mode == Auto
    ensures Code(c, r).Coded? <==> Acceptable(c, r)
    ensures Code(c, r).Refused? ==> Code(c, r).status == InvalidAlign
  {
    CalcAcceptsIff(r.start, r.length);
    PowerIsWellAligned(r.start, r.length);
    hide CalcNapot, IsPower, Natural, EndOf, WordOf, WellAligned, WordAligned, Bottom;
  }

  lemma CodeAcceptsIff(c: Csrs, r: Region)
    ensures Code(c, r).Coded? <==> Acceptable(c, r)
    ensures Code(c, r).Refused? ==> Code(c, r).status == Complaint(r)
  {
    if r.mode == Auto {
      AutoAcceptsIff(c, r);
      hide Code, Acceptable;
    } else {
      CalcAcceptsIff(r.start, r.length);
      hide CalcNapot, IsPower, Natural, EndOf, WordOf, WellAligned, WordAligned, Bottom;
    }
  }

  /** pmp_set_region writes exactly if the entry exists, is not locked and the region fits; and
      otherwise says why. */
  lemma SetAcceptsIff(c: Csrs, r: Region)
    ensures SetRegion(c, r).Written? <==> r.idx < 4 && Entry(c.cfg, r.idx) & 0x80 == 0 && Acceptable(c, r)
    ensures SetRegion(c, r).Rejected? ==>
              SetRegion(c, r).status ==
              if r.idx >= 4 then InvalidRegion
              else if Entry(c.cfg, r.idx) & 0x80 != 0 then Locked
              else Complaint(r)
  {
    CodeAcceptsIff(c, r);
    hide Entry, Cleared, Placed, EntryByte, WithAddr, Code, Acceptable, Complaint;
  }

  // ---- What an accepted region covers ------------------------------------

  lemma EntryIsCoded(c: Csrs, r: Region)
    requires SetRegion(c, r).Written?
    ensures var on := SetRegion(c, r).on;
            && Code(c, r).Coded? && IsField(Code(c, r).field)
            && Entry(on.cfg, r.idx) & A_MASK == Code(c, r).field && Addr(on, r.idx) == Code(c, r).addr
            && (r.idx > 0 ==> Addr(on, r.idx - 1) == Addr(c, r.idx - 1))
  {
    SetGoesThroughOff(c, r, if r.idx > 0 then r.idx - 1 else 0);
    CodeFields(c, r);
    ByteFields(Code(c, r).field, r);
    hide SetRegion, Code, Entry, EntryByte, Addr, IsField;
  }

  /** Every region accepted in NAPOT mode, asked for or found, applies to exactly its bytes. */
  lemma NapotRegionIsExact(c: Csrs, r: Region, a: bv32)
    requires SetRegion(c, r).Written? && Resolve(c, r) == Napot
    ensures EntryMatches(SetRegion(c, r).on, r.idx, a) <==> Inside(a, r.start, r.length)
  {
    hide SetRegion, Resolve, Entry, Addr, NapotMatches, CalcNapot, Inside, TorMatches, WordMatches;
    EntryIsCoded(c, r);
    NapotMatchesExactly(r.start, r.length, a);
  }

  /** In NA4 mode it applies to the four bytes at its start, whatever its length: */
  lemma Na4RegionCoversFour(c: Csrs, r: Region, a: bv32)
    requires SetRegion(c, r).Written? && Resolve(c, r) == Na4
    ensures EntryMatches(SetRegion(c, r).on, r.idx, a) <==> Inside(a, r.start, 4)
  {
    hide SetRegion, Resolve, Code, Entry, Addr, NapotMatches, Inside, TorMatches, WordMatches, WordAligned, WordOf;
    EntryIsCoded(c, r);
    Na4Code(c, r);
    if WordMatches(WordOf(r.start), a) {
      WordInside(r.start, a);
    }
    if Inside(a, r.start, 4) {
      InsideWord(r.start, a);
    }
  }

  lemma Na4Code(c: Csrs, r: Region)
    requires Code(c, r).Coded? && Resolve(c, r) == Na4
    ensures Code(c, r) == Coded(WordOf(r.start), A_NA4) && WordAligned(r.start)
  {
    hide WordAligned, CalcNapot, Bottom, Resolve, WordOf;
  }

  lemma WordInside(start: bv32, a: bv32)
    requires WordAligned(start) && WordMatches(WordOf(start), a)
    ensures Inside(a, start, 4)
  {
  }

  lemma InsideWord(start: bv32, a: bv32)
    requires WordAligned(start) && Inside(a, start, 4)
    ensures WordMatches(WordOf(start), a)
  {
  }

  /** so it is exact if and only if the length is four (or runs past the last word of the
      address space). */
  lemma Na4RegionIsExactIff(c: Csrs, r: Region)
    requires SetRegion(c, r).Written? && Resolve(c, r) == Na4
    ensures (forall a :: EntryMatches(SetRegion(c, r).on, r.idx, a) <==> Inside(a, r.start, r.length))
            <==> r.length == 4 || (r.length > 4 && r.start == 0xFFFF_FFFC)
    ensures r.mode == Auto ==> r.length == 4
  {
    hide SetRegion, Resolve, EntryMatches, Inside, Code, WordAligned, WordOf;
    EntryIsCoded(c, r);
    forall a ensures EntryMatches(SetRegion(c, r).on, r.idx, a) <==> Inside(a, r.start, 4) {
      Na4RegionCoversFour(c, r, a);
    }
    AutoNa4(c, r);
    Na4Code(c, r);
    FourBytesIff(r.start, r.length);
  }

  lemma AutoNa4(c: Csrs, r: Region)
    requires Resolve(c, r) == Na4
    ensures r.mode == Auto ==> r.length == 4
  {
  }

  lemma FourBytesIff(start: bv32, length: bv32)
    requires WordAligned(start)
    ensures (forall a :: Inside(a, start, 4) <==> Inside(a, start, length))
            <==> length == 4 || (length > 4 && start == 0xFFFF_FFFC)
  {
    hide Inside, WordAligned;
    if length < 4 {
      ShorterDiffers(start, length);
    } else if length > 4 && start != 0xFFFF_FFFC {
      LongerDiffers(start, length);
    } else if length > 4 {
      forall a ensures Inside(a, start, 4) <==> Inside(a, start, length) {
        LastWord(a, start, length);
      }
    }
  }

  lemma ShorterDiffers(start: bv32, length: bv32)
    requires WordAligned(start) && length < 4
    ensures Inside(start + length, start, 4) && !Inside(start + length, start, length)
  {
  }

  lemma LongerDiffers(start: bv32, length: bv32)
    requires WordAligned(start) && length > 4 && start != 0xFFFF_FFFC
    ensures Inside(start + 4, start, length) && !Inside(start + 4, start, 4)
  {
  }

  lemma LastWord(a: bv32, start: bv32, length: bv32)
    requires length > 4 && start == 0xFFFF_FFFC
    ensures Inside(a, start, 4) <==> Inside(a, start, length)
  {
  }

  /** In automatic mode every region that is empty, naturally aligned or an aligned word is
      accepted where the entry is free, and applies to exactly its bytes. */
  lemma AutoRegionIsExact(c: Csrs, r: Region, a: bv32)
    requires r.mode == Auto && r.idx < 4 && !IsLocked(c, r.idx)
    requires r.length == 0 || Natural(r.start, r.length) || (WordAligned(r.start) && r.length == 4)
    ensures SetRegion(c, r).Written?
    ensures EntryMatches(SetRegion(c, r).on, r.idx, a) <==> Inside(a, r.start, r.length)
  {
    hide SetRegion, Code, Entry, Addr, NapotMatches, Inside, TorMatches, WordMatches, Natural, CalcNapot;
    hide WellAligned, WordAligned, Bottom, WordOf;
    AutoIsWritten(c, r);
    PowerIsWellAligned(r.start, r.length);
    if r.length == 0 {
      EntryIsCoded(c, r);
      OffCode(c, r);
      NothingInside(a, r.start);
    } else if r.length == 4 && WordAligned(r.start) {
      Na4RegionCoversFour(c, r, a);
    } else {
      NapotRegionIsExact(c, r, a);
    }
  }

  lemma AutoIsWritten(c: Csrs, r: Region)
    requires r.mode == Auto && r.idx < 4 && !IsLocked(c, r.idx) && Acceptable(c, r)
    ensures SetRegion(c, r).Written?
  {
    SetAcceptsIff(c, r);
    hide SetRegion, Acceptable, Entry;
  }

  lemma OffCode(c: Csrs, r: Region)
    requires Resolve(c, r) == Off
    ensures Code(c, r) == Coded(0, A_OFF)
  {
    hide Resolve;
  }

  lemma NothingInside(a: bv32, start: bv32)
    ensures !Inside(a, start, 0)
  {
  }

  // Top of range: the entry below gives the bottom.

  /** The address register below entry i, as the hardware compares it. */
  function BottomWord(c: Csrs, i: nat): bv32 {
    if i == 0 then 0 else Addr(c, i - 1)
  }

  predicate FitsAddressSpace(p: bv32) {
    p < 0x4000_0000
  }

  predicate Between(a: bv32, start: bv32, end: bv32) {
    NotAbove(start, a) && After(end, a)
  }

  function ToAddress(word: bv32): bv32 {
    word << 2
  }

  lemma TorCode(c: Csrs, r: Region)
    requires Code(c, r).Coded? && Resolve(c, r) == Tor
    ensures Code(c, r) == Coded(WordOf(EndOf(r)), A_TOR) && r.start == Bottom(c, r.idx)
  {
    hide WordAligned, CalcNapot, Bottom, Resolve, WordOf, EndOf;
  }

  lemma BottomIsShifted(c: Csrs, r: Region)
    ensures Bottom(c, r.idx) == ToAddress(BottomWord(c, r.idx))
  {
  }

  lemma TorRegionMatches(c: Csrs, r: Region, a: bv32)
    requires SetRegion(c, r).Written? && Resolve(c, r) == Tor
    ensures EntryMatches(SetRegion(c, r).on, r.idx, a) <==> TorMatches(BottomWord(c, r.idx), WordOf(EndOf(r)), a)
    ensures r.start == ToAddress(BottomWord(c, r.idx))
  {
    hide SetRegion, Resolve, Code, Entry, Addr, NapotMatches, TorMatches, WordMatches, WordOf, EndOf;
    hide Bottom, ToAddress;
    EntryIsCoded(c, r);
    TorCode(c, r);
    BottomIsShifted(c, r);
  }

  /** In TOR mode an accepted region that does not wrap around is exact if and only if the
      register below holds a 32-bit address and the end is a word boundary. */
  lemma TorRegionIsExactIff(c: Csrs, r: Region)
    requires SetRegion(c, r).Written? && Resolve(c, r) == Tor && After(EndOf(r), r.start)
    ensures (forall a :: EntryMatches(SetRegion(c, r).on, r.idx, a) <==> Between(a, r.start, EndOf(r)))
            <==> FitsAddressSpace(BottomWord(c, r.idx)) && WordAligned(EndOf(r))
  {
    hide *;
    var bottom := BottomWord(c, r.idx);
    forall a ensures EntryMatches(SetRegion(c, r).on, r.idx, a) <==> TorMatches(bottom, WordOf(EndOf(r)), a) {
      TorRegionMatches(c, r, a);
    }
    TorRegionMatches(c, r, r.start);
    if !FitsAddressSpace(bottom) {
      TorTooHigh(bottom, r.start, EndOf(r));
    } else if !WordAligned(EndOf(r)) {
      var a := TorEndInWord(bottom, r.start, EndOf(r));
    } else {
      forall a ensures TorMatches(bottom, WordOf(EndOf(r)), a) <==> Between(a, r.start, EndOf(r)) {
        if TorMatches(bottom, WordOf(EndOf(r)), a) {
          TorOnlyBetween(bottom, r.start, EndOf(r), a);
        }
        if Between(a, r.start, EndOf(r)) {
          TorAllBetween(bottom, r.start, EndOf(r), a);
        }
      }
    }
  }

  lemma TorTooHigh(bottom: bv32, start: bv32, end: bv32)
    requires !FitsAddressSpace(bottom) && After(end, start)
    ensures !TorMatches(bottom, WordOf(end), start) && Between(start, start, end)
  {
  }

  // Order and words of addresses, one fact each.

  function WordStart(a: bv32): bv32 {
    a & 0xFFFF_FFFC
  }

  lemma WordsGrow(a: bv32, b: bv32)
    requires NotAbove(a, b)
    ensures NotAbove(WordOf(a), WordOf(b))
  {
  }

  lemma WordStartsGrow(a: bv32, b: bv32)
    requires NotAbove(a, b)
    ensures NotAbove(WordStart(a), WordStart(b))
  {
  }

  lemma BelowAlignedEnd(a: bv32, end: bv32)
    requires After(end, a) && WordAligned(end)
    ensures After(WordOf(end), WordOf(a))
  {
  }

  lemma AddressNotAbove(word: bv32, a: bv32)
    requires FitsAddressSpace(word) && NotAbove(word, WordOf(a))
    ensures NotAbove(ToAddress(word), a)
  {
  }

  lemma WordsDecide(a: bv32, b: bv32)
    requires After(WordOf(a), WordOf(b))
    ensures After(a, b)
  {
  }

  lemma WordInRange(word: bv32)
    requires FitsAddressSpace(word)
    ensures WordOf(ToAddress(word)) == word
  {
  }

  lemma WordShrinks(word: bv32)
    ensures NotAbove(WordOf(ToAddress(word)), word)
  {
  }

  lemma SameWord(a: bv32)
    ensures WordOf(WordStart(a)) == WordOf(a)
  {
  }

  lemma StartOfUnaligned(a: bv32)
    requires !WordAligned(a)
    ensures After(a, WordStart(a))
  {
  }

  lemma AddressIsWordStart(word: bv32)
    ensures WordStart(ToAddress(word)) == ToAddress(word)
  {
  }

  lemma TorIsOrder(bottom: bv32, end: bv32, a: bv32)
    ensures TorMatches(bottom, WordOf(end), a) <==> NotAbove(bottom, WordOf(a)) && After(WordOf(end), WordOf(a))
  {
    hide NotAbove, After;
  }

  lemma BetweenIsOrder(a: bv32, start: bv32, end: bv32)
    ensures Between(a, start, end) <==> NotAbove(start, a) && After(end, a)
  {
    hide NotAbove, After;
  }

  lemma TorEndInWord(bottom: bv32, start: bv32, end: bv32) returns (a: bv32)
    requires start == ToAddress(bottom) && After(end, start) && !WordAligned(end)
    ensures !TorMatches(bottom, WordOf(end), a) && Between(a, start, end)
  {
    a := WordStart(end);
    hide *;
    TorIsOrder(bottom, end, a);
    SameWord(end);
    NotAboveSelf(WordOf(end));
    AfterIsStrict(WordOf(end), WordOf(a));
    BetweenIsOrder(a, start, end);
    StartOfUnaligned(end);
    AfterIsAbove(end, start);
    WordStartsGrow(start, end);
    AddressIsWordStart(bottom);
  }

  lemma TorOnlyBetween(bottom: bv32, start: bv32, end: bv32, a: bv32)
    requires start == ToAddress(bottom) && FitsAddressSpace(bottom) && WordAligned(end)
    requires TorMatches(bottom, WordOf(end), a)
    ensures Between(a, start, end)
  {
    hide *;
    TorIsOrder(bottom, end, a);
    BetweenIsOrder(a, start, end);
    AddressNotAbove(bottom, a);
    WordsDecide(end, a);
  }

  lemma TorAllBetween(bottom: bv32, start: bv32, end: bv32, a: bv32)
    requires start == ToAddress(bottom) && FitsAddressSpace(bottom) && WordAligned(end)
    requires Between(a, start, end)
    ensures TorMatches(bottom, WordOf(end), a)
  {
    hide *;
    BetweenIsOrder(a, start, end);
    TorIsOrder(bottom, end, a);
    WordsGrow(start, a);
    WordInRange(bottom);
    BelowAlignedEnd(a, end);
  }

  /** One whose end wraps around, or falls on the very end of the address space, is accepted
      and covers nothing. */
  lemma WrappingTorRegionIsEmpty(c: Csrs, r: Region, a: bv32)
    requires SetRegion(c, r).Written? && Resolve(c, r) == Tor && !After(EndOf(r), r.start)
    ensures !EntryMatches(SetRegion(c, r).on, r.idx, a)
  {
    hide *;
    TorRegionMatches(c, r, a);
    TorWrapped(BottomWord(c, r.idx), r.start, EndOf(r), a);
  }

  lemma TorWrapped(bottom: bv32, start: bv32, end: bv32, a: bv32)
    requires start == ToAddress(bottom) && !After(end, start)
    ensures !TorMatches(bottom, WordOf(end), a)
  {
    hide *;
    TorIsOrder(bottom, end, a);
    AfterIsStrict(end, start);
    WordsGrow(end, start);
    WordShrinks(bottom);
    NotAboveChains(WordOf(end), WordOf(start), bottom);
    if NotAbove(bottom, WordOf(a)) {
      NotAboveChains(WordOf(end), bottom, WordOf(a));
      AfterIsStrict(WordOf(end), WordOf(a));
    }
  }

  // ---- Reading a region back ---------------------------------------------

  function Minus(x: bv32, y: bv32): bv32 {
    x - y
  }

  /** The bytes from bottom to top, none if top is below. */
  function Span(bottom: bv32, top: bv32): bv32 {
    if top >= bottom then Minus(top, bottom) else 0
  }

  /** pmp_get_region on entry i. */
  function GetRegion(c: Csrs, i: nat): Region {
    var b := Entry(c.cfg, i);
    var field := b & A_MASK;
    var (start, length, mode) :=
      if field == A_OFF then (0, 0, Off)
      else if field == A_TOR then
        var top := ToAddress(Addr(c, i));
        var bottom := Bottom(c, i);
        (bottom, Span(bottom, top), Tor)
      else if field == A_NA4 then (ToAddress(Addr(c, i)), 4, Na4)
      else
        var (base, len) := DecodeNapot(Addr(c, i));
        (base, len, Napot);
    Region(i, start, length, b & R_BIT != 0, b & W_BIT != 0, b & X_BIT != 0, b & L_BIT != 0, mode)
  }

  lemma FlagsComeBack(c: Csrs, r: Region)
    requires SetRegion(c, r).Written?
    ensures var b := Entry(SetRegion(c, r).on.cfg, r.idx);
            && (b & L_BIT != 0 <==> r.lock) && (b & R_BIT != 0 <==> r.read)
            && (b & W_BIT != 0 <==> r.write) && (b & X_BIT != 0 <==> r.execute)
  {
    hide SetRegion, Code, Entry, EntryByte, IsField;
    SetGoesThroughOff(c, r, 0);
    CodeFields(c, r);
    ByteFields(Code(c, r).field, r);
  }

  /** A NAPOT region reads back as it was set. */
  lemma NapotReadsBack(c: Csrs, r: Region)
    requires SetRegion(c, r).Written? && Resolve(c, r) == Napot
    ensures GetRegion(SetRegion(c, r).on, r.idx) == r.(mode := Napot)
  {
    hide SetRegion, Resolve, Entry, Addr, Bottom, CalcNapot, DecodeNapot, ToAddress;
    FlagsComeBack(c, r);
    EntryIsCoded(c, r);
    DecodeInvertsCalc(r.start, r.length);
  }

  /** An NA4 region reads back with length four. */
  lemma Na4ReadsBack(c: Csrs, r: Region)
    requires SetRegion(c, r).Written? && Resolve(c, r) == Na4
    ensures GetRegion(SetRegion(c, r).on, r.idx) == r.(mode := Na4, length := 4)
  {
    hide SetRegion, Code, Resolve, Entry, Addr, Bottom, DecodeNapot, ToAddress, WordOf, WordAligned;
    FlagsComeBack(c, r);
    EntryIsCoded(c, r);
    Na4Code(c, r);
    WordComesBack(r.start);
  }

  /** A TOR region that ends on a word boundary above its start reads back with that start and
      end. */
  lemma TorReadsBack(c: Csrs, r: Region)
    requires SetRegion(c, r).Written? && Resolve(c, r) == Tor
    requires After(EndOf(r), r.start) && WordAligned(EndOf(r))
    ensures GetRegion(SetRegion(c, r).on, r.idx) == r.(mode := Tor, length := Minus(EndOf(r), r.start))
  {
    hide SetRegion, Code, Resolve, Entry, Addr, DecodeNapot, ToAddress, WordOf, WordAligned, EndOf, Bottom, After;
    hide Minus;
    FlagsComeBack(c, r);
    EntryIsCoded(c, r);
    TorCode(c, r);
    WordComesBack(EndOf(r));
    BottomStays(c, r);
    AfterIsNotBelow(EndOf(r), r.start);
  }

  lemma BottomStays(c: Csrs, r: Region)
    requires SetRegion(c, r).Written?
    ensures Bottom(SetRegion(c, r).on, r.idx) == Bottom(c, r.idx)
  {
    hide SetRegion, Code, Entry, Addr;
    EntryIsCoded(c, r);
  }

  lemma AfterIsNotBelow(a: bv32, b: bv32)
    requires After(a, b)
    ensures a >= b
  {
  }

  lemma WordComesBack(a: bv32)
    requires WordAligned(a)
    ensures ToAddress(WordOf(a)) == a
  {
  }

  // ---- Disabling and initialising ----------------------------------------

  /** pmp_disable_region: off first, then the address. */
  function Disable(c: Csrs, i: nat): Outcome {
    if i >= 4 then Rejected(InvalidRegion)
    else if IsLocked(c, i) then Rejected(Locked)
    else
      var off := c.(cfg := Cleared(c.cfg, i));
      Written(off, WithAddr(off, i, 0), WithAddr(off, i, 0))
  }

  lemma DisableAcceptsIff(c: Csrs, i: nat)
    ensures Disable(c, i).Written? <==> i < 4 && Entry(c.cfg, i) & 0x80 == 0
    ensures Disable(c, i).Rejected? ==> Disable(c, i).status == if i >= 4 then InvalidRegion else Locked
  {
    hide Entry, Cleared, WithAddr;
  }

  /** pmp_init after k turns of its loop: the address registers of the unlocked entries are
      zero; pmpcfg0 itself is written only at the end. */
  function InitAddrs(c: Csrs, k: nat): Csrs {
    if k == 0 then c
    else
      var d := InitAddrs(c, k - 1);
      if IsLocked(c, k - 1) then d else WithAddr(d, k - 1, 0)
  }

  function InitCfg(c: Csrs, k: nat): bv32 {
    if k == 0 then c.cfg
    else if IsLocked(c, k - 1) then InitCfg(c, k - 1)
    else Cleared(InitCfg(c, k - 1), k - 1)
  }

  function Init(c: Csrs): Csrs {
    InitAddrs(c, 4).(cfg := InitCfg(c, 4))
  }

  lemma {:induction false} InitAddrsAt(c: Csrs, k: nat, j: nat)
    requires k <= 4 && j < 4
    ensures InitAddrs(c, k).cfg == c.cfg
    ensures Addr(InitAddrs(c, k), j) == if j < k && !IsLocked(c, j) then 0 else Addr(c, j)
  {
    hide Addr, WithAddr, IsLocked;
    if k > 0 {
      InitAddrsAt(c, k - 1, j);
      AddrAfter(InitAddrs(c, k - 1), k - 1, j, 0);
    }
  }

  lemma {:induction false} InitCfgAt(c: Csrs, k: nat, j: nat)
    requires k <= 4 && j < 4
    ensures Entry(InitCfg(c, k), j) == if j < k && !IsLocked(c, j) then 0 else Entry(c.cfg, j)
  {
    hide Entry, Cleared, IsLocked;
    if k > 0 {
      InitCfgAt(c, k - 1, j);
      ClearedEntry(InitCfg(c, k - 1), k - 1, j);
    }
  }

  predicate SameEntry(c: Csrs, s: Csrs, i: nat) {
    Entry(s.cfg, i) == Entry(c.cfg, i) && Addr(s, i) == Addr(c, i)
  }

  predicate On(c: Csrs, i: nat) {
    Entry(c.cfg, i) & A_MASK != A_OFF
  }

  /** Some state of the loop has the entry still on and its address moved. */
  ghost predicate MovedWhileOn(c: Csrs, i: nat) {
    exists k: nat :: k <= 4 && On(InitAddrs(c, k), i) && Addr(InitAddrs(c, k), i) != Addr(c, i)
  }

  /** pmp_init writes the addresses before the one write that turns the entries off: it moves
      no entry that is on exactly if every such entry is locked or already at address 0. */
  lemma InitMovesBeforeOffIff(c: Csrs, i: nat)
    requires i < 4
    ensures MovedWhileOn(c, i) <==> !IsLocked(c, i) && On(c, i) && Addr(c, i) != 0
  {
    forall k: nat | k <= 4
      ensures On(InitAddrs(c, k), i) == On(c, i)
      ensures Addr(InitAddrs(c, k), i) == if i < k && !IsLocked(c, i) then 0 else Addr(c, i)
    {
      InitAddrsAt(c, k, i);
    }
    hide On, Addr, IsLocked, InitAddrs;
    assert MovedWhileOn(c, i) <== On(InitAddrs(c, 4), i) && Addr(InitAddrs(c, 4), i) != Addr(c, i);
  }

  /** After it every unlocked entry is off and at address 0, and the locked ones are as before. */
  lemma InitClears(c: Csrs, i: nat)
    requires i < 4
    ensures if IsLocked(c, i) then SameEntry(c, Init(c), i) else Entry(Init(c).cfg, i) == 0 && Addr(Init(c), i) == 0
  {
    hide Entry, Addr, IsLocked, InitAddrs, InitCfg;
    InitAddrsAt(c, 4, i);
    InitCfgAt(c, 4, i);
    AddrIgnoresCfg(InitAddrs(c, 4), i, InitCfg(c, 4));
  }

  /** A NAPOT entry of eight bytes at 0x4000: halfway through pmp_init it applies to the eight
      bytes at 0, which it did not before and will not afterwards. */
  lemma InitExposesAddressZero()
    ensures var c := Csrs(0x1F, 0x1000, 0, 0, 0);
            && MovedWhileOn(c, 0)
            && !EntryMatches(c, 0, 0) && EntryMatches(InitAddrs(c, 1), 0, 0) && !EntryMatches(Init(c), 0, 0)
  {
    var c := Csrs(0x1F, 0x1000, 0, 0, 0);
    assert !IsLocked(c, 0) && On(c, 0) && Entry(c.cfg, 0) == 0x1F;
    assert !NapotMatches(0x1000, 0) && NapotMatches(0, 0);
    InitMovesBeforeOffIff(c, 0);
    InitAddrsAt(c, 1, 0);
    InitClears(c, 0);
    hide InitAddrs, Init, NapotMatches, MovedWhileOn, Entry;
  }

  // ---- Locked entries over runs ------------------------------------------

  datatype Op = InitAll | Set(r: Region) | SwitchOff(i: nat)

  /** The states the registers pass through during a call, the last one included. */
  ghost predicate Visits(c: Csrs, op: Op, s: Csrs) {
    match op
    case InitAll => s == Init(c) || exists k: nat :: k <= 4 && s == InitAddrs(c, k)
    case Set(r) =>
      var o := SetRegion(c, r);
      o.Written? && (s == o.off || s == o.moved || s == o.on)
    case SwitchOff(i) =>
      var o := Disable(c, i);
      o.Written? && (s == o.off || s == o.on)
  }

  function Final(c: Csrs, op: Op): Csrs {
    match op
    case InitAll => Init(c)
    case Set(r) => var o := SetRegion(c, r); if o.Written? then o.on else c
    case SwitchOff(i) => var o := Disable(c, i); if o.Written? then o.on else c
  }

  ghost predicate VisitsInRun(c: Csrs, ops: seq<Op>, s: Csrs)
    decreases |ops|
  {
    ops != [] && (Visits(c, ops[0], s) || VisitsInRun(Final(c, ops[0]), ops[1..], s))
  }

  lemma LockedThroughSet(c: Csrs, r: Region, i: nat)
    requires i < 4 && IsLocked(c, i) && SetRegion(c, r).Written?
    ensures var o := SetRegion(c, r); SameEntry(c, o.off, i) && SameEntry(c, o.moved, i) && SameEntry(c, o.on, i)
  {
    SetAvoidsLocked(c, r);
    hide SetRegion, Code, Entry, Addr, IsLocked;
    SetGoesThroughOff(c, r, i);
  }

  lemma SetAvoidsLocked(c: Csrs, r: Region)
    requires SetRegion(c, r).Written?
    ensures r.idx < 4 && !IsLocked(c, r.idx)
  {
    hide Code, IsLocked, Cleared, Placed, EntryByte, WithAddr;
  }

  lemma LockedThroughDisable(c: Csrs, k: nat, i: nat)
    requires i < 4 && IsLocked(c, i) && Disable(c, k).Written?
    ensures SameEntry(c, Disable(c, k).off, i) && SameEntry(c, Disable(c, k).on, i)
  {
    hide Entry, Addr, IsLocked, Cleared, WithAddr;
    ClearedEntry(c.cfg, k, i);
    AddrIgnoresCfg(c, i, Cleared(c.cfg, k));
    AddrAfter(c.(cfg := Cleared(c.cfg, k)), k, i, 0);
  }

  lemma LockedThroughInit(c: Csrs, k: nat, i: nat)
    requires i < 4 && IsLocked(c, i) && k <= 4
    ensures SameEntry(c, InitAddrs(c, k), i) && SameEntry(c, Init(c), i)
  {
    InitClears(c, i);
    hide Entry, Addr, IsLocked, InitAddrs, Init;
    InitAddrsAt(c, k, i);
  }

  lemma LockedThroughCall(c: Csrs, op: Op, s: Csrs, i: nat)
    requires i < 4 && IsLocked(c, i) && (Visits(c, op, s) || s == Final(c, op))
    ensures SameEntry(c, s, i) && IsLocked(s, i)
  {
    hide SetRegion, Disable, Init, InitAddrs, SameEntry, IsLocked;
    match op {
      case InitAll =>
        LockedThroughInit(c, 4, i);
        if s != Init(c) {
          var k: nat :| k <= 4 && s == InitAddrs(c, k);
          LockedThroughInit(c, k, i);
        }
      case Set(r) =>
        if SetRegion(c, r).Written? {
          LockedThroughSet(c, r, i);
        } else {
          SameAsItself(c, i);
        }
      case SwitchOff(k) =>
        if Disable(c, k).Written? {
          LockedThroughDisable(c, k, i);
        } else {
          SameAsItself(c, i);
        }
    }
    LockIsInEntry(c, s, i);
  }

  lemma SameAsItself(c: Csrs, i: nat)
    ensures SameEntry(c, c, i)
  {
  }

  lemma LockIsInEntry(c: Csrs, s: Csrs, i: nat)
    requires IsLocked(c, i) && SameEntry(c, s, i)
    ensures IsLocked(s, i)
  {
    hide Entry, Addr;
  }

  lemma SameEntryChains(c: Csrs, d: Csrs, s: Csrs, i: nat)
    requires SameEntry(c, d, i) && SameEntry(d, s, i)
    ensures SameEntry(c, s, i)
  {
    hide Entry, Addr;
  }

  /** A locked entry keeps its configuration byte and its own address register in every state
      any run of initialising, setting and disabling passes through. */
  lemma {:induction false} EveryRunKeepsLocked(c: Csrs, ops: seq<Op>, s: Csrs, i: nat)
    requires i < 4 && IsLocked(c, i) && VisitsInRun(c, ops, s)
    ensures SameEntry(c, s, i)
    decreases |ops|
  {
    hide Visits, Final, SameEntry, IsLocked;
    if Visits(c, ops[0], s) {
      LockedThroughCall(c, ops[0], s, i);
    } else {
      var d := Final(c, ops[0]);
      LockedThroughCall(c, ops[0], d, i);
      EveryRunKeepsLocked(d, ops[1..], s, i);
      SameEntryChains(c, d, s, i);
    }
  }

  // ---- What a driver call does to the entries ----------------------------

  /** The entry's address moved only while it was off, and no other entry changed at any time. */
  predicate MovesWhileOff(c: Csrs, off: Csrs, moved: Csrs, on: Csrs, i: nat) {
    && Entry(off.cfg, i) == 0 && Entry(moved.cfg, i) == 0
    && Addr(off, i) == Addr(c, i) && Addr(moved, i) == Addr(on, i)
    && OthersSame(c, off, i) && OthersSame(c, moved, i) && OthersSame(c, on, i)
  }

  predicate OthersSame(c: Csrs, s: Csrs, i: nat) {
    forall j: nat :: j < 4 && j != i ==> SameEntry(c, s, j)
  }

  lemma SetMovesWhileOff(c: Csrs, r: Region)
    requires SetRegion(c, r).Written?
    ensures var o := SetRegion(c, r); MovesWhileOff(c, o.off, o.moved, o.on, r.idx)
    ensures r.idx < 4 && !IsLocked(c, r.idx)
  {
    SetAvoidsLocked(c, r);
    SetGoesThroughOff(c, r, r.idx);
    hide SetRegion, Code, Entry, Addr, IsLocked, EntryByte;
    var o := SetRegion(c, r);
    forall j: nat | j < 4 && j != r.idx
      ensures SameEntry(c, o.off, j) && SameEntry(c, o.moved, j) && SameEntry(c, o.on, j)
    {
      SetGoesThroughOff(c, r, j);
    }
  }

  lemma DisableMovesWhileOff(c: Csrs, i: nat)
    requires Disable(c, i).Written?
    ensures var o := Disable(c, i); MovesWhileOff(c, o.off, o.on, o.on, i) && Addr(o.on, i) == 0
    ensures i < 4 && !IsLocked(c, i)
  {
    hide Entry, Addr, IsLocked, Cleared, WithAddr;
    var o := Disable(c, i);
    ClearedEntry(c.cfg, i, i);
    AddrIgnoresCfg(c, i, Cleared(c.cfg, i));
    AddrAfter(o.off, i, i, 0);
    forall j: nat | j < 4 && j != i ensures SameEntry(c, o.off, j) && SameEntry(c, o.on, j) {
      ClearedEntry(c.cfg, i, j);
      AddrIgnoresCfg(c, j, Cleared(c.cfg, i));
      AddrAfter(o.off, i, j, 0);
    }
  }

  /** What an encoding promises: a NAPOT or NA4 one matches exactly the bytes meant, a TOR one
      starts where the entry below ends, and nothing else but off is encoded. */
  ghost predicate EncodesExactly(c: Csrs, r: Region, coded: Coded) {
    coded.Coded? ==>
      && (coded.field == A_OFF || coded.field == A_TOR || coded.field == A_NA4 || coded.field == A_NAPOT)
      && (coded.field == A_NAPOT ==> forall a :: NapotMatches(coded.addr, a) <==> Inside(a, r.start, r.length))
      && (coded.field == A_NA4 ==> forall a :: WordMatches(coded.addr, a) <==> Inside(a, r.start, 4))
      && (coded.field == A_TOR ==> WordAligned(r.start) && r.start == Bottom(c, r.idx))
  }

  lemma CodeEncodesExactly(c: Csrs, r: Region)
    ensures EncodesExactly(c, r, Code(c, r))
  {
    hide NapotMatches, WordMatches, Inside, Bottom, WordAligned, WordOf, CalcNapot, WellAligned, EndOf;
    match Resolve(c, r) {
      case Napot =>
        if CalcNapot(r.start, r.length).0 == Ok {
          forall a ensures NapotMatches(CalcNapot(r.start, r.length).1, a) <==> Inside(a, r.start, r.length) {
            NapotMatchesExactly(r.start, r.length, a);
          }
        }
      case Na4 =>
        if WordAligned(r.start) {
          forall a ensures WordMatches(WordOf(r.start), a) <==> Inside(a, r.start, 4) {
            if WordMatches(WordOf(r.start), a) { WordInside(r.start, a); }
            if Inside(a, r.start, 4) { InsideWord(r.start, a); }
          }
        }
      case _ =>
    }
    hide Resolve;
  }

  // ---- What the other entries apply to -----------------------------------

  /** A top-of-range entry with this bottom and top applies to nothing. */
  predicate EmptyRange(bottom: bv32, top: bv32) {
    NotAbove(top, bottom) || !FitsAddressSpace(bottom)
  }

  predicate SameRange(bottom1: bv32, bottom2: bv32, top: bv32) {
    bottom1 == bottom2 || (EmptyRange(bottom1, top) && EmptyRange(bottom2, top))
  }

  lemma FitsIsOrder(p: bv32)
    ensures FitsAddressSpace(p) <==> !NotAbove(0x4000_0000, p)
  {
  }

  lemma WordsFit(a: bv32)
    ensures !NotAbove(0x4000_0000, WordOf(a))
  {
  }

  lemma EmptyRangeMatchesNone(bottom: bv32, top: bv32, a: bv32)
    requires EmptyRange(bottom, top)
    ensures !TorMatches(bottom, top, a)
  {
    hide NotAbove, After, FitsAddressSpace, TorMatches, WordOf;
    TorByWord(bottom, top, a);
    if NotAbove(bottom, WordOf(a)) {
      FitsIsOrder(bottom);
      WordsFit(a);
      if NotAbove(top, bottom) {
        NotAboveChains(top, bottom, WordOf(a));
        AfterIsStrict(top, WordOf(a));
      } else {
        NotAboveChains(0x4000_0000, bottom, WordOf(a));
      }
    }
  }

  lemma EmptyAbove(low: bv32, high: bv32, top: bv32)
    requires EmptyRange(low, top) && NotAbove(low, high)
    ensures EmptyRange(high, top)
  {
    hide NotAbove, FitsAddressSpace;
    FitsIsOrder(low);
    FitsIsOrder(high);
    if NotAbove(top, low) {
      NotAboveChains(top, low, high);
    } else {
      NotAboveChains(0x4000_0000, low, high);
    }
  }

  /** The lower bottom's own word tells two ranges apart. */
  lemma LowerBottomTells(low: bv32, high: bv32, top: bv32)
    requires low != high && NotAbove(low, high) && !EmptyRange(low, top)
    ensures TorMatches(low, top, ToAddress(low)) && !TorMatches(high, top, ToAddress(low))
  {
    hide *;
    NotEmpty(low, top);
    WordInRange(low);
    NotAboveSelf(low);
    AfterIsStrict(top, low);
    TorByWord(low, top, ToAddress(low));
    TorByWord(high, top, ToAddress(low));
    if NotAbove(high, low) {
      NotAboveMeets(low, high);
    }
  }

  lemma NotEmpty(bottom: bv32, top: bv32)
    requires !EmptyRange(bottom, top)
    ensures !NotAbove(top, bottom) && FitsAddressSpace(bottom)
  {
    hide NotAbove, FitsAddressSpace;
  }

  lemma TorByWord(bottom: bv32, top: bv32, a: bv32)
    ensures TorMatches(bottom, top, a) <==> NotAbove(bottom, WordOf(a)) && After(top, WordOf(a))
  {
    hide NotAbove, After;
  }

  lemma RangesDiffer(bottom1: bv32, bottom2: bv32, top: bv32) returns (a: bv32)
    requires !SameRange(bottom1, bottom2, top)
    ensures TorMatches(bottom1, top, a) != TorMatches(bottom2, top, a)
  {
    hide TorMatches, NotAbove, EmptyRange, ToAddress;
    NotAboveTotal(bottom1, bottom2);
    if NotAbove(bottom1, bottom2) {
      if EmptyRange(bottom1, top) {
        EmptyAbove(bottom1, bottom2, top);
      }
      LowerBottomTells(bottom1, bottom2, top);
      a := ToAddress(bottom1);
    } else {
      if EmptyRange(bottom2, top) {
        EmptyAbove(bottom2, bottom1, top);
      }
      LowerBottomTells(bottom2, bottom1, top);
      a := ToAddress(bottom2);
    }
  }

  predicate IsTor(c: Csrs, i: nat) {
    Entry(c.cfg, i) & A_MASK == A_TOR
  }

  ghost predicate AppliesAlike(c: Csrs, s: Csrs, i: nat) {
    forall a :: EntryMatches(s, i, a) <==> EntryMatches(c, i, a)
  }

  /** An entry whose own registers are the same applies to the same bytes exactly if it is not
      a top-of-range entry above the first, or the register below gives the same range. */
  lemma AppliesAlikeIff(c: Csrs, s: Csrs, i: nat)
    requires SameEntry(c, s, i)
    ensures AppliesAlike(c, s, i) <==>
              !IsTor(c, i) || i == 0 || SameRange(Addr(c, i - 1), Addr(s, i - 1), Addr(c, i))
  {
    hide Entry, Addr, TorMatches, WordMatches, NapotMatches, EmptyRange;
    if IsTor(c, i) && i > 0 {
      var low, now, top := Addr(c, i - 1), Addr(s, i - 1), Addr(c, i);
      TorEntryMatches(c, i);
      TorEntryMatches(s, i);
      if !SameRange(low, now, top) {
        var a := RangesDiffer(low, now, top);
        assert EntryMatches(s, i, a) != EntryMatches(c, i, a);
      } else if low != now {
        forall a ensures TorMatches(low, top, a) == TorMatches(now, top, a) {
          EmptyRangeMatchesNone(low, top, a);
          EmptyRangeMatchesNone(now, top, a);
        }
      }
    }
  }

  lemma TorEntryMatches(c: Csrs, i: nat)
    requires IsTor(c, i) && i > 0
    ensures forall a :: EntryMatches(c, i, a) <==> TorMatches(Addr(c, i - 1), Addr(c, i), a)
  {
    hide Entry, Addr, TorMatches, WordMatches, NapotMatches;
  }

  /** So a call that touches the registers of entry i alone leaves every other entry's range
      alone in a state exactly if the one above is not top-of-range, or its range is the same. */
  lemma OthersApplyAlikeIff(c: Csrs, s: Csrs, i: nat, j: nat)
    requires OthersSame(c, s, i) && i < 4 && j < 4 && j != i
    ensures AppliesAlike(c, s, j) <==>
              !(j == i + 1 && IsTor(c, j)) || SameRange(Addr(c, i), Addr(s, i), Addr(c, j))
  {
    hide IsTor, SameEntry, AppliesAlike, EmptyRange;
    AppliesAlikeIff(c, s, j);
    if j > 0 && j - 1 != i {
      SameAddr(c, s, j - 1);
    }
  }

  lemma SameAddr(c: Csrs, s: Csrs, i: nat)
    requires SameEntry(c, s, i)
    ensures Addr(s, i) == Addr(c, i)
  {
    hide Entry, Addr;
  }

  /** The registers of a locked entry stay over every run, but what it applies to stays only
      if no register below it moves: it does for entry 0, for one that is not top-of-range,
      and for one above another locked entry. */
  lemma LockedEntryAppliesAlike(c: Csrs, ops: seq<Op>, s: Csrs, i: nat)
    requires i < 4 && IsLocked(c, i) && VisitsInRun(c, ops, s)
    ensures AppliesAlike(c, s, i) <==>
              !IsTor(c, i) || i == 0 || SameRange(Addr(c, i - 1), Addr(s, i - 1), Addr(c, i))
    ensures !IsTor(c, i) || i == 0 || IsLocked(c, i - 1) ==> AppliesAlike(c, s, i)
  {
    hide IsTor, SameEntry, AppliesAlike, EmptyRange, VisitsInRun, IsLocked;
    EveryRunKeepsLocked(c, ops, s, i);
    AppliesAlikeIff(c, s, i);
    if i > 0 && IsLocked(c, i - 1) {
      EveryRunKeepsLocked(c, ops, s, i - 1);
      SameAddr(c, s, i - 1);
    }
  }

  /** Switching an entry off moves the range of the top-of-range entry above it, down to
      address 0 here, and if that one is locked too. */
  lemma DisablingMovesRangeAbove(locked: bool)
    ensures var c := Csrs(if locked then 0x8F00 else 0x0F00, 0x1000, 0x2000, 0, 0);
            var o := Disable(c, 0);
            && (IsLocked(c, 1) <==> locked) && o.Written? && SameEntry(c, o.on, 1)
            && !EntryMatches(c, 1, 0) && EntryMatches(o.on, 1, 0)
  {
    var c := Csrs(if locked then 0x8F00 else 0x0F00, 0x1000, 0x2000, 0, 0);
    assert Entry(c.cfg, 1) == if locked then 0x8F else 0x0F;
    assert Entry(c.cfg, 0) == 0 && !IsLocked(c, 0);
    DisableMovesWhileOff(c, 0);
    assert !TorMatches(0x1000, 0x2000, 0) && TorMatches(0, 0x2000, 0);
    hide Disable, TorMatches;
  }
}

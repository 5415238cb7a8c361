// DNS names as the mDNS responder writes, parses and skips them, and its walk over the
// known answers of a query (src/mdns.c).

module Mdns {
  import opened Words

  type Bytes = seq<u8>

  const DOT: u8 := 46
  const LOCAL: Bytes := [108, 111, 99, 97, 108]         // "local"
  const DOT_LOCAL: Bytes := [46, 108, 111, 99, 97, 108]
  const NAME_BUF: nat := 64
  const MAX_HOSTNAME: nat := 32

  /** The bytes before the first zero. */
  function CStr(b: Bytes): (r: Bytes)
    ensures |r| <= |b| && 0 !in r && (0 !in b ==> r == b)
  {
    if b == [] || b[0] == 0 then [] else [b[0]] + CStr(b[1..])
  }

  // ---- Writing -----------------------------------------------------------

  /** The wire form of host.local; the length byte keeps the low 8 bits of the length. */
  function Encode(host: Bytes): (b: Bytes)
    ensures |b| == |host| + 8
  {
    [|host| % 256] + host + [5] + LOCAL + [0]
  }

  /** mdns_encode_name into a buffer of room bytes: all or nothing. */
  method EncodeName(host: Bytes, room: nat) returns (out: Bytes)
    ensures out == if |host| + 8 > room then [] else Encode(host)
  {
    var total := 1 + |host| + 1 + |LOCAL| + 1;
    if total > room {
      return [];
    }
    out := [|host| % 256] + host;
    out := out + [|LOCAL|] + LOCAL;
    out := out + [0];
  }

  // ---- Parsing -----------------------------------------------------------

  /** Diverges stands for a call that follows more pointers than calls allows. */
  datatype Parsed = Name(text: Bytes, end: nat) | Bad | Diverges

  predicate IsPointer(len: u8) {
    len >= 0xC0
  }

  /** The offset a compression pointer at off leads to. */
  function Target(packet: Bytes, off: nat): nat
    requires off + 1 < |packet|
  {
    var hi: int, lo: int := packet[off], packet[off + 1];
    hi % 64 * 256 + lo
  }

  /** The name so far, with a dot before what comes next if one still fits. */
  function Dotted(out: Bytes, max: nat): Bytes {
    if |out| > 0 && |out| + 1 < max then out + [DOT] else out
  }

  /** A pointer's name appended to what came before it. */
  function Joined(out: Bytes, tail: Bytes): Bytes {
    if |out| > 0 && out[|out| - 1] != DOT then out + [DOT] + tail else out + tail
  }

  /** mdns_parse_query_name from off on, with out already written into a buffer of max bytes,
      following at most calls pointers one inside another. */
  function Parse(packet: Bytes, off: nat, out: Bytes, max: nat, calls: nat): Parsed
    decreases calls, |packet| - off
  {
    if off >= |packet| then Name(out, off)
    else
      var len := packet[off];
      if len == 0 then Name(out, off + 1)
      else if IsPointer(len) then
        if off + 1 >= |packet| then Bad
        else if calls == 0 then Diverges
        else
          match Parse(packet, Target(packet, off), [], NAME_BUF, calls - 1)
          case Diverges => Diverges
          case Bad => Bad
          case Name(text, _) =>
            var tail := CStr(text);
            if |out| + |tail| + 1 >= max then Bad else Name(Joined(out, tail), off + 2)
      else if off + 1 + len > |packet| then Bad
      else
        var dotted := Dotted(out, max);
        if |dotted| + len >= max then Bad
        else Parse(packet, off + 1 + len, dotted + packet[off + 1..off + 1 + len], max, calls)
  }

  datatype Skipped = To(end: nat) | Fails

  /** mdns_skip_name. */
  function Skip(packet: Bytes, off: nat): Skipped
    decreases |packet| - off
  {
    if off > |packet| then Fails
    else if off == |packet| then To(off)
    else if IsPointer(packet[off]) then (if off + 2 > |packet| then Fails else To(off + 2))
    else if packet[off] == 0 then To(off + 1)
    else Skip(packet, off + 1 + packet[off])
  }

  /** The parsed name always fits its buffer with the terminator. */
  lemma {:induction false} NameFitsBuffer(packet: Bytes, off: nat, out: Bytes, max: nat, calls: nat)
    requires |out| < max
    ensures var r := Parse(packet, off, out, max, calls); r.Name? ==> |r.text| < max
    decreases calls, |packet| - off
  {
    if off < |packet| && packet[off] != 0 && !IsPointer(packet[off]) {
      var len := packet[off];
      var dotted := Dotted(out, max);
      if off + 1 + len <= |packet| && |dotted| + len < max {
        NameFitsBuffer(packet, off + 1 + len, dotted + packet[off + 1..off + 1 + len], max, calls);
      }
    }
  }

  /** When a name parses, skipping it succeeds with the same end, provided it starts inside the
      packet or at its end; past the end parsing yields an empty name where skipping fails. */
  lemma {:induction false} SkipAgreesIff(packet: Bytes, off: nat, out: Bytes, max: nat, calls: nat)
    requires Parse(packet, off, out, max, calls).Name?
    ensures Skip(packet, off) == To(Parse(packet, off, out, max, calls).end) <==> off <= |packet|
    decreases |packet| - off
  {
    if off < |packet| && packet[off] != 0 && !IsPointer(packet[off]) {
      var len := packet[off];
      var dotted := Dotted(out, max);
      SkipAgreesIff(packet, off + 1 + len, dotted + packet[off + 1..off + 1 + len], max, calls);
    }
  }

  // ---- Pointers ----------------------------------------------------------

  /** The target of the pointer a name leads to, if its labels lead to one. */
  function PointerFrom(packet: Bytes, off: nat, used: nat, max: nat): Option<nat>
    decreases |packet| - off
  {
    if off >= |packet| || packet[off] == 0 then None
    else if IsPointer(packet[off]) then (if off + 1 < |packet| then Some(Target(packet, off)) else None)
    else
      var len := packet[off];
      var dotted := if used > 0 && used + 1 < max then used + 1 else used;
      if off + 1 + len > |packet| || dotted + len >= max then None
      else PointerFrom(packet, off + 1 + len, dotted + len, max)
  }

  /** n pointers can be followed one after the other, beginning with a name of max bytes. */
  predicate Follows(packet: Bytes, off: nat, used: nat, max: nat, n: nat)
    decreases n
  {
    n == 0 ||
    var p := PointerFrom(packet, off, used, max);
    p.Some? && Follows(packet, p.value, 0, NAME_BUF, n - 1)
  }

  /** The parser follows pointers without end exactly when the packet leads it to: with room for
      any number of calls it stops if and only if the chain of pointers does. */
  lemma {:induction false} DivergesIff(packet: Bytes, off: nat, out: Bytes, max: nat, calls: nat)
    ensures Parse(packet, off, out, max, calls) == Diverges <==> Follows(packet, off, |out|, max, calls + 1)
    decreases calls, |packet| - off
  {
    if off < |packet| && packet[off] != 0 {
      if IsPointer(packet[off]) {
        if off + 1 < |packet| && calls > 0 {
          DivergesIff(packet, Target(packet, off), [], NAME_BUF, calls - 1);
        }
      } else {
        var len := packet[off];
        var dotted := Dotted(out, max);
        if off + 1 + len <= |packet| && |dotted| + len < max {
          DivergesIff(packet, off + 1 + len, dotted + packet[off + 1..off + 1 + len], max, calls);
        }
      }
    }
  }

  /** The offset reached after k pointers from the name at t. */
  function Reached(packet: Bytes, t: nat, k: nat): Option<nat> {
    if k == 0 then Some(t)
    else
      var r := Reached(packet, t, k - 1);
      if r.None? then None else PointerFrom(packet, r.value, 0, NAME_BUF)
  }

  lemma {:induction false} ReachedFromNext(packet: Bytes, t: nat, k: nat)
    requires k > 0
    ensures var p := PointerFrom(packet, t, 0, NAME_BUF);
            Reached(packet, t, k) == if p.None? then None else Reached(packet, p.value, k - 1)
  {
    if k > 1 {
      ReachedFromNext(packet, t, k - 1);
    }
  }

  lemma {:induction false} FollowsIsReached(packet: Bytes, t: nat, n: nat)
    ensures Follows(packet, t, 0, NAME_BUF, n) <==> Reached(packet, t, n).Some?
    decreases n
  {
    if n > 0 {
      ReachedFromNext(packet, t, n);
      var p := PointerFrom(packet, t, 0, NAME_BUF);
      if p.Some? {
        FollowsIsReached(packet, p.value, n - 1);
      }
    }
  }

  /** Pointers have 14 bits. */
  lemma {:induction false} PointersAreShort(packet: Bytes, off: nat, used: nat, max: nat)
    ensures var p := PointerFrom(packet, off, used, max); p.Some? ==> p.value < 0x4000
    decreases |packet| - off
  {
    if off < |packet| && packet[off] != 0 && !IsPointer(packet[off]) {
      var len := packet[off];
      var dotted := if used > 0 && used + 1 < max then used + 1 else used;
      PointersAreShort(packet, off + 1 + len, dotted + len, max);
    }
  }

  lemma {:induction false} ReachedIsShort(packet: Bytes, t: nat, k: nat)
    requires t < 0x4000
    ensures Reached(packet, t, k).Some? ==> Reached(packet, t, k).value < 0x4000
  {
    if k > 0 && Reached(packet, t, k - 1).Some? {
      PointersAreShort(packet, Reached(packet, t, k - 1).value, 0, NAME_BUF);
    }
  }

  lemma {:induction false} ReachedBefore(packet: Bytes, t: nat, k: nat, n: nat)
    requires k <= n && Reached(packet, t, n).Some?
    ensures Reached(packet, t, k).Some?
  {
    if k < n {
      ReachedBefore(packet, t, k, n - 1);
    }
  }

  /** The chain of pointers from t comes back to an offset within its first 2^14 steps. */
  ghost predicate ComesBack(packet: Bytes, t: nat) {
    exists i: nat, j: nat ::
      i < j <= 0x4000 && Reached(packet, t, i).Some? && Reached(packet, t, i) == Reached(packet, t, j)
  }

  lemma {:induction false} SameAhead(packet: Bytes, t: nat, i: nat, j: nat, k: nat)
    requires Reached(packet, t, i) == Reached(packet, t, j)
    ensures Reached(packet, t, i + k) == Reached(packet, t, j + k)
  {
    if k > 0 {
      SameAhead(packet, t, i, j, k - 1);
    }
  }

  lemma {:induction false} ComingBackGoesOn(packet: Bytes, t: nat, i: nat, j: nat, n: nat)
    requires i < j && Reached(packet, t, i).Some? && Reached(packet, t, i) == Reached(packet, t, j)
    ensures Reached(packet, t, n).Some?
  {
    if n <= j {
      ReachedBefore(packet, t, n, j);
    } else {
      ComingBackGoesOn(packet, t, i, j, n - (j - i));
      SameAhead(packet, t, i, j, n - j);
    }
  }

  lemma {:induction false} SubsetIsSmaller(a: set<nat>, b: set<nat>)
    requires a <= b
    ensures |a| <= |b|
    decreases |a|
  {
    if a != {} {
      var x :| x in a;
      SubsetIsSmaller(a - {x}, b - {x});
    }
  }

  function Below(n: nat): (r: set<nat>)
    ensures forall x: nat :: x in r <==> x < n
    ensures |r| == n
  {
    if n == 0 then {} else Below(n - 1) + {n - 1}
  }

  /** The offsets reached after fewer than n pointers. */
  function Visited(packet: Bytes, t: nat, n: nat): (r: set<nat>) {
    if n == 0 then {}
    else
      var before := Visited(packet, t, n - 1);
      var r := Reached(packet, t, n - 1);
      if r.Some? then before + {r.value} else before
  }

  lemma {:induction false} VisitedIsReached(packet: Bytes, t: nat, n: nat, x: nat)
    ensures x in Visited(packet, t, n) <==> exists k: nat :: k < n && Reached(packet, t, k) == Some(x)
  {
    hide Reached;
    if n > 0 {
      VisitedIsReached(packet, t, n - 1, x);
      if x in Visited(packet, t, n - 1) {
        var k: nat :| k < n - 1 && Reached(packet, t, k) == Some(x);
        assert k < n && Reached(packet, t, k) == Some(x);
      } else if Reached(packet, t, n - 1) == Some(x) {
        assert n - 1 < n && Reached(packet, t, n - 1) == Some(x);
      }
    }
  }

  lemma {:induction false} NewOffsetsCount(packet: Bytes, t: nat, n: nat)
    requires forall k: nat :: k < n ==> Reached(packet, t, k).Some?
    requires forall i: nat, j: nat :: i < j < n ==> Reached(packet, t, i) != Reached(packet, t, j)
    ensures |Visited(packet, t, n)| == n
  {
    hide Reached;
    if n > 0 {
      NewOffsetsCount(packet, t, n - 1);
      VisitedIsReached(packet, t, n - 1, Reached(packet, t, n - 1).value);
    }
  }

  /** 2^14 pointers followed in a row have led somewhere twice. */
  lemma LongChainsComeBack(packet: Bytes, t: nat)
    requires t < 0x4000 && Reached(packet, t, 0x4000).Some?
    ensures ComesBack(packet, t)
  {
    hide Reached;
    if !ComesBack(packet, t) {
      forall k: nat | k < 0x4001 ensures Reached(packet, t, k).Some? {
        ReachedBefore(packet, t, k, 0x4000);
      }
      NewOffsetsCount(packet, t, 0x4001);
      forall x | x in Visited(packet, t, 0x4001) ensures x in Below(0x4000) {
        VisitedIsReached(packet, t, 0x4001, x);
        var k: nat :| k < 0x4001 && Reached(packet, t, k) == Some(x);
        ReachedIsShort(packet, t, k);
      }
      SubsetIsSmaller(Visited(packet, t, 0x4001), Below(0x4000));
    }
  }

  /** A name whose pointers the parser follows without end. */
  ghost predicate Endless(packet: Bytes, off: nat, used: nat, max: nat) {
    var p := PointerFrom(packet, off, used, max);
    p.Some? && ComesBack(packet, p.value)
  }

  /** No number of nested calls is enough exactly when 2^14 are not, and exactly when the
      chain of pointers comes back to an offset it has passed. */
  lemma NeverEndsIff(packet: Bytes, off: nat, out: Bytes, max: nat)
    ensures Parse(packet, off, out, max, 0x4000) == Diverges <==> Endless(packet, off, |out|, max)
    ensures (forall calls: nat :: Parse(packet, off, out, max, calls) == Diverges) <==> Endless(packet, off, |out|, max)
  {
    hide Parse, PointerFrom, Reached, ComesBack;
    DivergesIff(packet, off, out, max, 0x4000);
    var p := PointerFrom(packet, off, |out|, max);
    if p.Some? {
      FollowsIsReached(packet, p.value, 0x4000);
      PointersAreShort(packet, off, |out|, max);
      if ComesBack(packet, p.value) {
        forall calls: nat ensures Parse(packet, off, out, max, calls) == Diverges {
          DivergesIff(packet, off, out, max, calls);
          FollowsIsReached(packet, p.value, calls);
          ComingBackIsEndless(packet, p.value, calls);
        }
        ComingBackIsEndless(packet, p.value, 0x4000);
      } else if Reached(packet, p.value, 0x4000).Some? {
        LongChainsComeBack(packet, p.value);
      }
    }
  }

  lemma ComingBackIsEndless(packet: Bytes, t: nat, n: nat)
    requires ComesBack(packet, t)
    ensures Reached(packet, t, n).Some?
  {
    hide Reached;
    var i: nat, j: nat :|
      i < j <= 0x4000 && Reached(packet, t, i).Some? && Reached(packet, t, i) == Reached(packet, t, j);
    ComingBackGoesOn(packet, t, i, j, n);
  }

  /** Every pointer followed leads to before the start of the name that holds it. */
  predicate Descends(packet: Bytes, off: nat, max: nat)
    decreases off
  {
    var p := PointerFrom(packet, off, 0, max);
    p.None? || (p.value < off && Descends(packet, p.value, NAME_BUF))
  }

  lemma {:induction false} DescendingChainsEnd(packet: Bytes, off: nat, max: nat, n: nat)
    requires Descends(packet, off, max) && n > off
    ensures !Follows(packet, off, 0, max, n + 1)
    decreases off
  {
    var p := PointerFrom(packet, off, 0, max);
    if p.Some? {
      DescendingChainsEnd(packet, p.value, NAME_BUF, n - 1);
    }
  }

  /** Packets whose pointers lead back, as section 4.1.4 of RFC 1035 has them, always parse to
      the end, with no more nested calls than the offset of the name. */
  lemma BackwardPointersTerminate(packet: Bytes, off: nat, max: nat)
    requires Descends(packet, off, max)
    ensures Parse(packet, off, [], max, off + 1) != Diverges
  {
    DescendingChainsEnd(packet, off, max, off + 1);
    DivergesIff(packet, off, [], max, off + 1);
  }

  /** A pointer to itself is followed without end. */
  lemma {:induction false} SelfPointerDiverges(calls: nat)
    ensures Parse([0xC0, 0x00], 0, [], NAME_BUF, calls) == Diverges
  {
    assert Target([0xC0, 0x00], 0) == 0;
    if calls > 0 {
      SelfPointerDiverges(calls - 1);
    }
  }

  // ---- Round trips -------------------------------------------------------

  lemma SliceOfSlice(b: Bytes, off: nat, n: nat, i: nat, j: nat)
    requires off + n <= |b| && i <= j <= n
    ensures b[off..off + n][i..j] == b[off + i..off + j]
  {
    var x, y := b[off..off + n][i..j], b[off + i..off + j];
    assert |x| == |y|;
    forall k | 0 <= k < |x| ensures x[k] == y[k] {
      assert x[k] == b[off..off + n][i + k] == b[off + i + k];
    }
    assert x == y;
  }


  lemma ParseLabel(packet: Bytes, off: nat, part: Bytes, out: Bytes, max: nat, calls: nat)
    requires 0 < |part| < 0xC0 && off + 1 + |part| <= |packet|
    requires packet[off] == |part| && packet[off + 1..off + 1 + |part|] == part
    requires |Dotted(out, max)| + |part| < max
    ensures Parse(packet, off, out, max, calls) ==
            Parse(packet, off + 1 + |part|, Dotted(out, max) + part, max, calls)
  {
  }

  /** The two labels and the root of an encoded name, where they stand. */
  predicate NameStands(packet: Bytes, off: nat, host: Bytes) {
    && off + |host| + 8 <= |packet|
    && packet[off] == |host| && packet[off + 1..off + 1 + |host|] == host
    && packet[off + 1 + |host|] == 5 && packet[off + 2 + |host|..off + 7 + |host|] == LOCAL
    && packet[off + 7 + |host|] == 0
  }

  lemma EncodedStands(before: Bytes, host: Bytes, after: Bytes)
    requires |host| <= MAX_HOSTNAME
    ensures NameStands(before + Encode(host) + after, |before|, host)
  {
    var packet := before + Encode(host) + after;
    var name := packet[|before|..|before| + |host| + 8];
    assert name == Encode(host);
    SliceOfSlice(packet, |before|, |host| + 8, 1, 1 + |host|);
    SliceOfSlice(packet, |before|, |host| + 8, 2 + |host|, 7 + |host|);
    assert name[1..1 + |host|] == host && name[2 + |host|..7 + |host|] == LOCAL;
    assert packet[|before|] == name[0] && packet[|before| + 1 + |host|] == name[1 + |host|];
    assert packet[|before| + 7 + |host|] == name[7 + |host|];
  }

  lemma DottedHost(host: Bytes, max: nat)
    requires 1 <= |host| <= MAX_HOSTNAME && max >= NAME_BUF
    ensures Dotted([], max) + host == host && Dotted(host, max) + LOCAL == host + DOT_LOCAL
    ensures |Dotted([], max)| == 0 && |Dotted(host, max)| == |host| + 1
  {
    assert [DOT] + LOCAL == DOT_LOCAL;
  }

  lemma StandingNameParses(packet: Bytes, off: nat, host: Bytes, max: nat, calls: nat)
    requires 1 <= |host| <= MAX_HOSTNAME && max >= NAME_BUF && NameStands(packet, off, host)
    ensures Parse(packet, off, [], max, calls) == Name(host + DOT_LOCAL, off + |host| + 8)
  {
    hide Parse, Dotted;
    DottedHost(host, max);
    ParseLabel(packet, off, host, [], max, calls);
    ParseLabel(packet, off + 1 + |host|, LOCAL, host, max, calls);
    ParseRoot(packet, off + 7 + |host|, host + DOT_LOCAL, max, calls);
  }

  lemma ParseRoot(packet: Bytes, off: nat, out: Bytes, max: nat, calls: nat)
    requires off < |packet| && packet[off] == 0
    ensures Parse(packet, off, out, max, calls) == Name(out, off + 1)
  {
  }

  /** An encoded host name of 1 to 32 bytes parses back, wherever it stands in a packet. */
  lemma HostNameRoundTrip(before: Bytes, host: Bytes, after: Bytes, max: nat, calls: nat)
    requires 1 <= |host| <= MAX_HOSTNAME && max >= NAME_BUF
    ensures var packet := before + Encode(host) + after;
            Parse(packet, |before|, [], max, calls) == Name(host + DOT_LOCAL, |before| + |Encode(host)|)
    ensures var packet := before + Encode(host) + after;
            Skip(packet, |before|) == To(|before| + |Encode(host)|)
  {
    hide Encode, Parse, Skip, NameStands;
    EncodedStands(before, host, after);
    StandingNameParses(before + Encode(host) + after, |before|, host, max, calls);
    SkipAgreesIff(before + Encode(host) + after, |before|, [], max, calls);
  }

  /** So does a compression pointer to one. */
  lemma PointerRoundTrip(packet: Bytes, at: nat, off: nat, host: Bytes, max: nat, calls: nat)
    requires 1 <= |host| <= MAX_HOSTNAME && max >= NAME_BUF && 0 !in host
    requires off + |Encode(host)| <= |packet| && packet[off..off + |Encode(host)|] == Encode(host)
    requires at + 1 < |packet| && IsPointer(packet[at]) && Target(packet, at) == off
    ensures Parse(packet, at, [], max, calls + 1) == Name(host + DOT_LOCAL, at + 2)
  {
    var before, after := packet[..off], packet[off + |Encode(host)|..];
    assert packet == before + Encode(host) + after;
    HostNameRoundTrip(before, host, after, NAME_BUF, calls);
  }

  // ---- Known answers -----------------------------------------------------

  function Lower(c: u8): u8 {
    if 65 <= c <= 90 then c + 32 else c
  }

  /** Equal up to the case of ASCII letters. */
  predicate SameName(a: Bytes, b: Bytes) {
    |a| == |b| && forall i :: 0 <= i < |a| ==> Lower(a[i]) == Lower(b[i])
  }

  /** It takes an ASCII letter for the same one in the other case, and nothing else. */
  lemma SameNameIff(a: Bytes, b: Bytes)
    ensures SameName(a, b) <==>
              && |a| == |b|
              && forall i :: 0 <= i < |a| ==>
                   || a[i] == b[i]
                   || (65 <= a[i] <= 90 && b[i] == a[i] + 32)
                   || (65 <= b[i] <= 90 && a[i] == b[i] + 32)
  {
  }

  method SameNameByScan(a: Bytes, b: Bytes) returns (same: bool)
    ensures same == SameName(a, b)
  {
    var i := 0;
    while i < |a| && i < |b|
      invariant i <= |a| && i <= |b| && forall j :: 0 <= j < i ==> Lower(a[j]) == Lower(b[j])
    {
      if Lower(a[i]) != Lower(b[i]) {
        return false;
      }
      i := i + 1;
    }
    same := i == |a| && i == |b|;
  }

  function Rd16(b: Bytes, off: nat): u16
    requires off + 2 <= |b|
  {
    var hi: int, lo: int := b[off], b[off + 1];
    256 * hi + lo
  }

  function Rd32(b: Bytes, off: nat): u32
    requires off + 4 <= |b|
  {
    var hi: int, lo: int := Rd16(b, off), Rd16(b, off + 2);
    65536 * hi + lo
  }

  const TYPE_A: u16 := 1
  const HALF_TTL: u32 := 60

  /** The record at off holds our address under our name with half its life left. */
  predicate IsOurs(name: Parsed, b: Bytes, off: nat, fqdn: Bytes, ip: u32)
    requires off + 10 <= |b| && off + 10 + Rd16(b, off + 8) <= |b|
  {
    && name.Name? && SameName(CStr(name.text), fqdn)
    && Rd16(b, off) == TYPE_A && Rd16(b, off + 2) % 0x8000 == 1
    && Rd16(b, off + 8) == 4 && Rd32(b, off + 10) == ip && Rd32(b, off + 4) >= HALF_TTL
  }

  /** mdns_known_answer_present over the next n records. */
  function Known(b: Bytes, off: nat, n: nat, fqdn: Bytes, ip: u32, calls: nat): bool
    decreases n
  {
    if n == 0 then false
    else
      match Skip(b, off)
      case Fails => false
      case To(next) =>
        if next + 10 > |b| || next + 10 + Rd16(b, next + 8) > |b| then false
        else if IsOurs(Parse(b, off, [], NAME_BUF, calls), b, next, fqdn, ip) then true
        else Known(b, next + 10 + Rd16(b, next + 8), n - 1, fqdn, ip, calls)
  }

  /** A name on the wire: labels, and after them the root or a pointer. */
  predicate IsWireName(w: Bytes)
    decreases |w|
  {
    w != [] &&
    if IsPointer(w[0]) then |w| == 2
    else if w[0] == 0 then |w| == 1
    else 1 + w[0] <= |w| && IsWireName(w[1 + w[0]..])
  }

  /** One record of the answer section. */
  datatype Answer = Answer(name: Bytes, kind: u16, rclass: u16, ttl: u32, data: Bytes)

  predicate Sendable(a: Answer) {
    IsWireName(a.name) && |a.data| < 0x1_0000
  }

  function Be16(v: u16): (b: Bytes)
    ensures |b| == 2 && Rd16(b, 0) == v
  {
    var w: int := v;
    [w / 256, w % 256]
  }

  function Be32(v: u32): (b: Bytes)
    ensures |b| == 4 && Rd32(b, 0) == v
  {
    var w: int := v;
    var hi: u16, lo: u16 := w / 65536, w % 65536;
    Be16(hi) + Be16(lo)
  }

  function Fixed(a: Answer): (b: Bytes)
    requires Sendable(a)
    ensures |b| == 10
  {
    Be16(a.kind) + Be16(a.rclass) + Be32(a.ttl) + Be16(|a.data|)
  }

  function Record(a: Answer): Bytes
    requires Sendable(a)
  {
    a.name + Fixed(a) + a.data
  }

  function Records(answers: seq<Answer>): Bytes
    requires forall a :: a in answers ==> Sendable(a)
  {
    if answers == [] then [] else Record(answers[0]) + Records(answers[1..])
  }

  /** Where record i stands if the first one stands at off. */
  function Place(off: nat, answers: seq<Answer>, i: nat): nat
    requires i < |answers| && forall a :: a in answers ==> Sendable(a)
    decreases i
  {
    if i == 0 then off else Place(off + |Record(answers[0])|, answers[1..], i - 1)
  }

  /** The parser reads the name at off as fqdn, up to case. */
  predicate Named(b: Bytes, off: nat, fqdn: Bytes, calls: nat) {
    var r := Parse(b, off, [], NAME_BUF, calls);
    r.Name? && SameName(CStr(r.text), fqdn)
  }

  /** Our address, with half its life left. */
  predicate HoldsOurs(a: Answer, ip: u32) {
    a.kind == TYPE_A && a.rclass % 0x8000 == 1 && a.data == Be32(ip) && a.ttl >= HALF_TTL
  }

  lemma Rd16At(b: Bytes, off: nat, v: u16)
    requires off + 2 <= |b| && b[off..off + 2] == Be16(v)
    ensures Rd16(b, off) == v
  {
    assert b[off..off + 2][0] == b[off] && b[off..off + 2][1] == b[off + 1];
  }

  lemma BytesOf16(b: Bytes, off: nat)
    requires off + 2 <= |b|
    ensures b[off..off + 2] == Be16(Rd16(b, off))
  {
  }

  lemma Rd32At(b: Bytes, off: nat, v: u32)
    requires off + 4 <= |b| && b[off..off + 4] == Be32(v)
    ensures Rd32(b, off) == v
  {
    var w: int := v;
    var f := b[off..off + 4];
    assert b[off..off + 2] == f[0..2] == Be16(w / 65536);
    assert b[off + 2..off + 4] == f[2..4] == Be16(w % 65536);
    Rd16At(b, off, w / 65536);
    Rd16At(b, off + 2, w % 65536);
    hide Be16, Rd16;
  }

  lemma BytesOf32(b: Bytes, off: nat)
    requires off + 4 <= |b|
    ensures b[off..off + 4] == Be32(Rd32(b, off))
  {
    BytesOf16(b, off);
    BytesOf16(b, off + 2);
    hide Be16, Rd16;
    assert b[off..off + 4] == b[off..off + 2] + b[off + 2..off + 4];
  }

  lemma FixedFields(b: Bytes, off: nat, a: Answer)
    requires Sendable(a) && off + 10 <= |b| && b[off..off + 10] == Fixed(a)
    ensures Rd16(b, off) == a.kind && Rd16(b, off + 2) == a.rclass && Rd32(b, off + 4) == a.ttl
    ensures Rd16(b, off + 8) == |a.data|
  {
    hide Be16, Be32, Rd16, Rd32;
    var f := b[off..off + 10];
    var kind, rclass, ttl, len := Be16(a.kind), Be16(a.rclass), Be32(a.ttl), Be16(|a.data|);
    assert f == kind + rclass + ttl + len;
    SliceOfSlice(b, off, 10, 0, 2);
    SliceOfSlice(b, off, 10, 2, 4);
    SliceOfSlice(b, off, 10, 4, 8);
    SliceOfSlice(b, off, 10, 8, 10);
    assert f[0..2] == kind && f[2..4] == rclass && f[4..8] == ttl && f[8..10] == len;
    Rd16At(b, off, a.kind);
    Rd16At(b, off + 2, a.rclass);
    Rd32At(b, off + 4, a.ttl);
    Rd16At(b, off + 8, |a.data|);
  }

  /** Where the parts of a record stand. */
  lemma RecordParts(before: Bytes, a: Answer, after: Bytes)
    requires Sendable(a)
    ensures var b := before + Record(a) + after;
            var next := |before| + |a.name|;
            && b == before + a.name + (Fixed(a) + a.data + after)
            && next + 10 + |a.data| == |before| + |Record(a)| <= |b|
            && b[next..next + 10] == Fixed(a) && b[next + 10..next + 10 + |a.data|] == a.data
  {
    hide IsWireName, Fixed;
  }

  /** A name on the wire is skipped where it stands. */
  lemma {:induction false} WireNameIsSkipped(before: Bytes, w: Bytes, after: Bytes)
    requires IsWireName(w)
    ensures Skip(before + w + after, |before|) == To(|before| + |w|)
    decreases |w|
  {
    var b := before + w + after;
    assert b[|before|] == w[0];
    if !IsPointer(w[0]) && w[0] != 0 {
      var n := 1 + w[0];
      WireNameIsSkipped(before + w[..n], w[n..], after);
      assert before + w[..n] + w[n..] + after == b by {
        assert w[..n] + w[n..] == w;
      }
    }
  }

  lemma OursIffHolds(b: Bytes, next: nat, a: Answer, name: Parsed, fqdn: Bytes, ip: u32)
    requires Sendable(a) && next + 10 + |a.data| <= |b|
    requires b[next..next + 10] == Fixed(a) && b[next + 10..next + 10 + |a.data|] == a.data
    ensures Rd16(b, next + 8) == |a.data|
    ensures IsOurs(name, b, next, fqdn, ip) <==> name.Name? && SameName(CStr(name.text), fqdn) && HoldsOurs(a, ip)
  {
    FixedFields(b, next, a);
    if |a.data| == 4 {
      BytesOf32(b, next + 10);
      if a.data == Be32(ip) {
        Rd32At(b, next + 10, ip);
      }
    }
    hide IsWireName, Fixed, Rd16, Rd32, Be32, CStr, SameName;
  }

  /** One record of the walk: whether it stops the walk, and where the next one starts. */
  lemma RecordIsWalked(before: Bytes, a: Answer, after: Bytes, n: nat, fqdn: Bytes, ip: u32, calls: nat)
    requires Sendable(a) && n > 0
    ensures var b := before + Record(a) + after;
            Known(b, |before|, n, fqdn, ip, calls)
            == ((Named(b, |before|, fqdn, calls) && HoldsOurs(a, ip))
                || Known(b, |before| + |Record(a)|, n - 1, fqdn, ip, calls))
  {
    hide IsWireName, Parse, Skip, Fixed, Record, Rd16, Rd32, IsOurs, HoldsOurs, CStr, SameName;
    var b := before + Record(a) + after;
    var next := |before| + |a.name|;
    RecordParts(before, a, after);
    WireNameIsSkipped(before, a.name, Fixed(a) + a.data + after);
    OursIffHolds(b, next, a, Parse(b, |before|, [], NAME_BUF, calls), fqdn, ip);
  }

  /** Record i of those from off on is read as ours. */
  predicate Stops(b: Bytes, off: nat, answers: seq<Answer>, i: nat, fqdn: Bytes, ip: u32, calls: nat)
    requires i < |answers| && forall a :: a in answers ==> Sendable(a)
  {
    Named(b, Place(off, answers, i), fqdn, calls) && HoldsOurs(answers[i], ip)
  }

  ghost predicate AnyStops(b: Bytes, off: nat, answers: seq<Answer>, fqdn: Bytes, ip: u32, calls: nat)
    requires forall a :: a in answers ==> Sendable(a)
  {
    exists i: nat :: i < |answers| && Stops(b, off, answers, i, fqdn, ip, calls)
  }

  lemma AnyOfFirst(b: Bytes, off: nat, answers: seq<Answer>, fqdn: Bytes, ip: u32, calls: nat)
    requires answers != [] && forall a :: a in answers ==> Sendable(a)
    ensures AnyStops(b, off, answers, fqdn, ip, calls)
            <==> (Named(b, off, fqdn, calls) && HoldsOurs(answers[0], ip))
                 || AnyStops(b, off + |Record(answers[0])|, answers[1..], fqdn, ip, calls)
  {
    hide Named, HoldsOurs, Sendable, Record;
    var rest, next := answers[1..], off + |Record(answers[0])|;
    if i: nat :| i < |answers| && Stops(b, off, answers, i, fqdn, ip, calls) {
      if i > 0 {
        assert Stops(b, next, rest, i - 1, fqdn, ip, calls);
      }
    }
    if i: nat :| i < |rest| && Stops(b, next, rest, i, fqdn, ip, calls) {
      assert Stops(b, off, answers, i + 1, fqdn, ip, calls);
    }
    if Named(b, off, fqdn, calls) && HoldsOurs(answers[0], ip) {
      assert Stops(b, off, answers, 0, fqdn, ip, calls);
    }
  }

  lemma FirstRecordApart(before: Bytes, answers: seq<Answer>, after: Bytes)
    requires answers != [] && forall a :: a in answers ==> Sendable(a)
    ensures var first, rest := Record(answers[0]), Records(answers[1..]);
            && before + Records(answers) + after == before + first + (rest + after)
            && before + Records(answers) + after == (before + first) + rest + after
  {
    hide Record;
  }

  /** Any records behind any header and questions and before anything else, whatever their names,
      labels or pointers to anywhere: the walk finds ours if and only if the parser reads one of
      the names as ours, up to case, and its record is our A record with half its life left. */
  lemma {:induction false} KnownAnswerIff(before: Bytes, answers: seq<Answer>, after: Bytes,
                                          fqdn: Bytes, ip: u32, calls: nat)
    requires forall a :: a in answers ==> Sendable(a)
    ensures var b := before + Records(answers) + after;
            Known(b, |before|, |answers|, fqdn, ip, calls)
            <==> exists i: nat :: i < |answers| && Stops(b, |before|, answers, i, fqdn, ip, calls)
    decreases |answers|
  {
    hide Sendable, Record, Stops, Named, HoldsOurs, Skip, IsOurs, Rd16, Place;
    if answers != [] {
      var a, rest := answers[0], answers[1..];
      var b := before + Records(answers) + after;
      FirstRecordApart(before, answers, after);
      RecordIsWalked(before, a, Records(rest) + after, |answers|, fqdn, ip, calls);
      KnownAnswerIff(before + Record(a), rest, after, fqdn, ip, calls);
      assert AnyStops(b, |before| + |Record(a)|, rest, fqdn, ip, calls)
             <==> Known(b, |before| + |Record(a)|, |rest|, fqdn, ip, calls);
      AnyOfFirst(b, |before|, answers, fqdn, ip, calls);
      assert AnyStops(b, |before|, answers, fqdn, ip, calls)
             <==> Known(b, |before|, |answers|, fqdn, ip, calls);
    }
  }

  // ---- Names by their labels ---------------------------------------------

  /** The labels with dots between them. */
  function Dots(labels: seq<Bytes>): Bytes {
    if labels == [] then []
    else if |labels| == 1 then labels[0]
    else labels[0] + [DOT] + Dots(labels[1..])
  }

  /** The name at off spells the labels, in full or with pointers for its ends, at most depth of
      them one inside another. A pointer stands for at least one label and not behind one that
      ends with a dot itself, as the label before does if its last byte is a dot. */
  predicate Spells(b: Bytes, off: nat, last: u8, labels: seq<Bytes>, depth: nat)
    decreases depth, |labels|
  {
    off < |b| &&
    if IsPointer(b[off]) then
      && labels != [] && last != DOT && depth > 0 && off + 1 < |b|
      && Spells(b, Target(b, off), 0, labels, depth - 1)
    else if labels == [] then b[off] == 0
    else
      var l := labels[0];
      && l != [] && 0 !in l && b[off] == |l| && off + 1 + |l| <= |b| && b[off + 1..off + 1 + |l|] == l
      && Spells(b, off + 1 + |l|, l[|l| - 1], labels[1..], depth)
  }

  /** A name so far with more labels behind it. */
  function Extended(out: Bytes, labels: seq<Bytes>): Bytes {
    if labels == [] then out else if out == [] then Dots(labels) else out + [DOT] + Dots(labels)
  }

  /** What the parser may make of a spelled name: its text, or nothing if that is too long. */
  predicate ReadsAs(r: Parsed, text: Bytes) {
    match r
    case Name(t, _) => t == text
    case Bad => |text| + 1 >= NAME_BUF
    case Diverges => false
  }

  function LastOf(out: Bytes): u8 {
    if out == [] then 0 else out[|out| - 1]
  }

  lemma ExtendedByOne(out: Bytes, labels: seq<Bytes>)
    requires labels != [] && labels[0] != []
    ensures var one := if out == [] then labels[0] else out + [DOT] + labels[0];
            Extended(out, labels) == Extended(one, labels[1..]) && |one| <= |Extended(out, labels)|
  {
  }

  lemma DottedByOne(out: Bytes, l: Bytes)
    requires l != [] && |Dotted(out, NAME_BUF)| + |l| < NAME_BUF
    ensures Dotted(out, NAME_BUF) + l == if out == [] then l else out + [DOT] + l
    ensures LastOf(Dotted(out, NAME_BUF) + l) == l[|l| - 1]
  {
    assert [] + l == l;
  }

  lemma {:induction false} SpelledHasNoZero(b: Bytes, off: nat, last: u8, labels: seq<Bytes>, depth: nat)
    requires Spells(b, off, last, labels, depth)
    ensures 0 !in Dots(labels) && (labels != [] ==> Dots(labels) != [])
    decreases depth, |labels|
  {
    if IsPointer(b[off]) {
      SpelledHasNoZero(b, Target(b, off), 0, labels, depth - 1);
    } else if labels != [] {
      var l := labels[0];
      SpelledHasNoZero(b, off + 1 + |l|, l[|l| - 1], labels[1..], depth);
    }
  }

  /** The pointer at the end of a spelled name, and what is read through it. */
  lemma ReadThroughPointer(b: Bytes, off: nat, labels: seq<Bytes>, out: Bytes, depth: nat)
    requires Spells(b, off, LastOf(out), labels, depth) && IsPointer(b[off])
    requires ReadsAs(Parse(b, Target(b, off), [], NAME_BUF, depth - 1), Dots(labels))
    ensures ReadsAs(Parse(b, off, out, NAME_BUF, depth), Extended(out, labels))
  {
    SpelledHasNoZero(b, off, LastOf(out), labels, depth);
    hide Spells, Dots;
  }

  /** The parser reads a spelled name as its labels with dots between, if they fit its buffer. */
  lemma {:induction false} SpelledIsRead(b: Bytes, off: nat, labels: seq<Bytes>, out: Bytes, depth: nat)
    requires Spells(b, off, LastOf(out), labels, depth) && |out| < NAME_BUF
    ensures ReadsAs(Parse(b, off, out, NAME_BUF, depth), Extended(out, labels))
    decreases depth, |labels|
  {
    hide Parse, Dots, Extended;
    if IsPointer(b[off]) {
      SpelledIsRead(b, Target(b, off), labels, [], depth - 1);
      FromNothing(labels);
      ReadThroughPointer(b, off, labels, out, depth);
    } else if labels == [] {
      ParseRoot(b, off, out, NAME_BUF, depth);
      ExtendedByNone(out);
    } else {
      var l := labels[0];
      ExtendedByOne(out, labels);
      if |Dotted(out, NAME_BUF)| + |l| < NAME_BUF {
        ParseLabel(b, off, l, out, NAME_BUF, depth);
        DottedByOne(out, l);
        SpelledIsRead(b, off + 1 + |l|, labels[1..], Dotted(out, NAME_BUF) + l, depth);
      } else {
        ParseStops(b, off, out, NAME_BUF, depth);
      }
    }
  }

  lemma FromNothing(labels: seq<Bytes>)
    ensures Extended([], labels) == Dots(labels)
  {
  }

  lemma ExtendedByNone(out: Bytes)
    ensures Extended(out, []) == out
  {
  }

  /** Which names match: one that spells any labels matches a name that fits the buffer if and
      only if its labels with dots between are that name, up to case. */
  lemma SpelledMatchesIff(b: Bytes, off: nat, labels: seq<Bytes>, fqdn: Bytes, calls: nat)
    requires Spells(b, off, 0, labels, calls) && |fqdn| + 1 < NAME_BUF
    ensures Named(b, off, fqdn, calls) <==> SameName(Dots(labels), fqdn)
  {
    hide Parse, Spells, Dots, Extended;
    SpelledIsRead(b, off, labels, [], calls);
    FromNothing(labels);
    SpelledHasNoZero(b, off, 0, labels, calls);
  }

  /** Every record's name spells its labels, through pointers to questions, earlier answers or
      anywhere else in the packet. */
  ghost predicate AllSpelled(b: Bytes, off: nat, answers: seq<Answer>, names: seq<seq<Bytes>>, calls: nat)
    requires |names| == |answers| && forall a :: a in answers ==> Sendable(a)
  {
    forall i: nat :: i < |names| ==> Spells(b, Place(off, answers, i), 0, names[i], calls)
  }

  /** Among records of such names ours is found if and only if one of them has the labels of our
      name, whatever their case, and is our A record with half its life left. */
  lemma KnownByLabelsIff(before: Bytes, answers: seq<Answer>, names: seq<seq<Bytes>>, after: Bytes,
                         fqdn: Bytes, ip: u32, calls: nat)
    requires |names| == |answers| && |fqdn| + 1 < NAME_BUF && forall a :: a in answers ==> Sendable(a)
    requires AllSpelled(before + Records(answers) + after, |before|, answers, names, calls)
    ensures Known(before + Records(answers) + after, |before|, |answers|, fqdn, ip, calls)
            <==> exists i: nat :: i < |answers| && SameName(Dots(names[i]), fqdn) && HoldsOurs(answers[i], ip)
  {
    hide Known, Sendable, Records, Place, Named, Spells, SameName, Dots, HoldsOurs;
    var b := before + Records(answers) + after;
    KnownAnswerIff(before, answers, after, fqdn, ip, calls);
    forall i: nat | i < |answers|
      ensures Stops(b, |before|, answers, i, fqdn, ip, calls)
              <==> SameName(Dots(names[i]), fqdn) && HoldsOurs(answers[i], ip)
    {
      SpelledMatchesIff(b, Place(|before|, answers, i), names[i], fqdn, calls);
    }
  }

  /** The names this responder writes spell the host name and "local", in full and by pointer. */
  lemma EncodedIsSpelled(b: Bytes, off: nat, host: Bytes, calls: nat)
    requires 1 <= |host| <= MAX_HOSTNAME && 0 !in host && NameStands(b, off, host)
    ensures Spells(b, off, 0, [host, LOCAL], calls)
    ensures forall at: nat :: at + 1 < |b| && IsPointer(b[at]) && Target(b, at) == off
              ==> Spells(b, at, 0, [host, LOCAL], calls + 1)
    ensures Dots([host, LOCAL]) == host + DOT_LOCAL
  {
    assert Spells(b, off + 7 + |host|, 108, [], calls);
    assert [host, LOCAL][1..] == [LOCAL] && [LOCAL][1..] == [];
    assert Spells(b, off + 1 + |host|, host[|host| - 1], [LOCAL], calls);
  }

  // ---- The loops ---------------------------------------------------------

  /** What a pointer's name makes of the name so far. */
  function AfterPointer(out: Bytes, inner: Parsed, max: nat, end: nat): Parsed {
    if !inner.Name? then inner
    else if |out| + |CStr(inner.text)| + 1 >= max then Bad
    else Name(Joined(out, CStr(inner.text)), end)
  }

  /** The parser where it does not go on to another label. */
  lemma ParseStops(packet: Bytes, off: nat, out: Bytes, max: nat, calls: nat)
    requires off < |packet| && (IsPointer(packet[off]) || off + 1 + packet[off] > |packet|
                                || |Dotted(out, max)| + packet[off] >= max) && packet[off] != 0
    ensures Parse(packet, off, out, max, calls) ==
            if !IsPointer(packet[off]) || off + 1 >= |packet| then Bad
            else if calls == 0 then Diverges
            else AfterPointer(out, Parse(packet, Target(packet, off), [], NAME_BUF, calls - 1), max, off + 2)
  {
  }

  /** The parser's loop; it calls itself for a pointer, at most calls times one inside another. */
  method ParseName(packet: Bytes, start: nat, max: nat, calls: nat) returns (r: Parsed)
    requires max > 0
    ensures r == Parse(packet, start, [], max, calls)
    decreases calls
  {
    hide Parse, CStr, Joined, Dotted, Target, IsPointer;
    var offset := start;
    var out: Bytes := [];
    while offset < |packet|
      invariant Parse(packet, offset, out, max, calls) == Parse(packet, start, [], max, calls)
      decreases |packet| - offset
    {
      var len: nat := packet[offset];
      if len == 0 {
        ParseRoot(packet, offset, out, max, calls);
        return Name(out, offset + 1);
      }
      var dotted := Dotted(out, max);
      if IsPointer(len) {
        ParseStops(packet, offset, out, max, calls);
        if offset + 1 >= |packet| {
          return Bad;
        }
        if calls == 0 {
          return Diverges;
        }
        var inner := ParseName(packet, Target(packet, offset), NAME_BUF, calls - 1);
        if !inner.Name? {
          return inner;
        }
        var tail := CStr(inner.text);
        if |out| + |tail| + 1 >= max {
          return Bad;
        }
        return Name(Joined(out, tail), offset + 2);
      }
      if offset + 1 + len > |packet| || |dotted| + len >= max {
        ParseStops(packet, offset, out, max, calls);
        return Bad;
      }
      LabelIsShort(len);
      ParseLabel(packet, offset, packet[offset + 1..offset + 1 + len], out, max, calls);
      out := dotted + packet[offset + 1..offset + 1 + len];
      offset := offset + 1 + len;
    }
    ParseEnds(packet, offset, out, max, calls);
    return Name(out, offset);
  }

  lemma ParseEnds(packet: Bytes, off: nat, out: Bytes, max: nat, calls: nat)
    requires off >= |packet|
    ensures Parse(packet, off, out, max, calls) == Name(out, off)
  {
  }

  lemma LabelIsShort(len: u8)
    ensures !IsPointer(len) ==> len < 0xC0
  {
  }

  method SkipName(packet: Bytes, start: nat) returns (r: Skipped)
    ensures r == Skip(packet, start)
  {
    var offset := start;
    while offset < |packet|
      invariant Skip(packet, offset) == Skip(packet, start)
      decreases |packet| - offset
    {
      var len := packet[offset];
      if IsPointer(len) {
        offset := offset + 2;
        return if offset > |packet| then Fails else To(offset);
      }
      offset := offset + 1 + len;
      if len == 0 {
        return To(offset);
      }
    }
    return if offset > |packet| then Fails else To(offset);
  }

  method KnownAnswerPresent(payload: Bytes, start: nat, count: nat, fqdn: Bytes, ip: u32, calls: nat)
    returns (present: bool)
    ensures present == Known(payload, start, count, fqdn, ip, calls)
  {
    hide Parse, Skip, Rd16, Rd32, CStr, SameName;
    var offset: nat := start;
    var a: nat := 0;
    while a < count
      invariant a <= count
      invariant Known(payload, offset, count - a, fqdn, ip, calls) == Known(payload, start, count, fqdn, ip, calls)
    {
      var name := ParseName(payload, offset, NAME_BUF, calls);
      var skipped := SkipName(payload, offset);
      if skipped.Fails? || skipped.end + 10 > |payload| {
        return false;
      }
      var at := skipped.end;
      var rdlen: nat := Rd16(payload, at + 8);
      if at + 10 + rdlen > |payload| {
        return false;
      }
      if name.Name? {
        var same := SameNameByScan(CStr(name.text), fqdn);
        if same && Rd16(payload, at) == TYPE_A && Rd16(payload, at + 2) % 0x8000 == 1 && rdlen == 4
           && Rd32(payload, at + 10) == ip && Rd32(payload, at + 4) >= HALF_TTL {
          return true;
        }
      }
      offset := at + 10 + rdlen;
      a := a + 1;
    }
    return false;
  }
}

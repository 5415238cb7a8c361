// Internet checksums (RFC 1071) for IPv4, TCP and UDP (src/net.c).

module Checksum {
  import opened Words

  type Bytes = seq<u8>

  /** The sum of the big-endian 16-bit words, a last odd byte padded with zero. */
  function Sum16(b: Bytes): nat {
    if |b| == 0 then 0
    else if |b| == 1 then 256 * b[0]
    else 256 * b[0] + b[1] + Sum16(b[2..])
  }

  /** The one's complement residue: 0 only for 0, otherwise between 1 and 65535. */
  function Residue(s: nat): u16 {
    if s == 0 then 0 else (s - 1) % 65535 + 1
  }

  /** What net_checksum computes. */
  function Check(b: Bytes): u16 {
    if b == [] then 0 else 65535 - Residue(Sum16(b))
  }

  function WordAt(b: Bytes, k: nat): u16
    requires k + 1 < |b|
  {
    var hi: int, lo: int := b[k], b[k + 1];
    256 * hi + lo
  }

  function WithWord(b: Bytes, k: nat, w: u16): Bytes
    requires k + 1 < |b|
  {
    var v: int := w;
    b[k := v / 256][k + 1 := v % 256]
  }

  // ---- Sums --------------------------------------------------------------

  lemma {:induction false} SumBound(b: Bytes)
    ensures Sum16(b) <= 65535 * ((|b| + 1) / 2)
    decreases |b|
  {
    if |b| > 1 {
      SumBound(b[2..]);
    }
  }

  /** A piece of even length can be summed apart. */
  lemma {:induction false} SumConcat(a: Bytes, b: Bytes)
    requires |a| % 2 == 0
    ensures Sum16(a + b) == Sum16(a) + Sum16(b)
    decreases |a|
  {
    if a == [] {
      assert a + b == b;
    } else {
      assert (a + b)[2..] == a[2..] + b;
      SumConcat(a[2..], b);
    }
  }

  lemma {:induction false} SumWithWord(b: Bytes, k: nat, w: u16)
    requires k % 2 == 0 && k + 1 < |b|
    ensures WordAt(WithWord(b, k, w), k) == w
    ensures Sum16(WithWord(b, k, w)) == Sum16(b) - WordAt(b, k) + w
    decreases k
  {
    var c := WithWord(b, k, w);
    if k == 0 {
      assert c[2..] == b[2..];
    } else {
      assert c[2..] == WithWord(b[2..], k - 2, w);
      SumWithWord(b[2..], k - 2, w);
    }
  }

  /** Bytes at even offsets count 256 times, those at odd ones once; also in an odd last word. */
  lemma {:induction false} SumWithByte(b: Bytes, k: nat, v: u8)
    requires k < |b|
    ensures Sum16(b[k := v]) == Sum16(b) + (v - b[k]) * if k % 2 == 0 then 256 else 1
    decreases k
  {
    if k >= 2 {
      assert b[k := v][2..] == b[2..][k - 2 := v];
      SumWithByte(b[2..], k - 2, v);
    } else {
      assert |b| > 1 ==> b[k := v][2..] == b[2..];
    }
  }

  lemma {:induction false} ZerosSum(n: nat)
    ensures Sum16(seq(n, _ => 0)) == 0
    decreases n
  {
    if n > 1 {
      assert seq(n, _ => 0)[2..] == seq(n - 2, _ => 0);
      ZerosSum(n - 2);
    }
  }

  // ---- The residue -------------------------------------------------------

  lemma ModOfSum(a: int, q: int)
    ensures (a + 65535 * q) % 65535 == a % 65535
  {
    var c := a + 65535 * q;
    assert c == 65535 * (c / 65535) + c % 65535;
    assert a == 65535 * (a / 65535) + a % 65535;
  }

  lemma ResidueStep(s: nat)
    requires s >= 65536
    ensures Residue(s % 65536 + s / 65536) == Residue(s)
  {
    ModOfSum(s % 65536 + s / 65536 - 1, s / 65536);
  }

  /** A sum has residue 65535 exactly when it is a positive multiple of 65535. */
  lemma ResidueFull(s: nat)
    ensures Residue(s) == 65535 <==> s > 0 && s % 65535 == 0
  {
    if s > 0 {
      ModOfSum(s % 65535 - 1, s / 65535);
    }
  }

  lemma Complement(s: nat)
    ensures (s + 65535 - Residue(s)) % 65535 == 0
  {
    if s > 0 {
      ModOfSum(0, (s - 1) / 65535 + 1);
    }
  }

  // ---- Soundness ---------------------------------------------------------

  /** For every message with a 16-bit checksum field at an even offset: once the checksum of
      the message with a zero field is written there, the checksum of the message is 0. */
  lemma WrittenChecksumVerifies(b: Bytes, k: nat)
    requires k % 2 == 0 && k + 1 < |b| && WordAt(b, k) == 0
    ensures Check(WithWord(b, k, Check(b))) == 0
  {
    SumWithWord(b, k, Check(b));
    Complement(Sum16(b));
    ResidueFull(Sum16(b) + Check(b));
  }

  /** A message that verifies and in which one aligned word changed verifies still if and only
      if the word changed between 0 and 0xFFFF and not every word is now 0. */
  lemma ChangedWordUndetectedIff(b: Bytes, k: nat, w: u16)
    requires k % 2 == 0 && k + 1 < |b| && Check(b) == 0 && w != WordAt(b, k)
    ensures Check(WithWord(b, k, w)) == 0
            <==> {w as int, WordAt(b, k) as int} == {0, 0xFFFF} && Sum16(WithWord(b, k, w)) > 0
  {
    var s, x := Sum16(b), WordAt(b, k);
    SumWithWord(b, k, w);
    ResidueFull(s);
    ResidueFull(s - x + w);
    MultiplesApart(s, w - x);
    assert x == 0 && w == 0xFFFF ==> {w as int, x as int} == {0, 0xFFFF};
    assert x == 0xFFFF && w == 0 ==> {w as int, x as int} == {0, 0xFFFF};
    if {w as int, x as int} == {0, 0xFFFF} {
      assert w as int in {0, 0xFFFF} && x as int in {0, 0xFFFF};
    }
  }

  /** A message that verifies does so no more with any one byte changed, the last of an odd
      number of bytes included. */
  lemma ChangedByteDetected(b: Bytes, k: nat, v: u8)
    requires k < |b| && Check(b) == 0 && v != b[k]
    ensures Check(b[k := v]) != 0
  {
    var d := (v - b[k]) * if k % 2 == 0 then 256 else 1;
    SumWithByte(b, k, v);
    ResidueFull(Sum16(b));
    ResidueFull(Sum16(b) + d);
    MultiplesApart(Sum16(b), d);
  }

  lemma MultiplesApart(s: nat, d: int)
    requires s % 65535 == 0 && -65535 <= d <= 65535 && d != 0 && s + d >= 0
    ensures (s + d) % 65535 == 0 <==> d == 65535 || d == -65535
  {
    assert s == 65535 * (s / 65535);
    ModOfSum(d, s / 65535);
  }

  // ---- The loops ---------------------------------------------------------

  /** Adding to a wrapped sum. */
  lemma WrappedAdd(total: u32, w: nat, rest: nat)
    requires w < 0x1_0000
    ensures Low32(Add32(total, w) + rest) == Low32(total + w + rest)
  {
  }

  /** Adds the words of data to sum, in 32 bits that wrap around. */
  method Accumulate(data: Bytes, sum: u32) returns (total: u32)
    ensures total == Low32(sum + Sum16(data))
  {
    var ptr := 0;
    total := sum;
    while |data| - ptr > 1
      invariant 0 <= ptr <= |data| && ptr % 2 == 0
      invariant Low32(total + Sum16(data[ptr..])) == Low32(sum + Sum16(data))
    {
      var rest := data[ptr..];
      var hi: int, lo: int := data[ptr], data[ptr + 1];
      WrappedAdd(total, 256 * hi + lo, Sum16(rest[2..]));
      total := Add32(total, 256 * hi + lo);
      ptr := ptr + 2;
      assert data[ptr..] == rest[2..];
    }
    if |data| - ptr > 0 {
      var hi: int := data[ptr];
      WrappedAdd(total, 256 * hi, 0);
      total := Add32(total, 256 * hi);
    }
  }

  /** What a sum kept in 32 bits leads to. */
  function Folded32(s: nat): u16 {
    Residue(Low32(s))
  }

  /** A sum of fewer than 2^32 bytes keeps its residue exactly as long as it fits 32 bits. */
  lemma WrapLosesIff(s: nat)
    requires s < 65535 * 0x1_0000_0000
    ensures Folded32(s) == Residue(s) <==> s < 0x1_0000_0000
  {
    var q, r := s / 0x1_0000_0000, s % 0x1_0000_0000;
    if q > 0 {
      assert s == r + q + 65535 * (65537 * q);
      ModOfSum(r + q - 1, 65537 * q);
      if r == 0 {
        assert Residue(r) == 0 && Residue(s) > 0;
      } else {
        SameRest(r - 1, q);
      }
    }
  }

  lemma SameRest(a: nat, q: nat)
    requires 0 < q < 65535
    ensures (a + q) % 65535 != a % 65535
  {
    if (a + q) % 65535 == a % 65535 {
      assert a + q == 65535 * ((a + q) / 65535) + a % 65535;
      assert a == 65535 * (a / 65535) + a % 65535;
      MultipleIsLarge((a + q) / 65535 - a / 65535, q);
    }
  }

  lemma MultipleIsLarge(k: int, q: nat)
    requires q == 65535 * k
    ensures q == 0 || q >= 65535
  {
  }

  /** Folds the carries back in until 16 bits are left. */
  method Fold(sum: u32) returns (folded: u16)
    ensures folded == Residue(sum)
  {
    var s: nat := sum;
    while s / 65536 != 0
      invariant Residue(s) == Residue(sum)
      decreases s
    {
      ResidueStep(s);
      s := s % 65536 + s / 65536;
    }
    SmallResidue(s);
    folded := s;
  }

  lemma SmallResidue(s: nat)
    requires s < 65536
    ensures Residue(s) == s
  {
  }

  /** net_checksum: the RFC 1071 checksum exactly when the words sum to less than 2^32, as
      they always do up to 131074 bytes. The length is a 32-bit size_t. */
  method NetChecksum(data: Bytes) returns (c: u16)
    requires |data| < 0x1_0000_0000
    ensures c == if data == [] then 0 else 65535 - Folded32(Sum16(data))
    ensures c == Check(data) <==> Sum16(data) < 0x1_0000_0000
    ensures |data| <= 131074 ==> c == Check(data)
  {
    if |data| == 0 {
      return 0;
    }
    SumBound(data);
    WrapLosesIff(Sum16(data));
    var sum := Accumulate(data, 0);
    var folded := Fold(sum);
    c := 65535 - folded;
  }

  // ---- IPv4 --------------------------------------------------------------

  /** The header length the first byte gives, at least the 20 bytes without options. */
  function HeaderLength(verIhl: u8): (n: nat)
    ensures 20 <= n <= 60 && n % 4 == 0
  {
    4 * if verIhl % 16 < 5 then 5 else verIhl % 16
  }

  /** net_ipv4_checksum on a packet that holds its whole header. */
  method Ipv4Checksum(packet: Bytes) returns (c: u16)
    requires |packet| > 0 && HeaderLength(packet[0]) <= |packet|
    ensures c == Check(packet[..HeaderLength(packet[0])])
    ensures packet[0] % 16 >= 5 ==> c == Check(packet[..4 * (packet[0] % 16)])
    ensures packet[0] % 16 < 5 ==> c == Check(packet[..20])
  {
    var words := packet[0] % 16;
    if words < 5 {
      words := 5;
    }
    c := NetChecksum(packet[..4 * words]);
  }

  /** Any IPv4 header, options included: with the computed checksum at offset 10 it verifies. */
  lemma Ipv4HeaderVerifies(hdr: Bytes)
    requires |hdr| > 0 && |hdr| == HeaderLength(hdr[0]) && WordAt(hdr, 10) == 0
    ensures Check(WithWord(hdr, 10, Check(hdr))) == 0
    ensures WithWord(hdr, 10, Check(hdr))[0] == hdr[0]
  {
    WrittenChecksumVerifies(hdr, 10);
  }

  // ---- TCP and UDP -------------------------------------------------------

  function Be32(v: u32): (b: Bytes)
    ensures |b| == 4
  {
    var w: int := v;
    [w / 16777216, w / 65536 % 256, w / 256 % 256, w % 256]
  }

  function Be16(v: u16): (b: Bytes)
    ensures |b| == 2
  {
    var w: int := v;
    [w / 256, w % 256]
  }

  /** The pseudo-header of a segment of len bytes; the length field keeps its low 16 bits. */
  function Pseudo(srcIp: u32, destIp: u32, protocol: u8, len: nat): (b: Bytes)
    ensures |b| == 12
  {
    Be32(srcIp) + Be32(destIp) + [0, protocol] + Be16(len % 65536)
  }

  /** It counts both addresses, the protocol and the length of the segment. */
  lemma PseudoCounts(srcIp: u32, destIp: u32, protocol: u8, len: nat)
    ensures Sum16(Pseudo(srcIp, destIp, protocol, len)) ==
            srcIp / 65536 + srcIp % 65536 + destIp / 65536 + destIp % 65536 + protocol + len % 65536
  {
    Be32Counts(srcIp);
    Be32Counts(destIp);
    var low: u16 := len % 65536;
    assert Sum16(Be16(low)) == low;
    assert Sum16([0, protocol]) == protocol;
    hide Be32, Be16, Sum16;
    PiecesSum(Be32(srcIp), Be32(destIp), [0, protocol]);
    SumConcat(Be32(srcIp) + Be32(destIp) + [0, protocol], Be16(low));
  }

  lemma Be32Counts(v: u32)
    ensures Sum16(Be32(v)) == v / 65536 + v % 65536
  {
    var b, w: int := Be32(v), v;
    assert b[2..] == [w / 256 % 256, w % 256] && b[2..][2..] == [];
    assert w / 65536 == 256 * (w / 16777216) + w / 65536 % 256;
    assert w / 256 == 256 * (w / 65536) + w / 256 % 256 && w == 256 * (w / 256) + w % 256;
    assert Sum16(b[2..]) == 256 * (w / 256 % 256) + w % 256;
  }

  const TCP: u8 := 6
  const UDP: u8 := 17

  lemma PiecesSum(pseudo: Bytes, hdr: Bytes, payload: Bytes)
    requires |pseudo| % 2 == 0 && |hdr| % 2 == 0
    ensures Sum16(pseudo + hdr + payload) == Sum16(pseudo) + Sum16(hdr) + Sum16(payload)
  {
    SumConcat(pseudo + hdr, payload);
    SumConcat(pseudo, hdr);
  }

  method SegmentSum(pseudo: Bytes, hdr: Bytes, payload: Bytes) returns (folded: u16)
    ensures folded == Folded32(Sum16(pseudo) + Sum16(hdr) + Sum16(payload))
  {
    WrappedSums(Sum16(pseudo), Sum16(hdr), Sum16(payload));
    hide Low32, Residue;
    var sum := Accumulate(pseudo, 0);
    sum := Accumulate(hdr, sum);
    sum := Accumulate(payload, sum);
    folded := Fold(sum);
  }

  lemma WrappedSums(a: nat, b: nat, c: nat)
    ensures Low32(Low32(Low32(0 + a) + b) + c) == Low32(a + b + c)
  {
    LowTwice(a, b);
    LowTwice(a + b, c);
    hide Low32;
    assert 0 + a == a;
  }

  lemma LowTwice(a: nat, b: nat)
    ensures Low32(Low32(a) + b) == Low32(a + b)
  {
  }

  /** What the words of a header of this length take in: an odd one reads one byte past its
      end. */
  function WordsSpan(len: nat): nat {
    (len + 1) / 2 * 2
  }

  /** net_tcp_checksum: summed in pieces, with an even header it is the checksum of
      pseudo-header, header and payload put together exactly when the words sum to less than
      2^32, as they always do up to 131062 bytes. memory is what can be read at the header. */
  method TcpChecksum(srcIp: u32, destIp: u32, memory: Bytes, tcpLen: u16, payload: Bytes) returns (c: u16)
    requires WordsSpan(tcpLen) <= |memory| && |payload| <= 65535
    ensures var pseudo := Pseudo(srcIp, destIp, TCP, tcpLen + |payload|);
            c == 65535 - Folded32(Sum16(pseudo) + Sum16(memory[..WordsSpan(tcpLen)]) + Sum16(payload))
    ensures var all := Pseudo(srcIp, destIp, TCP, tcpLen + |payload|) + memory[..tcpLen] + payload;
            && (tcpLen % 2 == 0 ==> (c == Check(all) <==> Sum16(all) < 0x1_0000_0000))
            && (tcpLen % 2 == 0 && tcpLen + |payload| <= 131062 ==> c == Check(all))
  {
    var pseudo := Pseudo(srcIp, destIp, TCP, tcpLen + |payload|);
    SegmentSums(pseudo, memory, tcpLen, payload);
    var folded := SegmentSum(pseudo, memory[..WordsSpan(tcpLen)], payload);
    c := 65535 - folded;
  }

  /** The sum of a segment with an even header, and when 32 bits hold it. */
  lemma SegmentSums(pseudo: Bytes, memory: Bytes, tcpLen: nat, payload: Bytes)
    requires |pseudo| == 12 && tcpLen <= 65535 && WordsSpan(tcpLen) <= |memory| && |payload| <= 65535
    ensures tcpLen % 2 == 0 ==>
              var all := pseudo + memory[..tcpLen] + payload;
              && WordsSpan(tcpLen) == tcpLen
              && Sum16(all) == Sum16(pseudo) + Sum16(memory[..tcpLen]) + Sum16(payload)
              && (Folded32(Sum16(all)) == Residue(Sum16(all)) <==> Sum16(all) < 0x1_0000_0000)
              && (tcpLen + |payload| <= 131062 ==> Sum16(all) < 0x1_0000_0000)
  {
    if tcpLen % 2 == 0 {
      EvenSpan(tcpLen);
      var all := pseudo + memory[..tcpLen] + payload;
      assert |all| == 12 + tcpLen + |payload|;
      PiecesSum(pseudo, memory[..tcpLen], payload);
      SumFits(all);
      hide Sum16, Folded32, Residue, WordsSpan;
      WrapLosesIff(Sum16(all));
    }
  }

  lemma EvenSpan(len: nat)
    requires len % 2 == 0
    ensures WordsSpan(len) == len
  {
  }

  lemma SumFits(b: Bytes)
    requires |b| <= 131082
    ensures Sum16(b) < 65535 * 0x1_0000_0000 && (|b| <= 131074 ==> Sum16(b) < 0x1_0000_0000)
  {
    SumBound(b);
    hide Sum16;
  }

  /** net_udp_checksum: the same, but 0 is sent as 0xFFFF. */
  method UdpChecksum(srcIp: u32, destIp: u32, hdr: Bytes, payload: Bytes) returns (c: u16)
    requires |hdr| == 8 && |payload| <= 65535
    ensures c == UdpValue(Pseudo(srcIp, destIp, UDP, 8 + |payload|) + hdr + payload)
  {
    SegmentSums(Pseudo(srcIp, destIp, UDP, 8 + |payload|), hdr, 8, payload);
    assert hdr[..8] == hdr;
    var folded := SegmentSum(Pseudo(srcIp, destIp, UDP, 8 + |payload|), hdr, payload);
    c := 65535 - folded;
    if c == 0 {
      c := 0xFFFF;
    }
  }

  function UdpValue(b: Bytes): u16 {
    if Check(b) == 0 then 0xFFFF else Check(b)
  }

  /** A segment with the value written into its zero field verifies: for TCP the checksum, for
      UDP the value sent instead, which is never 0. at is the even offset of the field in the
      header. */
  lemma SegmentVerifies(pseudo: Bytes, hdr: Bytes, payload: Bytes, at: nat)
    requires |pseudo| == 12 && |hdr| % 2 == 0 && at % 2 == 0 && at + 1 < |hdr| && WordAt(hdr, at) == 0
    ensures var b := pseudo + hdr + payload;
            && UdpValue(b) != 0
            && Check(pseudo + WithWord(hdr, at, Check(b)) + payload) == 0
            && Check(pseudo + WithWord(hdr, at, UdpValue(b)) + payload) == 0
  {
    var b := pseudo + hdr + payload;
    assert WordAt(b, 12 + at) == 0;
    FieldInside(pseudo, hdr, payload, at, Check(b));
    WrittenChecksumVerifies(b, 12 + at);
    FieldInside(pseudo, hdr, payload, at, UdpValue(b));
    if Check(b) == 0 {
      SumWithWord(b, 12 + at, 0xFFFF);
      ResidueFull(Sum16(b));
      ModOfSum(Sum16(b), 1);
      ResidueFull(Sum16(b) + 0xFFFF);
    }
  }

  lemma FieldInside(pseudo: Bytes, hdr: Bytes, payload: Bytes, at: nat, w: u16)
    requires at + 1 < |hdr|
    ensures pseudo + WithWord(hdr, at, w) + payload == WithWord(pseudo + hdr + payload, |pseudo| + at, w)
  {
  }
}

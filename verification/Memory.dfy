// Block copies and string helpers (src/string.c). All pointers point into one memory of
// bytes, so source and destination may overlap in any way; index 0 is word aligned.

module Memory {
  import opened Words

  type Bytes = seq<u8>

  predicate WordAligned(p: nat) {
    p % 4 == 0
  }

  predicate InBounds(m: Bytes, p: nat, n: nat) {
    p + n <= |m|
  }

  /** Memory m after n bytes at s were moved to d as if through a separate buffer. */
  function Moved(m: Bytes, d: nat, s: nat, n: nat): (r: Bytes)
    requires InBounds(m, d, n) && InBounds(m, s, n)
    ensures |r| == |m|
  {
    m[..d] + m[s..s + n] + m[d + n..]
  }

  /** Byte by byte: the destination holds the old source, everything else is unchanged. */
  lemma MovedByte(m: Bytes, d: nat, s: nat, n: nat, k: nat)
    requires InBounds(m, d, n) && InBounds(m, s, n) && k < |m|
    ensures Moved(m, d, s, n)[k] == if d <= k < d + n then m[s + k - d] else m[k]
  {
  }

  function Filled(m: Bytes, p: nat, c: u8, n: nat): (r: Bytes)
    requires InBounds(m, p, n)
    ensures |r| == |m|
  {
    m[..p] + seq(n, _ => c) + m[p + n..]
  }

  /** What a fill means, byte by byte. */
  lemma FilledByte(m: Bytes, p: nat, c: u8, n: nat, k: nat)
    requires InBounds(m, p, n) && k < |m|
    ensures Filled(m, p, c, n)[k] == if p <= k < p + n then c else m[k]
  {
  }

  /** Moving there and back restores the source, whatever the overlap. */
  lemma MoveBack(m: Bytes, d: nat, s: nat, n: nat)
    requires InBounds(m, d, n) && InBounds(m, s, n)
    ensures Moved(Moved(m, d, s, n), s, d, n)[s..s + n] == m[s..s + n]
  {
    var there := Moved(m, d, s, n);
    assert there[d..d + n] == m[s..s + n];
  }

  /** m after four bytes from s were stored at d. */
  function WordStored(m: Bytes, d: nat, b0: u8, b1: u8, b2: u8, b3: u8): Bytes
    requires InBounds(m, d, 4)
  {
    m[d := b0][d + 1 := b1][d + 2 := b2][d + 3 := b3]
  }

  /** One 32-bit store of a 32-bit load. */
  method CopyWord(mem: array<u8>, d: nat, s: nat)
    requires d + 4 <= mem.Length && s + 4 <= mem.Length
    modifies mem
    ensures mem[..] == WordStored(old(mem[..]), d, old(mem[s]), old(mem[s + 1]), old(mem[s + 2]), old(mem[s + 3]))
  {
    var b0, b1, b2, b3 := mem[s], mem[s + 1], mem[s + 2], mem[s + 3];
    mem[d], mem[d + 1], mem[d + 2], mem[d + 3] := b0, b1, b2, b3;
  }

  // ---- Copying upwards ---------------------------------------------------

  /** Memory m after n bytes were copied one by one from s up to d: where the regions overlap,
      later bytes may read what earlier ones wrote. */
  function Forward(m: Bytes, d: nat, s: nat, n: nat): (r: Bytes)
    requires InBounds(m, d, n) && InBounds(m, s, n)
    ensures |r| == |m|
  {
    if n == 0 then m
    else
      var before := Forward(m, d, s, n - 1);
      before[d + n - 1 := before[s + n - 1]]
  }

  lemma ForwardNothing(m: Bytes, d: nat, s: nat)
    requires InBounds(m, d, 0) && InBounds(m, s, 0)
    ensures Forward(m, d, s, 0) == m
  {
  }

  lemma ForwardOneMore(m: Bytes, d: nat, s: nat, n: nat)
    requires InBounds(m, d, n + 1) && InBounds(m, s, n + 1)
    ensures var f := Forward(m, d, s, n); Forward(m, d, s, n + 1) == f[d + n := f[s + n]]
  {
  }

  /** A byte that an upward copy has not reached yet. */
  lemma {:induction false} ForwardLeaves(m: Bytes, d: nat, s: nat, n: nat, k: nat)
    requires InBounds(m, d, n) && InBounds(m, s, n) && k < |m| && !(d <= k < d + n)
    ensures Forward(m, d, s, n)[k] == m[k]
  {
    if n > 0 {
      ForwardLeaves(m, d, s, n - 1, k);
    }
  }

  /** With the destination not inside the source above its start, it is a move. */
  lemma {:induction false} ForwardIsMove(m: Bytes, d: nat, s: nat, n: nat)
    requires InBounds(m, d, n) && InBounds(m, s, n) && (d <= s || s + n <= d)
    ensures Forward(m, d, s, n) == Moved(m, d, s, n)
  {
    if n > 0 {
      ForwardIsMove(m, d, s, n - 1);
      ForwardLeaves(m, d, s, n - 1, s + n - 1);
      MovedOneMore(m, d, s, n - 1);
    }
    hide Moved;
  }

  lemma MovedOneMore(m: Bytes, d: nat, s: nat, n: nat)
    requires InBounds(m, d, n + 1) && InBounds(m, s, n + 1)
    ensures Moved(m, d, s, n)[d + n := m[s + n]] == Moved(m, d, s, n + 1)
  {
    hide Moved;
    var more := Moved(m, d, s, n)[d + n := m[s + n]];
    forall k | 0 <= k < |m| ensures more[k] == Moved(m, d, s, n + 1)[k] {
      MovedByte(m, d, s, n, k);
      MovedByte(m, d, s, n + 1, k);
    }
  }

  /** With the destination inside the source above its start the first source byte comes
      twice: where it belongs, and again that far up. */
  lemma {:induction false} ForwardRepeats(m: Bytes, d: nat, s: nat, n: nat)
    requires InBounds(m, d, n) && InBounds(m, s, n) && s < d < s + n
    ensures Forward(m, d, s, n)[d + (d - s)] == m[s]
  {
    var gap := d - s;
    ForwardAt(m, d, s, n, gap);
    ForwardAt(m, d, s, gap, 0);
    ForwardLeaves(m, d, s, 0, s);
  }

  /** The byte written at step i is the one found at s + i by then. */
  lemma {:induction false} ForwardAt(m: Bytes, d: nat, s: nat, n: nat, i: nat)
    requires InBounds(m, d, n) && InBounds(m, s, n) && i < n
    ensures Forward(m, d, s, n)[d + i] == Forward(m, d, s, i)[s + i]
  {
    if i < n - 1 {
      ForwardAt(m, d, s, n - 1, i);
    }
  }

  function OneAt(size: nat, s: nat): (m: Bytes)
    requires s < size
    ensures |m| == size && m[s] == 1 && forall k :: 0 <= k < size && k != s ==> m[k] == 0
  {
    seq(size, k => if k == s then 1 else 0)
  }

  /** An upward copy is a move for every content of the memory exactly when the destination
      is not inside the source above its start. */
  lemma ForwardIsMoveIff(size: nat, d: nat, s: nat, n: nat)
    requires d + n <= size && s + n <= size
    ensures (forall m: Bytes :: |m| == size ==> Forward(m, d, s, n) == Moved(m, d, s, n))
            <==> d <= s || s + n <= d
  {
    hide Forward, Moved;
    if d <= s || s + n <= d {
      forall m: Bytes | |m| == size ensures Forward(m, d, s, n) == Moved(m, d, s, n) {
        ForwardIsMove(m, d, s, n);
      }
    } else {
      var m := OneAt(size, s);
      ForwardRepeats(m, d, s, n);
      MovedByte(m, d, s, n, d + (d - s));
      assert Forward(m, d, s, n)[d + (d - s)] != Moved(m, d, s, n)[d + (d - s)];
    }
  }

  /** A whole word at a time is the same, as no source byte of a word lies among those
      written just before it. */
  lemma ForwardWord(m: Bytes, d: nat, s: nat, n: nat)
    requires InBounds(m, d, n + 4) && InBounds(m, s, n + 4) && (d <= s || s + 4 <= d)
    ensures var f := Forward(m, d, s, n);
            WordStored(f, d + n, f[s + n], f[s + n + 1], f[s + n + 2], f[s + n + 3]) == Forward(m, d, s, n + 4)
  {
    var f, f1 := Forward(m, d, s, n), Forward(m, d, s, n + 1);
    var f2, f3 := Forward(m, d, s, n + 2), Forward(m, d, s, n + 3);
    assert f1 == f[d + n := f[s + n]];
    assert f2 == f1[d + n + 1 := f1[s + n + 1]] && f1[s + n + 1] == f[s + n + 1];
    assert f3 == f2[d + n + 2 := f2[s + n + 2]] && f2[s + n + 2] == f[s + n + 2];
    assert Forward(m, d, s, n + 4) == f3[d + n + 3 := f3[s + n + 3]] && f3[s + n + 3] == f[s + n + 3];
  }

  // ---- Copying downwards -------------------------------------------------

  /** Going down from the end, one byte further. */
  lemma MovedDown(m: Bytes, d: nat, s: nat, n: nat)
    requires 0 < d && 0 < s < d && InBounds(m, d, n) && InBounds(m, s, n)
    ensures Moved(m, d, s, n)[s - 1] == m[s - 1]
    ensures Moved(m, d, s, n)[d - 1 := m[s - 1]] == Moved(m, d - 1, s - 1, n + 1)
  {
  }

  lemma MovedDownWord(m: Bytes, d: nat, s: nat, n: nat)
    requires 4 <= s && s + 4 <= d && InBounds(m, d, n) && InBounds(m, s, n)
    ensures Moved(m, d, s, n)[s - 4] == m[s - 4] && Moved(m, d, s, n)[s - 3] == m[s - 3]
    ensures Moved(m, d, s, n)[s - 2] == m[s - 2] && Moved(m, d, s, n)[s - 1] == m[s - 1]
    ensures WordStored(Moved(m, d, s, n), d - 4, m[s - 4], m[s - 3], m[s - 2], m[s - 1])
            == Moved(m, d - 4, s - 4, n + 4)
  {
    var x := Moved(m, d, s, n);
    var x1: Bytes := x[d - 1 := m[s - 1]];
    var x2: Bytes := x1[d - 2 := m[s - 2]];
    var x3: Bytes := x2[d - 3 := m[s - 3]];
    assert WordStored(x, d - 4, m[s - 4], m[s - 3], m[s - 2], m[s - 1]) == x3[d - 4 := m[s - 4]];
    MovedDown(m, d, s, n);
    MovedDown(m, d - 1, s - 1, n + 1);
    MovedDown(m, d - 2, s - 2, n + 2);
    MovedDown(m, d - 3, s - 3, n + 3);
  }

  /** memcpy, words where both pointers are aligned: in every case the upward copy of bytes,
      and so a move unless the destination is inside the source above its start. */
  method MemCpy(mem: array<u8>, dest: nat, src: nat, len: nat)
    requires InBounds(mem[..], dest, len) && InBounds(mem[..], src, len)
    modifies mem
    ensures mem[..] == Forward(old(mem[..]), dest, src, len)
    ensures dest <= src || src + len <= dest ==> mem[..] == Moved(old(mem[..]), dest, src, len)
  {
    hide Forward, Moved, WordStored;
    ghost var was := mem[..];
    if dest <= src || src + len <= dest {
      ForwardIsMove(was, dest, src, len);
    }
    ForwardNothing(was, dest, src);
    var d: nat, s: nat, n: nat := dest, src, len;
    if WordAligned(d) && WordAligned(s) {
      while n >= 4
        invariant d == dest + len - n && s == src + len - n && n <= len
        invariant mem[..] == Forward(was, dest, src, len - n)
      {
        if src < dest {
          AlignedApart(src, dest);
        }
        ForwardWord(was, dest, src, len - n);
        SeqOfArray(mem, s);
        CopyWord(mem, d, s);
        d, s, n := d + 4, s + 4, n - 4;
      }
    }
    while n > 0
      invariant d == dest + len - n && s == src + len - n && n <= len
      invariant mem[..] == Forward(was, dest, src, len - n)
    {
      ForwardOneMore(was, dest, src, len - n);
      ghost var before := mem[..];
      mem[d] := mem[s];
      assert mem[..] == before[d := before[s]];
      d, s, n := d + 1, s + 1, n - 1;
    }
  }

  lemma AlignedApart(s: nat, d: nat)
    requires WordAligned(s) && WordAligned(d) && s < d
    ensures s + 4 <= d && (s >= 4 ==> WordAligned(s - 4) && WordAligned(d - 4))
  {
  }

  lemma MovedNothing(m: Bytes, d: nat, s: nat)
    requires InBounds(m, d, 0) && InBounds(m, s, 0)
    ensures Moved(m, d, s, 0) == m
  {
  }

  lemma SeqOfArray(mem: array<u8>, s: nat)
    requires s + 4 <= mem.Length
    ensures mem[s] == mem[..][s] && mem[s + 1] == mem[..][s + 1]
    ensures mem[s + 2] == mem[..][s + 2] && mem[s + 3] == mem[..][s + 3]
  {
  }

  /** memmove: every length, overlap and alignment. */
  method MemMove(mem: array<u8>, dest: nat, src: nat, len: nat)
    requires InBounds(mem[..], dest, len) && InBounds(mem[..], src, len)
    modifies mem
    ensures mem[..] == Moved(old(mem[..]), dest, src, len)
  {
    if dest < src {
      MemCpy(mem, dest, src, len);
    } else if dest > src {
      MoveDownward(mem, dest, src, len);
    }
  }

  /** The branch of memmove for a destination above the source, from the last byte down. */
  method MoveDownward(mem: array<u8>, dest: nat, src: nat, len: nat)
    requires InBounds(mem[..], dest, len) && InBounds(mem[..], src, len) && dest > src
    modifies mem
    ensures mem[..] == Moved(old(mem[..]), dest, src, len)
  {
    hide Moved, WordAligned, WordStored;
    ghost var was := mem[..];
    var d: nat, s: nat, n: nat := dest + len, src + len, len;
    MovedNothing(was, d, s);
    if WordAligned(d) && WordAligned(s) {
      while n >= 4
        invariant d == dest + n && s == src + n && n <= len && WordAligned(d) && WordAligned(s)
        invariant mem[..] == Moved(was, d, s, len - n)
      {
        AlignedApart(s, d);
        MovedDownWord(was, d, s, len - n);
        d, s := d - 4, s - 4;
        SeqOfArray(mem, s);
        CopyWord(mem, d, s);
        n := n - 4;
      }
    }
    while n > 0
      invariant d == dest + n && s == src + n && n <= len
      invariant mem[..] == Moved(was, d, s, len - n)
    {
      MovedDown(was, d, s, len - n);
      d, s := d - 1, s - 1;
      ghost var before := mem[..];
      mem[d] := mem[s];
      assert mem[..] == before[d := before[s]];
      n := n - 1;
    }
  }

  method MemSet(mem: array<u8>, p: nat, c: u8, len: nat)
    requires InBounds(mem[..], p, len)
    modifies mem
    ensures mem[..] == Filled(old(mem[..]), p, c, len)
  {
    ghost var was := mem[..];
    var d: nat, n: nat := p, len;
    if WordAligned(d) {
      while n >= 4
        invariant d == p + len - n && n <= len
        invariant forall k :: 0 <= k < mem.Length ==> mem[k] == if p <= k < d then c else was[k]
      {
        mem[d], mem[d + 1], mem[d + 2], mem[d + 3] := c, c, c, c;
        d, n := d + 4, n - 4;
      }
    }
    while n > 0
      invariant d == p + len - n && n <= len
      invariant forall k :: 0 <= k < mem.Length ==> mem[k] == if p <= k < d then c else was[k]
    {
      mem[d] := c;
      d, n := d + 1, n - 1;
    }
    assert mem[..] == Filled(was, p, c, len);
  }

  // ---- Strings -----------------------------------------------------------

  /** The length of the string at the start of m: up to the first zero byte. */
  function Length(m: Bytes): (n: nat)
    ensures n <= |m|
    ensures 0 !in m[..n] && (n < |m| ==> m[n] == 0)
  {
    if m == [] || m[0] == 0 then 0 else 1 + Length(m[1..])
  }

  /** strncpy as it is written: a terminator among the first n bytes does not count against n,
      so one byte more than n is written then. text is the source up to its terminator. */
  method StrNCpy(mem: array<u8>, dest: nat, text: Bytes, len: nat)
    requires 0 !in text
    requires InBounds(mem[..], dest, if |text| < len then len + 1 else len)
    modifies mem
    ensures mem[..] ==
            if |text| < len then old(mem[..dest]) + text + seq(len + 1 - |text|, _ => 0) + old(mem[dest + len + 1..])
            else old(mem[..dest]) + text[..len] + old(mem[dest + len..])
  {
    ghost var was := mem[..];
    var d: nat, i: nat, n: nat := dest, 0, len;
    while n > 0
      invariant 0 <= i <= |text| && i == len - n && d == dest + i && n >= 0
      invariant forall k :: 0 <= k < mem.Length ==> mem[k] == if dest <= k < d then text[k - dest] else was[k]
      decreases n
    {
      var c: u8 := if i < |text| then text[i] else 0;
      mem[d] := c;
      d, i := d + 1, i + 1;
      if c == 0 {
        break;
      }
      n := n - 1;
    }
    while n > 0
      invariant n >= 0
      invariant n > 0 ==> |text| < len && d == dest + len + 1 - n
      invariant n == 0 && |text| < len ==> d == dest + len + 1
      invariant forall k :: 0 <= k < mem.Length ==>
                  mem[k] == if dest <= k < d then (if k - dest < |text| then text[k - dest] else 0) else was[k]
      invariant |text| >= len ==> d == dest + len
    {
      mem[d] := 0;
      d, n := d + 1, n - 1;
    }
    if |text| < len {
      assert mem[..] == was[..dest] + text + seq(len + 1 - |text|, _ => 0) + was[dest + len + 1..];
    } else {
      assert mem[..] == was[..dest] + text[..len] + was[dest + len..];
    }
  }

  datatype Found = NotFound | At(pos: nat)

  predicate OccursAt(hay: Bytes, needle: Bytes, i: nat) {
    i + |needle| <= |hay| && hay[i..i + |needle|] == needle
  }

  lemma NoOccurrence(hay: Bytes, needle: Bytes, i: nat, k: nat)
    requires k < |needle| && (i + k >= |hay| || hay[i + k] != needle[k])
    ensures !OccursAt(hay, needle, i)
  {
    if i + |needle| <= |hay| {
      assert hay[i..i + |needle|][k] == hay[i + k];
    }
  }

  /** strstr: the first occurrence, or none if there is none. */
  method StrStr(hay: Bytes, needle: Bytes) returns (r: Found)
    ensures r.At? ==> OccursAt(hay, needle, r.pos) && forall j: nat :: j < r.pos ==> !OccursAt(hay, needle, j)
    ensures r.NotFound? ==> forall j: nat :: !OccursAt(hay, needle, j)
  {
    if needle == [] {
      return At(0);
    }
    var i := 0;
    while i < |hay|
      invariant i <= |hay| && forall j: nat :: j < i ==> !OccursAt(hay, needle, j)
    {
      if hay[i] == needle[0] {
        var k := 0;
        while i + k < |hay| && k < |needle| && hay[i + k] == needle[k]
          invariant k <= |needle| && i + k <= |hay| && (forall j :: 0 <= j < k ==> hay[i + j] == needle[j])
        {
          k := k + 1;
        }
        if k == |needle| {
          assert hay[i..i + k] == needle;
          return At(i);
        }
        NoOccurrence(hay, needle, i, k);
      } else {
        NoOccurrence(hay, needle, i, 0);
      }
      i := i + 1;
    }
    return NotFound;
  }

  // ---- Hexadecimal numbers -----------------------------------------------

  function HexValue(c: u8): int {
    if 48 <= c <= 57 then c - 48
    else if 65 <= c <= 70 then c - 65 + 10
    else if 97 <= c <= 102 then c - 97 + 10
    else -1
  }

  /** The number a string of hexadecimal digits stands for. */
  function HexNumber(t: Bytes): nat
    requires forall c :: c in t ==> HexValue(c) >= 0
  {
    if t == [] then 0 else 16 * HexNumber(t[..|t| - 1]) + HexValue(t[|t| - 1])
  }

  /** The digits of a number, in either case. */
  function HexText(v: nat, upper: bool): (t: Bytes)
    ensures t != []
  {
    var d := v % 16;
    var c: u8 := if d < 10 then 48 + d else if upper then 55 + d else 87 + d;
    if v < 16 then [c] else HexText(v / 16, upper) + [c]
  }

  /** Reading back what stands for a number gives it. */
  lemma {:induction false} HexRoundTrip(v: nat, upper: bool)
    ensures AllHex(HexText(v, upper)) && HexNumber(HexText(v, upper)) == v
    ensures forall c :: c in HexText(v, upper) ==> !EndsToken(c)
  {
    if v >= 16 {
      HexRoundTrip(v / 16, upper);
      var t := HexText(v, upper);
      assert t[..|t| - 1] == HexText(v / 16, upper);
    }
  }

  /** A number of 32 bits after blanks, with or without 0x, in front of the end of its token. */
  lemma TokenIsFound(blanks: Bytes, prefix: Bytes, v: u32, upper: bool, rest: Bytes)
    requires (forall c :: c in blanks ==> IsBlank(c)) && prefix in {[], [48, 120], [48, 88]}
    requires rest == [] || EndsToken(rest[0])
    ensures var t := blanks + (prefix + HexText(v, upper) + rest);
            var from := DigitsFrom(t);
            from == |blanks| + |prefix| && t[from..TokenEnd(t, from)] == HexText(v, upper)
  {
    hide *;
    var text := HexText(v, upper);
    HexRoundTrip(v, upper);
    NoPrefix(v, upper);
    PrefixIs(blanks, prefix, text, rest);
    assert blanks + prefix + text + rest == blanks + (prefix + text + rest);
    TokenIs(blanks + prefix, text, rest);
  }

  lemma PrefixIs(blanks: Bytes, prefix: Bytes, text: Bytes, rest: Bytes)
    requires (forall c :: c in blanks ==> IsBlank(c)) && prefix in {[], [48, 120], [48, 88]}
    requires text != [] && (rest == [] || EndsToken(rest[0]))
    requires forall c :: c in text ==> !EndsToken(c) && c != 120 && c != 88
    ensures DigitsFrom(blanks + (prefix + text + rest)) == |blanks| + |prefix|
  {
    var u := prefix + text + rest;
    assert text[0] in text && (|text| > 1 ==> text[1] in text);
    assert prefix == [] ==> u[0] == text[0] && (|u| > 1 ==> u[1] == if |text| > 1 then text[1] else rest[0]);
    BlanksAre(blanks, u);
    assert (blanks + u)[|blanks|] == u[0] && (|u| > 1 ==> (blanks + u)[|blanks| + 1] == u[1]);
  }

  lemma TokenIs(front: Bytes, text: Bytes, rest: Bytes)
    requires (forall c :: c in text ==> !EndsToken(c)) && (rest == [] || EndsToken(rest[0]))
    ensures var t := front + text + rest; t[|front|..TokenEnd(t, |front|)] == text
  {
    var t := front + text + rest;
    var to := |front| + |text|;
    forall i | |front| <= i < to ensures !EndsToken(t[i]) {
      assert t[i] == text[i - |front|];
    }
    assert to < |t| ==> t[to] == rest[0];
    EndIs(t, |front|, to);
  }

  lemma {:induction false} BlanksAre(blanks: Bytes, t: Bytes)
    requires (forall c :: c in blanks ==> IsBlank(c)) && t != [] && !IsBlank(t[0])
    ensures SkipBlanks(blanks + t) == |blanks|
  {
    if blanks == [] {
      assert blanks + t == t;
    } else {
      assert blanks[0] in blanks && (blanks + t)[1..] == blanks[1..] + t;
      BlanksAre(blanks[1..], t);
    }
  }

  /** No number is written as a 0 and an x. */
  lemma {:induction false} NoPrefix(v: nat, upper: bool)
    ensures forall c :: c in HexText(v, upper) ==> c != 120 && c != 88
  {
    if v >= 16 {
      NoPrefix(v / 16, upper);
    }
  }

  lemma {:induction false} EndIs(t: Bytes, from: nat, to: nat)
    requires from <= to <= |t| && (to < |t| ==> EndsToken(t[to])) && forall i :: from <= i < to ==> !EndsToken(t[i])
    ensures TokenEnd(t, from) == to
    decreases |t| - from
  {
    if from < to {
      EndIs(t, from + 1, to);
    }
  }

  predicate IsBlank(c: u8) {
    c == 32 || c == 9
  }

  predicate EndsToken(c: u8) {
    c == 32 || c == 9 || c == 13 || c == 10
  }

  /** Where the digits of s_htoi start: after blanks and an 0x. */
  function SkipBlanks(t: Bytes): (n: nat)
    ensures n <= |t| && (n < |t| ==> !IsBlank(t[n])) && forall i :: 0 <= i < n ==> IsBlank(t[i])
  {
    if t == [] || !IsBlank(t[0]) then 0 else 1 + SkipBlanks(t[1..])
  }

  function DigitsFrom(t: Bytes): (n: nat)
    ensures n <= |t|
  {
    var b := SkipBlanks(t);
    if b + 1 < |t| && t[b] == 48 && (t[b + 1] == 120 || t[b + 1] == 88) then b + 2 else b
  }

  function TokenEnd(t: Bytes, from: nat): (n: nat)
    requires from <= |t|
    ensures from <= n <= |t| && (n < |t| ==> EndsToken(t[n])) && forall i :: from <= i < n ==> !EndsToken(t[i])
    decreases |t| - from
  {
    if from == |t| || EndsToken(t[from]) then from else TokenEnd(t, from + 1)
  }

  lemma LowOfSum(a: nat, q: nat)
    ensures Low32(a + q * 0x1_0000_0000) == Low32(a)
  {
    var c := a + q * 0x1_0000_0000;
    assert c - Low32(c) == c / 0x1_0000_0000 * 0x1_0000_0000;
    assert a - Low32(a) == a / 0x1_0000_0000 * 0x1_0000_0000;
  }

  /** One more digit shifted into a 32-bit word. */
  lemma ShiftDigit(n: nat, d: nat)
    requires d < 16
    ensures Low32(16 * n + d) == Low32(16 * Low32(n)) + d
  {
    var q, v := n / 0x1_0000_0000, Low32(n);
    assert 16 * n + d == 16 * v + d + 16 * q * 0x1_0000_0000;
    LowOfSum(16 * v + d, 16 * q);
    ShiftWord(v, d);
    hide Low32;
  }

  lemma ShiftWord(v: u32, d: nat)
    requires d < 16
    ensures Low32(16 * v + d) == Low32(16 * v) + d
  {
    var top, rest := v / 0x1000_0000, v % 0x1000_0000;
    assert 16 * v == 16 * rest + top * 0x1_0000_0000;
    LowOfSum(16 * rest, top);
    LowOfSum(16 * rest + d, top);
  }

  /** Shifting left by four leaves room for a digit. */
  lemma LowDigitFree(v: u32)
    ensures Low32(16 * v) <= 0xFFFF_FFF0
  {
    assert 16 * v == Low32(16 * v) + (16 * v) / 0x1_0000_0000 * 0x1_0000_0000;
  }

  predicate AllHex(t: Bytes) {
    forall c :: c in t ==> HexValue(c) >= 0
  }

  lemma NextDigit(t: Bytes, from: nat, i: nat, v: u32)
    requires from <= i < |t| && AllHex(t[from..i]) && HexValue(t[i]) >= 0 && v == Low32(HexNumber(t[from..i]))
    ensures AllHex(t[from..i + 1]) && Low32(16 * v) + HexValue(t[i]) == Low32(HexNumber(t[from..i + 1]))
  {
    hide Low32;
    var read := t[from..i + 1];
    assert read == t[from..i] + [t[i]];
    assert read[..|read| - 1] == t[from..i];
    ShiftDigit(HexNumber(t[from..i]), HexValue(t[i]));
  }

  /** The digit loop of s_htoi, from index from to the end of the token. */
  method ReadDigits(t: Bytes, from: nat) returns (ok: bool, value: u32, end: nat)
    requires from <= |t|
    ensures var digits := t[from..TokenEnd(t, from)];
            && (ok <==> digits != [] && AllHex(digits))
            && (ok ==> end == TokenEnd(t, from) && value == Low32(HexNumber(digits)))
            && (!ok ==> value == 0 && end == 0)
  {
    ghost var upTo := TokenEnd(t, from);
    hide HexNumber, Low32;
    assert t[from..from] == [];
    var str, found := from, 0;
    value := 0;
    EmptyIsZero();
    while str < |t| && !EndsToken(t[str])
      invariant from <= str <= upTo && found == str - from
      invariant AllHex(t[from..str]) && value == Low32(HexNumber(t[from..str]))
    {
      var add := HexValue(t[str]);
      if add < 0 {
        assert t[str] in t[from..upTo];
        return false, 0, 0;
      }
      NextDigit(t, from, str, value);
      LowDigitFree(value);
      value := Low32(16 * value) + add;
      str, found := str + 1, found + 1;
    }
    if found == 0 {
      return false, 0, 0;
    }
    return true, value, str;
  }

  lemma EmptyIsZero()
    ensures Low32(HexNumber([])) == 0
  {
  }

  /** s_htoi on the text before the terminator: the token after blanks and an optional 0x, read
      as a hexadecimal number modulo 2^32; refused exactly when it is empty or holds another
      character. end is where the caller's pointer is left. */
  method HexToInt(t: Bytes) returns (ok: bool, value: u32, end: nat)
    ensures var digits := t[DigitsFrom(t)..TokenEnd(t, DigitsFrom(t))];
            && (ok <==> digits != [] && AllHex(digits))
            && (ok ==> end == TokenEnd(t, DigitsFrom(t)) && value == Low32(HexNumber(digits)))
            && (!ok ==> value == 0 && end == 0)
  {
    hide TokenEnd, HexNumber, Low32;
    var str := 0;
    while str < |t| && IsBlank(t[str])
      invariant str <= SkipBlanks(t)
    {
      str := str + 1;
    }
    if str + 1 < |t| && t[str] == 48 && (t[str + 1] == 120 || t[str + 1] == 88) {
      str := str + 2;
    }
    ok, value, end := ReadDigits(t, str);
  }
}

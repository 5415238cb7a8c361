// The JSON reader's cursor moved in place (src/json_lite.c), and the writer's buffers
// (src/api_v1.c). Each method is tied to the functions of Json.

module JsonRuntime {
  import opened Words
  import opened Json

  predicate AllDigits(run: Text) {
    forall i :: 0 <= i < |run| ==> IsDigit(run[i])
  }

  /** What fits a buffer of outMax bytes with its terminator. */
  function Clip(content: Text, outMax: nat): (r: Text)
    ensures r <= content && (|content| < outMax ==> r == content)
    ensures |content| >= outMax ==> |r| == if outMax > 0 then outMax - 1 else 0
  {
    if |content| + 1 <= outMax then content else content[..if outMax > 0 then outMax - 1 else 0]
  }

  lemma ClipNothing(outMax: nat)
    ensures Clip([], outMax) == []
  {
  }

  lemma ClipStep(read: Text, ch: char, outMax: nat)
    ensures var out := Clip(read, outMax);
            if |out| + 1 < outMax then out == read && Clip(read + [ch], outMax) == out + [ch]
            else Clip(read + [ch], outMax) == out && out != read + [ch]
  {
  }

  /** One character of a string body, or an escaped one. */
  lemma BodyStep(text: Text, p: nat)
    requires p < |text| && text[p] != '"'
    ensures text[p] != '\\' ==>
              Body(text[p..]) == Body(text[p + 1..]) && Content(text[p..]) == [text[p]] + Content(text[p + 1..])
    ensures text[p] == '\\' && p + 1 == |text| ==> !Body(text[p..]).0
    ensures text[p] == '\\' && p + 1 < |text| ==>
              Body(text[p..]) == Body(text[p + 2..]) && Content(text[p..]) == [text[p + 1]] + Content(text[p + 2..])
  {
    var s := text[p..];
    assert s[1..] == text[p + 1..];
    assert p + 1 < |text| ==> s[2..] == text[p + 2..];
  }

  lemma BodyEnds(text: Text, p: nat)
    requires p <= |text| && (p < |text| ==> text[p] == '"')
    ensures Content(text[p..]) == [] && Body(text[p..]).0 == (p < |text|)
    ensures p < |text| ==> Body(text[p..]).1 == text[p + 1..]
  {
    assert p < |text| ==> text[p..][1..] == text[p + 1..];
  }

  class Cursor {
    const text: Text
    var p: nat

    ghost predicate Valid()
      reads this
    {
      p <= |text|
    }

    /** The text still ahead. */
    ghost function Ahead(): Text
      requires Valid()
      reads this
    {
      text[p..]
    }

    constructor (text: Text)
      ensures Valid() && this.text == text && Ahead() == text
    {
      this.text, p := text, 0;
    }

    method SkipWs()
      requires Valid()
      modifies this
      ensures Valid() && old(p) <= p && Ahead() == Ws(old(Ahead()))
    {
      while p < |text| && IsWs(text[p])
        invariant Valid() && old(p) <= p && Ws(Ahead()) == Ws(old(Ahead()))
      {
        assert text[p..][1..] == text[p + 1..];
        p := p + 1;
      }
    }

    method TakeChar(c: char) returns (ok: bool)
      requires Valid()
      modifies this
      ensures Valid() && old(p) <= p && (ok, Ahead()) == Take(old(Ahead()), c)
      ensures ok ==> old(p) < p
    {
      SkipWs();
      if p < |text| && text[p] == c {
        assert text[p..][1..] == text[p + 1..];
        p := p + 1;
        return true;
      }
      return false;
    }

    method Peek(c: char) returns (ok: bool)
      requires Valid()
      modifies this
      ensures Valid() && old(p) <= p && Ahead() == Ws(old(Ahead())) && ok == Take(old(Ahead()), c).0
    {
      SkipWs();
      ok := p < |text| && text[p] == c;
    }

    /** A string, copied into a buffer of outMax bytes (terminator included) unless copy is
        false. */
    method ReadString(copy: bool, outMax: nat) returns (ok: bool, out: Text, truncated: bool)
      requires Valid()
      modifies this
      ensures Valid() && old(p) <= p && (ok ==> old(p) < p)
      ensures ok == String(old(Ahead())).0 && (ok ==> Ahead() == String(old(Ahead())).1)
      ensures ok && copy ==>
                var content := Content(Take(old(Ahead()), '"').1);
                out == Clip(content, outMax) && truncated == (out != content)
    {
      truncated, out := false, [];
      ok := TakeChar('"');
      if !ok {
        return;
      }
      ok, out, truncated := ReadBody(copy, outMax);
    }

    method ReadBody(copy: bool, outMax: nat) returns (ok: bool, out: Text, truncated: bool)
      requires Valid()
      modifies this
      ensures Valid() && old(p) <= p
      ensures ok == Body(old(Ahead())).0 && (ok ==> Ahead() == Body(old(Ahead())).1)
      ensures ok && copy ==> out == Clip(Content(old(Ahead())), outMax) && truncated == (out != Content(old(Ahead())))
    {
      hide Clip;
      ghost var start := Ahead();
      ghost var read: Text := [];
      out, truncated := [], false;
      ClipNothing(outMax);
      while p < |text| && text[p] != '"'
        invariant Valid() && old(p) <= p
        invariant Body(Ahead()) == Body(start) && Content(start) == read + Content(Ahead())
        invariant copy ==> out == Clip(read, outMax) && truncated == (out != read)
        decreases |text| - p
      {
        BodyStep(text, p);
        var ch := text[p];
        p := p + 1;
        if ch == '\\' {
          if p >= |text| {
            return false, out, truncated;
          }
          ch := text[p];
          p := p + 1;
        }
        hide Body, Content;
        ClipStep(read, ch, outMax);
        Regroup(read, [ch], Content(Ahead()));
        if copy {
          if |out| + 1 < outMax {
            out := out + [ch];
          } else {
            truncated := true;
          }
        }
        read := read + [ch];
      }
      BodyEnds(text, p);
      if p >= |text| {
        return false, out, truncated;
      }
      p := p + 1;
      assert read + [] == read;
      return true, out, truncated;
    }

    /** A run of number characters: its value, and whether it was digits only. */
    method ReadNumber() returns (ok: bool, val: u32, isInt: bool)
      requires Valid()
      modifies this
      ensures Valid() && old(p) <= p && (ok ==> old(p) < p)
      ensures (ok, Ahead()) == Number(old(Ahead()))
      ensures var t := Ws(old(Ahead()));
              ok ==> val == Reading(t[..NumRun(t)]) && (isInt <==> AllDigits(t[..NumRun(t)]))
    {
      hide NumRun, Reading, HasDigit, AllDigits, Number;
      NumberCases(Ahead());
      SkipWs();
      ok, val, isInt := ScanNumber();
    }

    method ScanNumber() returns (ok: bool, val: u32, isInt: bool)
      requires Valid()
      modifies this
      ensures Valid() && p == old(p) + NumRun(old(Ahead())) && Ahead() == old(Ahead())[NumRun(old(Ahead()))..]
      ensures var run := old(Ahead())[..NumRun(old(Ahead()))];
              (val as nat, ok, isInt) == Scanned(run)
      ensures ok ==> old(p) < p
    {
      hide NumRun, Scanned;
      ghost var t := Ahead();
      var start := p;
      var v: nat, digits, plain := 0, false, true;
      NothingScanned();
      while p < |text| && IsNumChar(text[p])
        invariant start <= p <= start + NumRun(t) <= |text| && t == text[start..]
        invariant (v, digits, plain) == Scanned(t[..p - start])
      {
        NextScanned(t, p - start);
        if IsDigit(text[p]) {
          digits := true;
          if v <= NUM_LIMIT {
            v := v * 10 + Digit(text[p]);
          }
        } else {
          plain := false;
        }
        p := p + 1;
      }
      RunEnds(text, start, p);
      ScannedFits(t[..NumRun(t)]);
      return digits, v, plain;
    }

    method TakeLiteral(lit: Text) returns (ok: bool)
      requires Valid()
      modifies this
      ensures Valid() && old(p) <= p && (ok && lit != [] ==> old(p) < p)
      ensures (ok, Ahead()) == Literal(old(Ahead()), lit)
    {
      SkipWs();
      PrefixAt(text, p, lit);
      if |text| - p < |lit| || text[p..p + |lit|] != lit {
        return false;
      }
      p := p + |lit|;
      return true;
    }

    /** true or false. */
    method ReadBool() returns (ok: bool, value: bool)
      requires Valid()
      modifies this
      ensures Valid() && old(p) <= p && (ok ==> old(p) < p)
      ensures var s := old(Ahead());
              && (ok && value <==> Literal(s, "true").0)
              && (ok && !value <==> !Literal(s, "true").0 && Literal(s, "false").0)
              && (ok ==> Ahead() == Literal(s, if value then "true" else "false").1)
              && (!ok ==> Ahead() == Ws(s))
    {
      ghost var s := Ahead();
      WsTwice(s);
      ok := TakeLiteral("true");
      if ok {
        return true, true;
      }
      ok := TakeLiteral("false");
      return ok, false;
    }

    /** jl_skip_at: it always ends, and never passes the end of the text. */
    method SkipAt(depth: nat) returns (ok: bool)
      requires Valid()
      modifies this
      ensures Valid() && old(p) <= p && (ok ==> old(p) < p)
      ensures ok == Skip(old(Ahead()), depth).0 && (ok ==> Ahead() == Skip(old(Ahead()), depth).1)
      decreases |text| - p, 0
    {
      SkipCases(Ahead(), depth);
      hide Skip, Container;
      SkipWs();
      if p >= |text| {
        return false;
      }
      if text[p] == '"' {
        var out, truncated;
        ok, out, truncated := ReadString(false, 0);
        return;
      }
      ok := TakeChar('{');
      if ok {
        ok := SkipContainer('}', true, depth);
        return;
      }
      ok := TakeChar('[');
      if ok {
        ok := SkipContainer(']', false, depth);
        return;
      }
      ok := SkipScalar();
    }

    /** The literals and numbers. */
    method SkipScalar() returns (ok: bool)
      requires Valid() && Ahead() != [] && Ws(Ahead()) == Ahead()
      requires Ahead()[0] != '"' && Ahead()[0] != '{' && Ahead()[0] != '['
      modifies this
      ensures Valid() && old(p) <= p && (ok ==> old(p) < p)
      ensures forall depth ::
                ok == Skip(old(Ahead()), depth).0 && (ok ==> Ahead() == Skip(old(Ahead()), depth).1)
    {
      var value: bool;
      ok, value := ReadBool();
      if ok {
        return;
      }
      ok := TakeLiteral("null");
      if ok {
        return;
      }
      var val, isInt;
      ok, val, isInt := ReadNumber();
    }

    /** jl_skip_container, after the opening bracket. */
    method SkipContainer(close: char, keyed: bool, depth: nat) returns (ok: bool)
      requires Valid()
      modifies this
      ensures Valid() && old(p) <= p && (ok ==> old(p) < p)
      ensures var r := Container(old(Ahead()), close, keyed, depth);
              ok == r.0 && (ok ==> Ahead() == r.1)
      decreases |text| - p, 1
    {
      hide Skip, Take, Key;
      if depth >= MAX_DEPTH {
        return false;
      }
      ok := TakeChar(close);
      if ok {
        return;
      }
      ghost var start := Ahead();
      while true
        invariant Valid() && old(p) <= p
        invariant Elements(Ahead(), close, keyed, depth) == Elements(start, close, keyed, depth)
        decreases |text| - p
      {
        if keyed {
          ok := SkipKey();
          if !ok {
            return;
          }
        }
        ok := SkipAt(depth + 1);
        if !ok {
          return;
        }
        ok := TakeChar(close);
        if ok {
          return;
        }
        ok := TakeChar(',');
        if !ok {
          return;
        }
      }
    }

    method SkipKey() returns (ok: bool)
      requires Valid()
      modifies this
      ensures Valid() && old(p) <= p && (ok ==> old(p) < p)
      ensures ok == Key(old(Ahead())).0 && (ok ==> Ahead() == Key(old(Ahead())).1)
    {
      var out, truncated;
      ok, out, truncated := ReadString(false, 0);
      if ok {
        ok := TakeChar(':');
      }
    }

    /** jl_skip_value on a value of a document. */
    method SkipValue() returns (ok: bool)
      requires Valid()
      modifies this
      ensures Valid() && old(p) <= p
      ensures ok == Skip(old(Ahead()), 0).0 && (ok ==> Ahead() == Skip(old(Ahead()), 0).1)
    {
      ok := SkipAt(0);
    }
  }

  /** Which branch skips what comes after whitespace. */
  lemma SkipCases(s: Text, depth: nat)
    ensures var t := Ws(s);
            && Ws(t) == t && Skip(t, depth) == Skip(s, depth) && (t == [] ==> !Skip(s, depth).0)
            && (t != [] && t[0] == '"' ==> Skip(s, depth) == String(t))
            && (t != [] && t[0] == '{' ==> Skip(s, depth) == Container(t[1..], '}', true, depth))
            && (t != [] && t[0] == '[' ==> Skip(s, depth) == Container(t[1..], ']', false, depth))
  {
    WsTwice(s);
  }

  lemma NumberCases(s: Text)
    ensures var t := Ws(s); Number(s) == (HasDigit(t[..NumRun(t)]), t[NumRun(t)..])
  {
  }

  /** Where no number character follows, the run is over. */
  lemma RunEnds(text: Text, start: nat, p: nat)
    requires start <= p <= |text| && p <= start + NumRun(text[start..]) && (p < |text| ==> !IsNumChar(text[p]))
    ensures p == start + NumRun(text[start..]) && text[p..] == text[start..][NumRun(text[start..])..]
  {
    var t := text[start..];
    assert p < |text| ==> text[p] == t[p - start];
  }

  /** The value read from a run, whether it has a digit, and whether it has nothing else. */
  function Scanned(run: Text): (nat, bool, bool) {
    (Reading(run), HasDigit(run), AllDigits(run))
  }

  lemma NothingScanned()
    ensures Scanned([]) == (0, false, true)
  {
  }

  lemma NextScanned(t: Text, k: nat)
    requires k < |t|
    ensures var (v, digits, plain) := Scanned(t[..k]);
            Scanned(t[..k + 1]) ==
              if !IsDigit(t[k]) then (v, digits, false)
              else (if v <= NUM_LIMIT then v * 10 + Digit(t[k]) else v, true, plain)
  {
    var read := t[..k + 1];
    assert read == t[..k] + [t[k]] && read[..|read| - 1] == t[..k];
    HasDigitAppend(t[..k], t[k]);
  }

  lemma ScannedFits(run: Text)
    ensures Scanned(run).0 <= 655359
  {
    ReadingIsBounded(run);
  }

  lemma PrefixAt(text: Text, p: nat, lit: Text)
    requires p <= |text|
    ensures lit <= text[p..] <==> |text| - p >= |lit| && text[p..p + |lit|] == lit
    ensures lit <= text[p..] ==> text[p..][|lit|..] == text[p + |lit|..]
  {
    if |text| - p >= |lit| {
      assert text[p..][..|lit|] == text[p..p + |lit|];
    }
  }

  lemma HasDigitAppend(run: Text, c: char)
    ensures HasDigit(run + [c]) <==> HasDigit(run) || IsDigit(c)
  {
    if HasDigit(run) {
      var i :| 0 <= i < |run| && IsDigit(run[i]);
      assert (run + [c])[i] == run[i];
    }
    assert (run + [c])[|run|] == c;
  }

  // ---- The writer --------------------------------------------------------

  /** A response buffer of max bytes; its string ends before the terminator. */
  class Buffer {
    const max: nat
    var buf: Text

    /** There is always room for the terminator. */
    predicate Valid()
      reads this
    {
      |buf| < max
    }

    constructor (max: nat)
      requires max > 0
      ensures Valid() && buf == [] && this.max == max
    {
      this.max, buf := max, [];
    }

    /** All of the piece or nothing: nothing exactly if the terminator would not fit behind it. */
    method AppendPiece(piece: Text)
      requires Valid()
      modifies this
      ensures Valid() && buf == Append(old(buf), max, piece)
      ensures buf == old(buf) + piece || buf == old(buf)
      ensures buf == old(buf) + piece <==> piece == [] || |old(buf)| + |piece| < max
    {
      if |buf| + |piece| + 1 > max {
        return;
      }
      buf := buf + piece;
    }

    /** api_v1_append_u32: digits are produced last first, then turned round. */
    method AppendU32(v: u32)
      requires Valid()
      modifies this
      ensures Valid() && buf == Append(old(buf), max, Decimal(v))
    {
      var tmp := DigitsReversed(v);
      var n := |tmp|;
      var out: Text := [];
      var i := 0;
      assert tmp[..n] == tmp && out + Backwards(tmp) == Backwards(tmp);
      while i < n
        invariant buf == old(buf) && i <= n && out + Backwards(tmp[..n - i]) == Backwards(tmp)
      {
        LastComesFirst(tmp, n - i);
        Regroup(out, [tmp[n - 1 - i]], Backwards(tmp[..n - 1 - i]));
        out := out + [tmp[n - 1 - i]];
        i := i + 1;
      }
      assert tmp[..n - i] == [] && out == Decimal(v);
      AppendPiece(out);
    }

    /** At most ten digits, so the code's limit of eleven never cuts them short. */
    method DigitsReversed(v: u32) returns (tmp: Text)
      ensures Backwards(tmp) == Decimal(v) && |tmp| <= 10
    {
      U32HasTenDigits(v);
      tmp := [DigitChar(v % 10)];
      var rest: nat := v / 10;
      while rest != 0 && |tmp| < 11
        invariant rest != 0 ==> Decimal(v) == Decimal(rest) + Backwards(tmp)
        invariant rest == 0 ==> Decimal(v) == Backwards(tmp)
        decreases 11 - |tmp|
      {
        var d := DigitChar(rest % 10);
        BackwardsAppend(tmp, d);
        if rest >= 10 {
          Regroup(Decimal(rest / 10), [d], Backwards(tmp));
        }
        tmp, rest := tmp + [d], rest / 10;
      }
    }

    method AppendEscapedText(src: Text)
      requires Valid()
      modifies this
      ensures Valid() && buf == AppendEscaped(old(buf), max, src)
    {
      var i := 0;
      while i < |src|
        invariant i <= |src| && Valid() && AppendEscaped(buf, max, src[i..]) == AppendEscaped(old(buf), max, src)
      {
        assert src[i..][1..] == src[i + 1..];
        if !Printable(src[i]) {
          assert buf + [] == buf;
          i := i + 1;
          continue;
        }
        if src[i] == '"' || src[i] == '\\' {
          AppendPiece(['\\', src[i]]);
        } else {
          AppendPiece([src[i]]);
        }
        i := i + 1;
      }
    }
  }

  function Backwards(s: Text): (r: Text)
    ensures |r| == |s|
  {
    if s == [] then [] else Backwards(s[1..]) + [s[0]]
  }

  lemma {:induction false} BackwardsAppend(s: Text, c: char)
    ensures Backwards(s + [c]) == [c] + Backwards(s)
  {
    if s != [] {
      assert (s + [c])[1..] == s[1..] + [c];
      BackwardsAppend(s[1..], c);
    }
  }

  lemma LastComesFirst(s: Text, k: nat)
    requires 0 < k <= |s|
    ensures Backwards(s[..k]) == [s[k - 1]] + Backwards(s[..k - 1])
  {
    assert s[..k] == s[..k - 1] + [s[k - 1]];
    BackwardsAppend(s[..k - 1], s[k - 1]);
  }

  lemma U32HasTenDigits(v: u32)
    ensures |Decimal(v)| <= 10
  {
    assert Pow10(5) == 100_000 by { assert Pow10(2) == 100; }
    assert Pow10(10) == 10_000_000_000 by { assert Pow10(7) == 10_000_000; }
    DecimalLength(v, 10);
  }
}

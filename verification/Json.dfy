// The JSON reader (src/json_lite.c) and the writer helpers (src/api_v1.c). A character
// stands for one byte; a cursor is the text still ahead of it.

module Json {
  import opened Words

  type Text = seq<char>

  const MAX_DEPTH: int := 4
  const NUM_LIMIT: int := 65535

  predicate IsWs(c: char) {
    c == ' ' || c == '\t' || c == '\r' || c == '\n'
  }

  predicate IsDigit(c: char) {
    '0' <= c <= '9'
  }

  predicate IsNumChar(c: char) {
    IsDigit(c) || c == '-' || c == '+' || c == '.' || c == 'e' || c == 'E'
  }

  // ---- The reader --------------------------------------------------------

  function Ws(s: Text): (r: Text)
    ensures |r| <= |s| && (r != [] ==> !IsWs(r[0]))
  {
    if s != [] && IsWs(s[0]) then Ws(s[1..]) else s
  }

  /** jl_take: whether the character came next after whitespace, and what is left. */
  function Take(s: Text, c: char): (r: (bool, Text))
    ensures |r.1| <= |s| && (r.0 ==> |r.1| < |s|)
  {
    var t := Ws(s);
    if t != [] && t[0] == c then (true, t[1..]) else (false, t)
  }

  /** After an opening quote: to behind the closing one, a backslash taking one character
      with it. */
  function Body(s: Text): (r: (bool, Text))
    ensures |r.1| <= |s| && (r.0 ==> |r.1| < |s|)
  {
    if s == [] then (false, s)
    else if s[0] == '"' then (true, s[1..])
    else if s[0] == '\\' then (if |s| < 2 then (false, []) else Body(s[2..]))
    else Body(s[1..])
  }

  /** What that string stands for: escapes copied as the escaped character. */
  function Content(s: Text): Text {
    if s == [] || s[0] == '"' then []
    else if s[0] == '\\' then (if |s| < 2 then [] else [s[1]] + Content(s[2..]))
    else [s[0]] + Content(s[1..])
  }

  function String(s: Text): (r: (bool, Text))
    ensures |r.1| <= |s| && (r.0 ==> |r.1| < |s|)
  {
    var (ok, t) := Take(s, '"');
    if ok then Body(t) else (false, t)
  }

  function NumRun(s: Text): (n: nat)
    ensures n <= |s| && (n < |s| ==> !IsNumChar(s[n])) && forall i :: 0 <= i < n ==> IsNumChar(s[i])
  {
    if s != [] && IsNumChar(s[0]) then 1 + NumRun(s[1..]) else 0
  }

  predicate HasDigit(s: Text) {
    exists i :: 0 <= i < |s| && IsDigit(s[i])
  }

  function Number(s: Text): (r: (bool, Text))
    ensures |r.1| <= |s| && (r.0 ==> |r.1| < |s|)
  {
    var t := Ws(s);
    var n := NumRun(t);
    (HasDigit(t[..n]), t[n..])
  }

  function Literal(s: Text, lit: Text): (r: (bool, Text))
    ensures |r.1| <= |s| && (r.0 && lit != [] ==> |r.1| < |s|)
  {
    var t := Ws(s);
    if lit <= t then (true, t[|lit|..]) else (false, t)
  }

  /** jl_skip_at. */
  function Skip(s: Text, depth: nat): (r: (bool, Text))
    ensures |r.1| <= |s| && (r.0 ==> |r.1| < |s|)
    decreases |s|, 0
  {
    var t := Ws(s);
    if t == [] then (false, t)
    else if t[0] == '"' then String(t)
    else if t[0] == '{' then Container(t[1..], '}', true, depth)
    else if t[0] == '[' then Container(t[1..], ']', false, depth)
    else if Literal(t, "true").0 then Literal(t, "true")
    else if Literal(t, "false").0 then Literal(t, "false")
    else if Literal(t, "null").0 then Literal(t, "null")
    else Number(t)
  }

  /** jl_skip_container, after the opening bracket. */
  function Container(s: Text, close: char, keyed: bool, depth: nat): (r: (bool, Text))
    ensures |r.1| <= |s| && (r.0 ==> |r.1| < |s|)
    decreases |s|, 2
  {
    if depth >= MAX_DEPTH then (false, s)
    else
      var (closed, t) := Take(s, close);
      if closed then (true, t) else Elements(t, close, keyed, depth)
  }

  /** Its loop: a value, with its key in an object, then a comma or the closing bracket. */
  function Elements(s: Text, close: char, keyed: bool, depth: nat): (r: (bool, Text))
    ensures |r.1| <= |s| && (r.0 ==> |r.1| < |s|)
    decreases |s|, 1
  {
    var (ready, t) := if keyed then Key(s) else (true, s);
    if !ready then (false, t)
    else
      var (ok, u) := Skip(t, depth + 1);
      if !ok then (false, u)
      else
        var (closed, v) := Take(u, close);
        if closed then (true, v)
        else
          var (more, w) := Take(v, ',');
          if more then Elements(w, close, keyed, depth) else (false, w)
  }

  function Key(s: Text): (r: (bool, Text))
    ensures |r.1| <= |s| && (r.0 ==> |r.1| < |s|)
  {
    var (ok, t) := String(s);
    if ok then Take(t, ':') else (false, t)
  }

  // ---- Documents ---------------------------------------------------------

  /** Part of a string: a plain character, or a backslash and a character. A four-digit
      escape is an escaped u followed by four plain characters. */
  datatype Item = Plain(c: char) | Escaped(c: char)

  /** Values as RFC 8259 writes them, whitespace included. A container is an object (keyed) or
      an array; an element of an array uses neither before, key nor beforeColon. */
  datatype Value =
    | Str(items: seq<Item>)
    | Num(run: Text)
    | True
    | False
    | Null
    | Empty(keyed: bool, pad: Text)
    | Full(keyed: bool, elems: Elems)

  datatype Elems = Last(e: Elem) | More(e: Elem, rest: Elems)

  datatype Elem = Elem(before: Text, key: seq<Item>, beforeColon: Text, beforeValue: Text, v: Value, after: Text)

  function ItemsText(items: seq<Item>): Text {
    if items == [] then []
    else
      (match items[0]
       case Plain(c) => [c]
       case Escaped(c) => ['\\', c])
      + ItemsText(items[1..])
  }

  function StrText(items: seq<Item>): Text {
    "\"" + ItemsText(items) + "\""
  }

  function Open(keyed: bool): char {
    if keyed then '{' else '['
  }

  function Close(keyed: bool): char {
    if keyed then '}' else ']'
  }

  function TextOf(v: Value): Text
    decreases v
  {
    match v
    case Str(items) => StrText(items)
    case Num(run) => run
    case True => "true"
    case False => "false"
    case Null => "null"
    case Empty(keyed, pad) => [Open(keyed)] + pad + [Close(keyed)]
    case Full(keyed, elems) => [Open(keyed)] + ElemsText(keyed, elems) + [Close(keyed)]
  }

  function ElemsText(keyed: bool, es: Elems): Text
    decreases es
  {
    match es
    case Last(e) => ElemText(keyed, e)
    case More(e, rest) => ElemText(keyed, e) + "," + ElemsText(keyed, rest)
  }

  function KeyText(keyed: bool, e: Elem): Text {
    if keyed then e.before + StrText(e.key) + e.beforeColon + ":" else []
  }

  function ElemText(keyed: bool, e: Elem): Text
    decreases e
  {
    KeyText(keyed, e) + e.beforeValue + TextOf(e.v) + e.after
  }

  predicate AllWs(s: Text) {
    forall c :: c in s ==> IsWs(c)
  }

  predicate GoodItems(items: seq<Item>) {
    forall i :: i in items && i.Plain? ==> i.c != '"' && i.c != '\\'
  }

  /** Every value of RFC 8259 is good; so are some more, such as a number 1-2. */
  predicate Good(v: Value) {
    match v
    case Str(items) => GoodItems(items)
    case Num(run) => HasDigit(run) && forall c :: c in run ==> IsNumChar(c)
    case Empty(_, pad) => AllWs(pad)
    case Full(keyed, elems) => GoodElems(elems)
    case _ => true
  }

  predicate GoodElems(es: Elems) {
    GoodElem(es.e) && (es.More? ==> GoodElems(es.rest))
  }

  predicate GoodElem(e: Elem) {
    AllWs(e.before) && GoodItems(e.key) && AllWs(e.beforeColon) && AllWs(e.beforeValue) && Good(e.v) && AllWs(e.after)
  }

  /** How deep containers nest in a value. */
  function Nesting(v: Value): nat {
    match v
    case Empty(_, _) => 1
    case Full(_, elems) => 1 + ElemsNesting(elems)
    case _ => 0
  }

  function ElemsNesting(es: Elems): nat {
    match es
    case Last(e) => Nesting(e.v)
    case More(e, rest) => if Nesting(e.v) > ElemsNesting(rest) then Nesting(e.v) else ElemsNesting(rest)
  }

  // ---- Reading documents -------------------------------------------------

  lemma {:induction false} WsSkips(pad: Text, s: Text)
    requires AllWs(pad)
    ensures Ws(pad + s) == Ws(s)
    decreases |pad|
  {
    if pad == [] {
      assert pad + s == s;
    } else {
      assert pad[0] in pad && (pad + s)[0] == pad[0];
      assert (pad + s)[1..] == pad[1..] + s;
      WsSkips(pad[1..], s);
    }
  }

  lemma TakeFound(pad: Text, c: char, tail: Text)
    requires AllWs(pad) && !IsWs(c)
    ensures Take(pad + [c] + tail, c) == (true, tail)
  {
    var s := [c] + tail;
    assert pad + [c] + tail == pad + s;
    WsSkips(pad, s);
    assert Ws(s) == s && s[1..] == tail;
  }

  lemma TakeOther(pad: Text, d: char, tail: Text, c: char)
    requires AllWs(pad) && !IsWs(d) && c != d
    ensures Take(pad + [d] + tail, c) == (false, [d] + tail)
  {
    var s := [d] + tail;
    assert pad + [d] + tail == pad + s;
    WsSkips(pad, s);
    assert Ws(s) == s;
  }

  lemma {:induction false} BodyReads(items: seq<Item>, tail: Text)
    requires GoodItems(items)
    ensures Body(ItemsText(items) + "\"" + tail) == (true, tail)
    decreases |items|
  {
    var s := ItemsText(items) + "\"" + tail;
    if items == [] {
      assert s == ['"'] + tail;
      assert s[1..] == tail;
    } else {
      BodyReads(items[1..], tail);
      var rest := ItemsText(items[1..]) + "\"" + tail;
      match items[0] {
        case Plain(c) =>
          assert items[0] in items;
          assert s == [c] + rest;
          assert s[1..] == rest;
        case Escaped(c) =>
          assert s == ['\\', c] + rest;
          assert s[2..] == rest;
      }
    }
  }

  lemma StringReads(pad: Text, items: seq<Item>, tail: Text)
    requires AllWs(pad) && GoodItems(items)
    ensures String(pad + StrText(items) + tail) == (true, tail)
  {
    var rest := ItemsText(items) + "\"" + tail;
    assert pad + StrText(items) + tail == pad + ['"'] + rest;
    TakeFound(pad, '"', rest);
    BodyReads(items, tail);
  }

  lemma {:induction false} RunLength(run: Text, tail: Text)
    requires (forall c :: c in run ==> IsNumChar(c)) && (tail == [] || !IsNumChar(tail[0]))
    ensures NumRun(run + tail) == |run|
    decreases |run|
  {
    if run == [] {
      assert run + tail == tail;
    } else {
      assert run[0] in run;
      assert (run + tail)[1..] == run[1..] + tail;
      RunLength(run[1..], tail);
    }
  }

  lemma NumberReads(run: Text, tail: Text)
    requires Good(Num(run)) && (tail == [] || !IsNumChar(tail[0]))
    ensures Number(run + tail) == (true, tail) && !IsWs((run + tail)[0])
  {
    RunLength(run, tail);
    assert run[0] in run;
    assert Ws(run + tail) == run + tail;
    assert (run + tail)[..|run|] == run && (run + tail)[|run|..] == tail;
  }

  /** A number must be followed by something that cannot belong to it. */
  predicate Delimited(v: Value, tail: Text) {
    v.Num? ==> tail == [] || !IsNumChar(tail[0])
  }

  predicate Fits(v: Value, depth: nat) {
    Nesting(v) == 0 || depth + Nesting(v) <= MAX_DEPTH
  }

  /** What skipping a value in front of tail should give. */
  ghost predicate SkipsTo(r: (bool, Text), fits: bool, tail: Text) {
    if fits then r == (true, tail) else !r.0
  }

  lemma ScalarSkips(v: Value, tail: Text, depth: nat)
    requires Good(v) && Delimited(v, tail) && !v.Empty? && !v.Full?
    ensures Skip(TextOf(v) + tail, depth) == (true, tail)
  {
    var s := TextOf(v) + tail;
    match v {
      case Str(items) =>
        assert s == [] + StrText(items) + tail;
        StringReads([], items, tail);
      case Num(run) =>
        NumberReads(run, tail);
        assert run[0] in run;
        assert Ws(s) == s && s[0] == run[0];
      case True => assert s[..4] == "true" && s[4..] == tail;
      case False => assert s[..5] == "false" && s[5..] == tail;
      case Null => assert s[..4] == "null" && s[4..] == tail;
      case _ =>
    }
  }

  lemma SkipPastWs(pad: Text, s: Text, depth: nat)
    requires AllWs(pad)
    ensures Skip(pad + s, depth) == Skip(s, depth)
  {
    WsSkips(pad, s);
    WsTwice(s);
  }

  lemma {:induction false} WsTwice(s: Text)
    ensures Ws(Ws(s)) == Ws(s)
    decreases |s|
  {
    if s != [] && IsWs(s[0]) {
      WsTwice(s[1..]);
    }
  }

  lemma ContainerOpens(keyed: bool, inside: Text, depth: nat)
    ensures Skip([Open(keyed)] + inside, depth) == Container(inside, Close(keyed), keyed, depth)
  {
    var s := [Open(keyed)] + inside;
    assert Ws(s) == s && s[1..] == inside;
  }

  /** Skipping takes exactly the text of a value, whatever follows it, if containers nest at
      most four deep; a deeper value is refused. */
  lemma {:induction false} SkipReads(v: Value, tail: Text, depth: nat)
    requires Good(v) && Delimited(v, tail)
    ensures SkipsTo(Skip(TextOf(v) + tail, depth), Fits(v, depth), tail)
    decreases v
  {
    match v {
      case Empty(keyed, pad) =>
        EmptySkips(keyed, pad, tail, depth);
      case Full(keyed, elems) => FullSkips(keyed, elems, tail, depth);
      case _ => ScalarSkips(v, tail, depth);
    }
  }

  lemma {:induction false} FullSkips(keyed: bool, elems: Elems, tail: Text, depth: nat)
    requires GoodElems(elems)
    ensures SkipsTo(Skip(TextOf(Full(keyed, elems)) + tail, depth), Fits(Full(keyed, elems), depth), tail)
    decreases elems, 1
  {
    var text := ElemsText(keyed, elems);
    var inside := text + [Close(keyed)] + tail;
    assert TextOf(Full(keyed, elems)) + tail == [Open(keyed)] + inside;
    ContainerOpens(keyed, inside, depth);
    if depth < MAX_DEPTH {
      ElemsSkip(keyed, elems, tail, depth);
      NotYetClosed(keyed, elems, [Close(keyed)] + tail);
      assert inside == text + ([Close(keyed)] + tail);
      hide ElemsText;
      ContainerEnters(keyed, inside, depth);
    }
    hide Skip, Elements, Container;
  }

  lemma ContainerEnters(keyed: bool, inside: Text, depth: nat)
    requires depth < MAX_DEPTH && !Take(inside, Close(keyed)).0
    ensures Container(inside, Close(keyed), keyed, depth) == Elements(inside, Close(keyed), keyed, depth)
  {
    ElementsPastWs(keyed, inside, depth);
    hide Elements;
  }

  lemma EmptySkips(keyed: bool, pad: Text, tail: Text, depth: nat)
    requires AllWs(pad)
    ensures SkipsTo(Skip(TextOf(Empty(keyed, pad)) + tail, depth), depth < MAX_DEPTH, tail)
  {
    var inside := pad + [Close(keyed)] + tail;
    assert TextOf(Empty(keyed, pad)) + tail == [Open(keyed)] + inside;
    ContainerOpens(keyed, inside, depth);
    TakeFound(pad, Close(keyed), tail);
    hide Skip;
  }

  lemma ElementsPastWs(keyed: bool, s: Text, depth: nat)
    ensures Elements(Ws(s), Close(keyed), keyed, depth) == Elements(s, Close(keyed), keyed, depth)
  {
    WsTwice(s);
    assert Skip(Ws(s), depth + 1) == Skip(s, depth + 1);
    assert Key(Ws(s)) == Key(s);
  }

  /** A value's text starts with a character that is neither whitespace nor punctuation that
      closes or separates. */
  lemma ValueStarts(v: Value)
    requires Good(v)
    ensures TextOf(v) != []
    ensures var c := TextOf(v)[0]; !IsWs(c) && c != '}' && c != ']' && c != ','
  {
    if v.Num? {
      assert v.run[0] in v.run;
    }
  }

  lemma KeyedStarts(e: Elem, more: Text)
    requires GoodElem(e)
    ensures !Take(ElemText(true, e) + more, '}').0
  {
    var rest := ItemsText(e.key) + "\"" + e.beforeColon + ":" + e.beforeValue + TextOf(e.v) + e.after + more;
    assert ElemText(true, e) + more == e.before + ['"'] + rest;
    TakeOther(e.before, '"', rest, '}');
  }

  lemma UnkeyedStarts(e: Elem, more: Text)
    requires GoodElem(e)
    ensures !Take(ElemText(false, e) + more, ']').0
  {
    ValueStarts(e.v);
    var t := TextOf(e.v);
    hide TextOf;
    var rest := t[1..] + e.after + more;
    assert ElemText(false, e) + more == e.beforeValue + [t[0]] + rest by {
      assert t == [t[0]] + t[1..];
    }
    TakeOther(e.beforeValue, t[0], rest, ']');
  }

  lemma NotYetClosed(keyed: bool, es: Elems, tail: Text)
    requires GoodElems(es)
    ensures !Take(ElemsText(keyed, es) + tail, Close(keyed)).0
  {
    hide Take, ElemText;
    var more := if es.Last? then tail else "," + ElemsText(keyed, es.rest) + tail;
    assert ElemsText(keyed, es) + tail == ElemText(keyed, es.e) + more;
    if keyed {
      KeyedStarts(es.e, more);
    } else {
      UnkeyedStarts(es.e, more);
    }
  }

  lemma KeyReads(e: Elem, tail: Text)
    requires GoodElem(e)
    ensures Key(KeyText(true, e) + tail) == (true, tail)
  {
    var afterName := e.beforeColon + [':'] + tail;
    assert KeyText(true, e) + tail == e.before + StrText(e.key) + afterName;
    StringReads(e.before, e.key, afterName);
    TakeFound(e.beforeColon, ':', tail);
  }

  /** The element loop once the key is read. */
  function AfterKey(value: Text, close: char, keyed: bool, depth: nat): (bool, Text) {
    var (ok, u) := Skip(value, depth + 1);
    if !ok then (false, u)
    else
      var (closed, v) := Take(u, close);
      if closed then (true, v)
      else
        var (more, w) := Take(v, ',');
        if more then Elements(w, close, keyed, depth) else (false, w)
  }

  lemma KeyIsPassed(keyed: bool, e: Elem, value: Text, depth: nat)
    requires GoodElem(e)
    ensures Elements(KeyText(keyed, e) + value, Close(keyed), keyed, depth)
            == AfterKey(value, Close(keyed), keyed, depth)
  {
    if keyed {
      KeyReads(e, value);
    } else {
      assert KeyText(keyed, e) + value == value;
    }
    hide Skip, Take, Key;
  }

  lemma SeparatorIsPassed(pad: Text, sep: char, more: Text, keyed: bool, depth: nat)
    requires AllWs(pad) && (sep == ',' || sep == Close(keyed))
    ensures var (closed, v) := Take(pad + [sep] + more, Close(keyed));
            if sep == ',' then !closed && Take(v, ',') == (true, more) else closed && v == more
  {
    if sep == ',' {
      TakeOther(pad, ',', more, Close(keyed));
      assert [','] + more == [] + [','] + more;
      TakeFound([], ',', more);
    } else {
      TakeFound(pad, sep, more);
    }
    hide Take;
  }

  /** One turn of the element loop, in front of a separator or the closing bracket. */
  lemma {:induction false} ElemSkips(keyed: bool, e: Elem, sep: char, more: Text, depth: nat)
    requires GoodElem(e) && (sep == ',' || sep == Close(keyed))
    ensures var r := Elements(ElemText(keyed, e) + [sep] + more, Close(keyed), keyed, depth);
            && (!Fits(e.v, depth + 1) ==> !r.0)
            && (Fits(e.v, depth + 1) ==>
                  r == if sep == ',' then Elements(more, Close(keyed), keyed, depth) else (true, more))
    decreases e
  {
    var behind := e.after + [sep] + more;
    var value := e.beforeValue + (TextOf(e.v) + behind);
    assert ElemText(keyed, e) + [sep] + more == KeyText(keyed, e) + value;
    KeyIsPassed(keyed, e, value, depth);
    SkipPastWs(e.beforeValue, TextOf(e.v) + behind, depth + 1);
    AfterValue(e, sep, more);
    SkipReads(e.v, behind, depth + 1);
    SeparatorIsPassed(e.after, sep, more, keyed, depth);
    hide Skip, Take, Elements, KeyText, TextOf, ElemText;
  }

  lemma AfterValue(e: Elem, sep: char, more: Text)
    requires GoodElem(e) && (sep == ',' || sep == '}' || sep == ']')
    ensures Delimited(e.v, e.after + [sep] + more)
  {
    if e.after != [] {
      assert e.after[0] in e.after;
    }
  }

  lemma {:induction false} ElemsSkip(keyed: bool, es: Elems, tail: Text, depth: nat)
    requires GoodElems(es) && depth < MAX_DEPTH
    ensures SkipsTo(Elements(ElemsText(keyed, es) + [Close(keyed)] + tail, Close(keyed), keyed, depth),
                    depth + 1 + ElemsNesting(es) <= MAX_DEPTH, tail)
    decreases es, 0
  {
    match es {
      case Last(e) => ElemSkips(keyed, e, Close(keyed), tail, depth);
      case More(e, rest) =>
        var more := ElemsText(keyed, rest) + [Close(keyed)] + tail;
        assert ElemsText(keyed, es) + [Close(keyed)] + tail == ElemText(keyed, e) + [','] + more;
        ElemSkips(keyed, e, ',', more, depth);
        ElemsSkip(keyed, rest, tail, depth);
    }
    hide Elements;
  }

  /** jl_skip_value: exactly the text of any value nested at most four deep; no deeper one. */
  lemma SkipValueExactIff(pad: Text, v: Value, tail: Text)
    requires AllWs(pad) && Good(v) && Delimited(v, tail)
    ensures var r := Skip(pad + TextOf(v) + tail, 0);
            if Nesting(v) <= 4 then r == (true, tail) else !r.0
  {
    assert pad + TextOf(v) + tail == pad + (TextOf(v) + tail);
    SkipPastWs(pad, TextOf(v) + tail, 0);
    SkipReads(v, tail, 0);
    hide Skip;
  }

  // ---- Nothing else is skipped -------------------------------------------

  lemma {:induction false} WsSplits(s: Text) returns (pad: Text)
    ensures AllWs(pad) && s == pad + Ws(s)
    decreases |s|
  {
    if s != [] && IsWs(s[0]) {
      var rest := WsSplits(s[1..]);
      pad := [s[0]] + rest;
      assert s == [s[0]] + s[1..];
    } else {
      pad := [];
    }
  }

  lemma TakeSplits(s: Text, c: char) returns (pad: Text)
    ensures AllWs(pad) && s == pad + (if Take(s, c).0 then [c] else []) + Take(s, c).1
  {
    pad := WsSplits(s);
    var t := Ws(s);
    hide Ws, AllWs;
    if Take(s, c).0 {
      assert t == [c] + t[1..];
      assert s == pad + [c] + t[1..];
    } else {
      assert s == pad + [] + t;
    }
  }

  lemma {:induction false} BodySplits(s: Text) returns (items: seq<Item>)
    requires Body(s).0
    ensures GoodItems(items) && s == ItemsText(items) + "\"" + Body(s).1
    decreases |s|
  {
    if s[0] == '"' {
      items := [];
      assert s == ['"'] + s[1..];
    } else {
      var first := if s[0] == '\\' then Escaped(s[1]) else Plain(s[0]);
      var taken := if s[0] == '\\' then s[..2] else s[..1];
      var rest := BodySplits(s[|taken|..]);
      items := [first] + rest;
      assert items[1..] == rest && s == taken + s[|taken|..];
      assert ItemsText(items) == taken + ItemsText(rest);
    }
  }

  lemma StringSplits(s: Text) returns (pad: Text, items: seq<Item>)
    requires String(s).0
    ensures AllWs(pad) && GoodItems(items) && s == pad + StrText(items) + String(s).1
  {
    pad := TakeSplits(s, '"');
    items := BodySplits(Take(s, '"').1);
    hide Take, Body, ItemsText;
    assert s == pad + ("\"" + ItemsText(items) + "\"") + String(s).1;
  }

  /** The text s is whitespace, a value that fits at this depth, and tail. */
  ghost predicate Holds(s: Text, pad: Text, v: Value, tail: Text, depth: nat) {
    AllWs(pad) && Good(v) && Delimited(v, tail) && Fits(v, depth) && s == pad + TextOf(v) + tail
  }

  lemma LiteralSplits(t: Text, lit: Text)
    requires Ws(t) == t && Literal(t, lit).0
    ensures t == lit + Literal(t, lit).1
  {
  }

  /** The values that are no containers. */
  lemma ScalarSplits(t: Text, depth: nat) returns (pad: Text, v: Value)
    requires t != [] && Ws(t) == t && t[0] != '{' && t[0] != '[' && Skip(t, depth).0
    ensures Holds(t, pad, v, Skip(t, depth).1, depth)
  {
    pad := [];
    if t[0] == '"' {
      var items: seq<Item>;
      pad, items := StringSplits(t);
      v := Str(items);
    } else if Literal(t, "true").0 {
      LiteralSplits(t, "true");
      v := True;
    } else if Literal(t, "false").0 {
      LiteralSplits(t, "false");
      v := False;
    } else if Literal(t, "null").0 {
      LiteralSplits(t, "null");
      v := Null;
    } else {
      v := NumberSplits(t);
    }
    hide String, Number;
  }

  lemma NumberSplits(t: Text) returns (v: Value)
    requires Ws(t) == t && Number(t).0
    ensures v.Num? && Good(v) && Delimited(v, Number(t).1) && t == TextOf(v) + Number(t).1
  {
    var n := NumRun(t);
    v := Num(t[..n]);
    forall c | c in t[..n] ensures IsNumChar(c) {
      var i :| 0 <= i < n && t[i] == c;
    }
  }

  /** Whatever is skipped is the text of a value. */
  lemma {:induction false} SkipSplits(s: Text, depth: nat) returns (pad: Text, v: Value)
    requires Skip(s, depth).0
    ensures Holds(s, pad, v, Skip(s, depth).1, depth)
    decreases |s|, 0
  {
    var t := Ws(s);
    var front := WsSplits(s);
    WsTwice(s);
    SkipPastWs([], s, depth);
    assert Skip(s, depth) == Skip(t, depth);
    if t[0] == '{' || t[0] == '[' {
      var keyed := t[0] == '{';
      assert t == [Open(keyed)] + t[1..];
      ContainerOpens(keyed, t[1..], depth);
      pad := front;
      v := ContainerSplits(t[1..], keyed, depth);
    } else {
      var between;
      between, v := ScalarSplits(t, depth);
      pad := front + between;
    }
    hide *;
    HoldsBehind(s, t, front, pad, v, Skip(s, depth).1, depth);
  }

  lemma HoldsBehind(s: Text, t: Text, front: Text, pad: Text, v: Value, tail: Text, depth: nat)
    requires AllWs(front) && s == front + t && |front| <= |pad| && pad[..|front|] == front
    requires Holds(t, pad[|front|..], v, tail, depth)
    ensures Holds(s, pad, v, tail, depth)
  {
    assert pad == front + pad[|front|..];
    hide TextOf, Good;
    assert s == pad + TextOf(v) + tail;
  }

  lemma EmptyHolds(keyed: bool, pad: Text, tail: Text, depth: nat)
    requires AllWs(pad) && depth < MAX_DEPTH
    ensures Holds([Open(keyed)] + (pad + [Close(keyed)] + tail), [], Empty(keyed, pad), tail, depth)
  {
    assert [Open(keyed)] + (pad + [Close(keyed)] + tail) == [] + ([Open(keyed)] + pad + [Close(keyed)]) + tail;
  }

  lemma FullHolds(keyed: bool, es: Elems, tail: Text, depth: nat)
    requires GoodElems(es) && depth + 1 + ElemsNesting(es) <= MAX_DEPTH
    ensures Holds([Open(keyed)] + (ElemsText(keyed, es) + [Close(keyed)] + tail), [], Full(keyed, es), tail, depth)
  {
    hide ElemsText, GoodElems, ElemsNesting;
    var text := ElemsText(keyed, es);
    assert [Open(keyed)] + (text + [Close(keyed)] + tail) == [] + ([Open(keyed)] + text + [Close(keyed)]) + tail;
  }

  lemma ContainerCases(s: Text, keyed: bool, depth: nat)
    requires Container(s, Close(keyed), keyed, depth).0
    ensures depth < MAX_DEPTH
    ensures var (closed, t) := Take(s, Close(keyed));
            Container(s, Close(keyed), keyed, depth)
            == if closed then (true, t) else Elements(s, Close(keyed), keyed, depth)
  {
    ElementsPastWs(keyed, s, depth);
    hide Elements;
  }

  lemma {:induction false} ContainerSplits(s: Text, keyed: bool, depth: nat) returns (v: Value)
    requires Container(s, Close(keyed), keyed, depth).0
    ensures Holds([Open(keyed)] + s, [], v, Container(s, Close(keyed), keyed, depth).1, depth)
    decreases |s|, 2
  {
    hide *;
    var tail := Container(s, Close(keyed), keyed, depth).1;
    ContainerCases(s, keyed, depth);
    if Take(s, Close(keyed)).0 {
      var pad := TakeSplits(s, Close(keyed));
      v := Empty(keyed, pad);
      EmptyHolds(keyed, pad, tail, depth);
    } else {
      var es := ElementsSplit(s, keyed, depth);
      v := Full(keyed, es);
      FullHolds(keyed, es, tail, depth);
    }
  }

  lemma KeySplits(s: Text, keyed: bool) returns (before: Text, key: seq<Item>, beforeColon: Text)
    requires keyed ==> Key(s).0
    ensures AllWs(before) && GoodItems(key) && AllWs(beforeColon)
    ensures keyed ==> s == before + StrText(key) + beforeColon + ":" + Key(s).1
  {
    before, key, beforeColon := [], [], [];
    if keyed {
      before, key := StringSplits(s);
      beforeColon := TakeSplits(String(s).1, ':');
      hide String, Take, StrText;
      assert s == before + StrText(key) + (beforeColon + [':'] + Key(s).1);
    }
  }

  /** One turn of the element loop, by what it found. */
  lemma ElementsCases(s: Text, keyed: bool, depth: nat)
    requires Elements(s, Close(keyed), keyed, depth).0
    ensures keyed ==> Key(s).0
    ensures var t := if keyed then Key(s).1 else s;
            var (ok, u) := Skip(t, depth + 1);
            var (closed, w) := Take(u, Close(keyed));
            && ok && |u| < |s|
            && if closed then Elements(s, Close(keyed), keyed, depth) == (true, w)
               else Take(w, ',').0 && Elements(s, Close(keyed), keyed, depth)
                                      == Elements(Take(w, ',').1, Close(keyed), keyed, depth)
  {
    hide Skip;
  }

  /** What is left where the closing bracket did not come is past its whitespace. */
  lemma CommaSplits(u: Text, close: char)
    requires !Take(u, close).0 && Take(Take(u, close).1, ',').0
    ensures Take(u, close).1 == [','] + Take(Take(u, close).1, ',').1
  {
    WsTwice(u);
  }

  lemma LastSplits(s: Text, keyed: bool, e: Elem, tail: Text, depth: nat)
    requires s == ElemText(keyed, e) + ([Close(keyed)] + tail)
    requires GoodElem(e) && Fits(e.v, depth + 1) && depth < MAX_DEPTH
    ensures GoodElems(Last(e)) && depth + 1 + ElemsNesting(Last(e)) <= MAX_DEPTH
    ensures s == ElemsText(keyed, Last(e)) + [Close(keyed)] + tail
  {
    hide ElemText, GoodElem, Nesting;
  }

  lemma MoreSplits(s: Text, keyed: bool, e: Elem, rest: Elems, tail: Text, depth: nat)
    requires s == ElemText(keyed, e) + ([','] + (ElemsText(keyed, rest) + [Close(keyed)] + tail))
    requires GoodElem(e) && Fits(e.v, depth + 1) && GoodElems(rest) && depth + 1 + ElemsNesting(rest) <= MAX_DEPTH
    ensures GoodElems(More(e, rest)) && depth + 1 + ElemsNesting(More(e, rest)) <= MAX_DEPTH
    ensures s == ElemsText(keyed, More(e, rest)) + [Close(keyed)] + tail
  {
    MoreText(keyed, e, rest);
    hide ElemText, ElemsText, GoodElem, Nesting;
  }

  lemma MoreText(keyed: bool, e: Elem, rest: Elems)
    ensures ElemsText(keyed, More(e, rest)) == ElemText(keyed, e) + [','] + ElemsText(keyed, rest)
  {
    hide ElemText;
  }

  lemma HeldElem(t: Text, pad: Text, v: Value, u: Text, depth: nat, e: Elem)
    requires Holds(t, pad, v, u, depth + 1)
    requires e.beforeValue == pad && e.v == v && AllWs(e.before) && GoodItems(e.key)
    requires AllWs(e.beforeColon) && AllWs(e.after)
    ensures GoodElem(e) && Fits(v, depth + 1) && t == e.beforeValue + TextOf(e.v) + u
  {
    hide TextOf, Good, Nesting;
  }

  lemma {:induction false} ElementsSplit(s: Text, keyed: bool, depth: nat) returns (es: Elems)
    requires depth < MAX_DEPTH && Elements(s, Close(keyed), keyed, depth).0
    ensures GoodElems(es) && depth + 1 + ElemsNesting(es) <= MAX_DEPTH
    ensures s == ElemsText(keyed, es) + [Close(keyed)] + Elements(s, Close(keyed), keyed, depth).1
    decreases |s|, 1
  {
    hide *;
    ElementsCases(s, keyed, depth);
    var tail := Elements(s, Close(keyed), keyed, depth).1;
    var before, key, beforeColon := KeySplits(s, keyed);
    var t := if keyed then Key(s).1 else s;
    var pad, v := SkipSplits(t, depth + 1);
    var u := Skip(t, depth + 1).1;
    var after := TakeSplits(u, Close(keyed));
    var e := Elem(before, key, beforeColon, pad, v, after);
    var w := Take(u, Close(keyed)).1;
    HeldElem(t, pad, v, u, depth, e);
    if Take(u, Close(keyed)).0 {
      es := Last(e);
      assert u == e.after + ([Close(keyed)] + w);
      ElemIs(s, t, u, keyed, e, [Close(keyed)] + w);
      LastSplits(s, keyed, e, tail, depth);
    } else {
      var more := Take(w, ',').1;
      CommaSplits(u, Close(keyed));
      var rest := ElementsSplit(more, keyed, depth);
      es := More(e, rest);
      assert u == e.after + ([','] + more);
      ElemIs(s, t, u, keyed, e, [','] + more);
      MoreSplits(s, keyed, e, rest, tail, depth);
    }
  }

  /** One element, put together. */
  lemma ElemIs(s: Text, t: Text, u: Text, keyed: bool, e: Elem, rest: Text)
    requires if keyed then s == e.before + StrText(e.key) + e.beforeColon + ":" + t else s == t
    requires t == e.beforeValue + TextOf(e.v) + u && u == e.after + rest
    ensures s == ElemText(keyed, e) + rest
  {
    hide StrText, TextOf;
    assert s == KeyText(keyed, e) + t;
    assert s == KeyText(keyed, e) + (e.beforeValue + TextOf(e.v) + (e.after + rest));
  }

  /** jl_skip_value accepts exactly the texts that begin with a value nested at most four deep,
      after whitespace, and leaves what follows it. */
  lemma SkipAcceptsIff(s: Text, tail: Text)
    ensures Skip(s, 0) == (true, tail)
            <==> exists pad, v :: Holds(s, pad, v, tail, 0)
  {
    if Skip(s, 0) == (true, tail) {
      var pad, v := SkipSplits(s, 0);
      assert Holds(s, pad, v, tail, 0);
    }
    if pad, v :| Holds(s, pad, v, tail, 0) {
      SkipValueExactIff(pad, v, tail);
    }
    hide Skip, Holds;
  }

  // ---- Numbers -----------------------------------------------------------

  function Digit(c: char): nat
    requires IsDigit(c)
  {
    c as int - '0' as int
  }

  /** The value a string of digits stands for. */
  function DecValue(ds: Text): nat
    requires forall i :: 0 <= i < |ds| ==> IsDigit(ds[i])
  {
    if ds == [] then 0 else 10 * DecValue(ds[..|ds| - 1]) + Digit(ds[|ds| - 1])
  }

  /** What jl_number accumulates: once past the limit, digits are read but not counted. */
  function Reading(run: Text): nat {
    if run == [] then 0
    else
      var v, c := Reading(run[..|run| - 1]), run[|run| - 1];
      if IsDigit(c) && v <= NUM_LIMIT then v * 10 + Digit(c) else v
  }

  /** For digits of any number: never more than 655359, so no 32-bit overflow; up to 65535
      exactly when the true value is, and then exact; exact even up to 655359. */
  lemma {:induction false} ReadingIsExactIff(ds: Text)
    requires forall i :: 0 <= i < |ds| ==> IsDigit(ds[i])
    ensures Reading(ds) <= 655359
    ensures Reading(ds) <= NUM_LIMIT <==> DecValue(ds) <= NUM_LIMIT
    ensures Reading(ds) == DecValue(ds) <==> DecValue(ds) <= 655359
  {
    if ds != [] {
      ReadingIsExactIff(ds[..|ds| - 1]);
    }
  }

  /** In any run of number characters, too. */
  lemma {:induction false} ReadingIsBounded(run: Text)
    ensures Reading(run) <= 655359
  {
    if run != [] {
      ReadingIsBounded(run[..|run| - 1]);
    }
  }

  function DigitChar(d: nat): (c: char)
    requires d < 10
    ensures IsDigit(c) && Digit(c) == d
  {
    '0' + d as char
  }

  /** Decimal digits without leading zeros. */
  function Decimal(v: nat): (ds: Text)
    ensures |ds| > 0 && forall i :: 0 <= i < |ds| ==> IsDigit(ds[i])
  {
    if v < 10 then [DigitChar(v)] else Decimal(v / 10) + [DigitChar(v % 10)]
  }

  lemma {:induction false} DecimalValue(v: nat)
    ensures DecValue(Decimal(v)) == v
  {
    if v >= 10 {
      DecimalValue(v / 10);
      var ds := Decimal(v);
      assert ds[..|ds| - 1] == Decimal(v / 10);
    }
  }

  lemma {:induction false} DecimalLength(v: nat, k: nat)
    requires v < Pow10(k) && k > 0
    ensures |Decimal(v)| <= k
  {
    if v >= 10 {
      DecimalLength(v / 10, k - 1);
    }
  }

  function Pow10(k: nat): nat {
    if k == 0 then 1 else 10 * Pow10(k - 1)
  }

  /** The writer's number read back: exact up to 655359, and never mistaken for one within
      65535. */
  lemma NumberRoundTrip(v: u32, tail: Text)
    requires tail == [] || !IsNumChar(tail[0])
    ensures Number(Decimal(v) + tail) == (true, tail)
    ensures NumRun(Decimal(v) + tail) == |Decimal(v)|
    ensures Reading(Decimal(v)) == v <==> v <= 655359
    ensures Reading(Decimal(v)) <= NUM_LIMIT <==> v <= NUM_LIMIT
  {
    var ds := Decimal(v);
    DecimalValue(v);
    ReadingIsExactIff(ds);
    RunLength(ds, tail);
    assert IsDigit(ds[0]);
    NumberReads(ds, tail);
  }

  // ---- Strings -----------------------------------------------------------

  predicate Printable(c: char) {
    c >= ' '
  }

  /** api_v1_append_escaped, given room. */
  function Escape(src: Text): Text {
    if src == [] then [] else EscapeChar(src[0]) + Escape(src[1..])
  }

  function EscapeChar(c: char): Text {
    if !Printable(c) then []
    else if c == '"' || c == '\\' then ['\\', c]
    else [c]
  }

  function Visible(src: Text): Text {
    if src == [] then [] else (if Printable(src[0]) then [src[0]] else []) + Visible(src[1..])
  }

  /** The characters a string stands for: an escape for the character behind the backslash. */
  lemma {:induction false} ContentReads(items: seq<Item>, tail: Text)
    requires GoodItems(items)
    ensures var content := Content(ItemsText(items) + "\"" + tail);
            |content| == |items| && forall i :: 0 <= i < |items| ==> content[i] == items[i].c
    decreases |items|
  {
    var s := ItemsText(items) + "\"" + tail;
    if items == [] {
      assert s == ['"'] + tail;
    } else {
      ContentReads(items[1..], tail);
      var rest := ItemsText(items[1..]) + "\"" + tail;
      assert items[0] in items;
      assert s == (match items[0] case Plain(c) => [c] case Escaped(c) => ['\\', c]) + rest;
      assert if items[0].Plain? then s[1..] == rest else s[2..] == rest;
      assert Content(s) == [items[0].c] + Content(rest);
      forall i | 0 <= i < |items| ensures Content(s)[i] == items[i].c {
        if i > 0 {
          assert Content(s)[i] == Content(rest)[i - 1] && items[i] == items[1..][i - 1];
        }
      }
    }
  }

  /** Only control characters are invisible. */
  lemma {:induction false} VisibleIsAll(src: Text)
    ensures (forall c :: c in src ==> c >= ' ') ==> Visible(src) == src
    ensures forall c :: c in Visible(src) ==> c >= ' '
  {
    if src != [] {
      VisibleIsAll(src[1..]);
      assert src[0] in src && forall c :: c in src[1..] ==> c in src;
      assert src == [src[0]] + src[1..];
    }
  }

  /** Reading what the writer escaped, between quotes, gives the input without its control
      characters, and stops behind the closing quote. */
  lemma {:induction false} StringRoundTrip(src: Text, tail: Text)
    ensures Body(Escape(src) + "\"" + tail) == (true, tail)
    ensures Content(Escape(src) + "\"" + tail) == Visible(src)
    decreases |src|
  {
    var s := Escape(src) + "\"" + tail;
    if src == [] {
      assert s == ['"'] + tail && s[1..] == tail;
    } else {
      StringRoundTrip(src[1..], tail);
      var rest := Escape(src[1..]) + "\"" + tail;
      assert s == EscapeChar(src[0]) + rest;
      if !Printable(src[0]) {
        assert s == rest;
      } else if src[0] == '"' || src[0] == '\\' {
        assert s[2..] == rest;
      } else {
        assert s[1..] == rest;
      }
    }
  }

  /** The writer into a buffer of max bytes: each piece goes in if it fits with the
      terminator, and is left out otherwise. */
  function Append(buf: Text, max: nat, piece: Text): Text {
    if |buf| + |piece| + 1 > max then buf else buf + piece
  }

  function AppendEscaped(buf: Text, max: nat, src: Text): Text
    decreases |src|
  {
    if src == [] then buf else AppendEscaped(Append(buf, max, EscapeChar(src[0])), max, src[1..])
  }

  /** The characters that find room. */
  function Kept(room: int, src: Text): Text
    decreases |src|
  {
    if src == [] then []
    else if |EscapeChar(src[0])| <= room then [src[0]] + Kept(room - |EscapeChar(src[0])|, src[1..])
    else Kept(room, src[1..])
  }

  /** However small the buffer, no escape is cut in half: what was written is the escaping of
      those characters that found room; with enough room, of all. */
  lemma {:induction false} WriterNeverCutsEscapes(buf: Text, max: nat, src: Text)
    requires |buf| + 1 <= max
    ensures AppendEscaped(buf, max, src) == buf + Escape(Kept(max - 1 - |buf|, src))
    ensures |buf| + |Escape(src)| + 1 <= max ==> AppendEscaped(buf, max, src) == buf + Escape(src)
    decreases |src|
  {
    hide EscapeChar;
    if src == [] {
      assert buf + [] == buf;
    } else {
      var piece, room := EscapeChar(src[0]), max - 1 - |buf|;
      if |piece| <= room {
        WriterNeverCutsEscapes(buf + piece, max, src[1..]);
        var kept := Kept(room - |piece|, src[1..]);
        assert AppendEscaped(buf, max, src) == buf + piece + Escape(kept);
        EscapeCons(src[0], kept);
        Regroup(buf, piece, Escape(kept));
        Regroup(buf, piece, Escape(src[1..]));
      } else {
        WriterNeverCutsEscapes(buf, max, src[1..]);
      }
    }
  }

  lemma Regroup(a: Text, b: Text, c: Text)
    ensures a + (b + c) == a + b + c
  {
  }

  lemma EscapeCons(c: char, rest: Text)
    ensures Escape([c] + rest) == EscapeChar(c) + Escape(rest)
  {
    assert ([c] + rest)[1..] == rest;
  }
}

// The option field of a DHCP reply (src/dhcp.c): code, length, value, with pad and end.

module DhcpOptions {
  import opened Words
  import opened DhcpClient

  type Bytes = seq<u8>

  const PAD: u8 := 0
  const END: u8 := 255
  const MSG_TYPE: u8 := 53
  const SERVER_ID: u8 := 54
  const SUBNET_MASK: u8 := 1
  const ROUTER: u8 := 3
  const DNS: u8 := 6
  const LEASE_TIME: u8 := 51
  const RENEWAL_TIME: u8 := 58
  const REBINDING_TIME: u8 := 59

  const NO_OPTIONS: Options := Options(0, 0, 0, 0, 0, 0, 0, 0)

  /** The first four bytes, most significant first. */
  function U32At(val: Bytes): u32
    requires |val| >= 4
  {
    var a: int, b: int, c: int, d: int := val[0], val[1], val[2], val[3];
    a * 16777216 + b * 65536 + c * 256 + d
  }

  /** A value the parser takes for a code: four bytes, or a list of addresses. */
  predicate Usable(code: u8, val: Bytes) {
    |val| == 4 || (|val| >= 4 && (code == ROUTER || code == DNS))
  }

  function Apply(o: Options, code: u8, val: Bytes): Options {
    if code == MSG_TYPE && |val| == 1 then o.(msgType := val[0])
    else if !Usable(code, val) then o
    else
      var v := U32At(val);
      if code == SERVER_ID then o.(serverId := v)
      else if code == SUBNET_MASK then o.(mask := v)
      else if code == ROUTER then o.(router := v)
      else if code == DNS then o.(dns := v)
      else if code == LEASE_TIME then o.(lease := v)
      else if code == RENEWAL_TIME then o.(t1 := v)
      else if code == REBINDING_TIME then o.(t2 := v)
      else o
  }

  /** What the parser makes of any bytes, starting from o. */
  function Parse(b: Bytes, o: Options): Options {
    if b == [] || b[0] == END then o
    else if b[0] == PAD then Parse(b[1..], o)
    else if |b| < 2 || 2 + b[1] > |b| then o
    else Parse(b[2 + b[1]..], Apply(o, b[0], b[2..2 + b[1]]))
  }

  /** dhcp_client_parse_options: reads only inside the buffer and always ends. */
  method ParseOptions(b: Bytes) returns (o: Options)
    ensures o == Parse(b, NO_OPTIONS)
  {
    o := NO_OPTIONS;
    var off := 0;
    while off < |b|
      invariant off <= |b| && Parse(b[off..], o) == Parse(b, NO_OPTIONS)
    {
      var rest := b[off..];
      var opt := b[off];
      off := off + 1;
      assert b[off..] == rest[1..];
      if opt == END {
        break;
      }
      if opt == PAD {
        continue;
      }
      if off >= |b| {
        break;
      }
      var len: int := b[off];
      off := off + 1;
      if off + len > |b| {
        break;
      }
      assert b[off..off + len] == rest[2..2 + len] && b[off + len..] == rest[2 + len..];
      o := Apply(o, opt, b[off..off + len]);
      off := off + len;
    }
  }

  // ---- What a server encodes ---------------------------------------------

  datatype Item = Padding | Item(code: u8, val: Bytes)

  predicate Encodable(i: Item) {
    i.Item? ==> i.code != PAD && i.code != END && |i.val| < 256
  }

  function EncodeItem(i: Item): Bytes
    requires Encodable(i)
  {
    match i
    case Padding => [0]
    case Item(code, val) => [code, |val|] + val
  }

  function Encode(items: seq<Item>): Bytes
    requires forall i :: i in items ==> Encodable(i)
  {
    if items == [] then [] else EncodeItem(items[0]) + Encode(items[1..])
  }

  /** The last usable value for a code, or other if there is none. */
  function Latest(items: seq<Item>, code: u8, other: u32): u32 {
    if items == [] then other
    else
      var i := items[|items| - 1];
      if i.Item? && i.code == code && Usable(code, i.val) then U32At(i.val)
      else Latest(items[..|items| - 1], code, other)
  }

  function LatestType(items: seq<Item>): u8 {
    if items == [] then 0
    else
      var i := items[|items| - 1];
      if i.Item? && i.code == MSG_TYPE && |i.val| == 1 then i.val[0] else LatestType(items[..|items| - 1])
  }

  function Meaning(items: seq<Item>): Options {
    Options(
      LatestType(items), Latest(items, SERVER_ID, 0), Latest(items, SUBNET_MASK, 0), Latest(items, ROUTER, 0),
      Latest(items, DNS, 0), Latest(items, LEASE_TIME, 0), Latest(items, RENEWAL_TIME, 0),
      Latest(items, REBINDING_TIME, 0))
  }

  lemma MeaningAppend(items: seq<Item>, i: Item)
    ensures Meaning(items + [i]) == if i.Item? then Apply(Meaning(items), i.code, i.val) else Meaning(items)
  {
    assert (items + [i])[..|items|] == items;
  }

  lemma ParseOne(i: Item, rest: Bytes, o: Options)
    requires Encodable(i)
    ensures Parse(EncodeItem(i) + rest, o) == Parse(rest, if i.Item? then Apply(o, i.code, i.val) else o)
  {
    var b := EncodeItem(i) + rest;
    if i.Padding? {
      assert b[1..] == rest;
    } else {
      assert b[2 + b[1]..] == rest && b[2..2 + b[1]] == i.val;
    }
  }

  lemma {:induction false} ParseUpTo(done: seq<Item>, items: seq<Item>, tail: Bytes)
    requires forall i :: i in items ==> Encodable(i)
    ensures Parse(Encode(items) + tail, Meaning(done)) == Parse(tail, Meaning(done + items))
    decreases |items|
  {
    hide Parse, Meaning, Apply, EncodeItem;
    if items == [] {
      assert Encode(items) + tail == tail && done + items == done;
    } else {
      var rest := Encode(items[1..]) + tail;
      FirstItemApart(items, tail);
      ParseOne(items[0], rest, Meaning(done));
      MeaningAppend(done, items[0]);
      ParseUpTo(done + [items[0]], items[1..], tail);
      assert done + [items[0]] + items[1..] == done + items;
    }
  }

  lemma FirstItemApart(items: seq<Item>, tail: Bytes)
    requires items != [] && forall i :: i in items ==> Encodable(i)
    ensures Encode(items) + tail == EncodeItem(items[0]) + (Encode(items[1..]) + tail)
  {
    hide EncodeItem;
  }

  /** Whatever options a server encodes, in any order and with any padding, up to the end of
      the field or an end mark: the client takes the last usable value of each. */
  lemma ParseEncoded(items: seq<Item>, tail: Bytes)
    requires forall i :: i in items ==> Encodable(i)
    requires tail == [] || tail[0] == END
    ensures Parse(Encode(items) + tail, NO_OPTIONS) == Meaning(items)
  {
    ParseUpTo([], items, tail);
    assert [] + items == items;
  }

  /** An option cut off by the end of the field is ignored, like everything after it. */
  lemma TruncatedOptionIsIgnored(items: seq<Item>, code: u8, len: u8, val: Bytes)
    requires forall i :: i in items ==> Encodable(i)
    requires code != PAD && code != END && |val| < len
    ensures Parse(Encode(items) + [code, len] + val, NO_OPTIONS) == Meaning(items)
    ensures Parse(Encode(items) + [code], NO_OPTIONS) == Meaning(items)
  {
    var cut := [code, len] + val;
    ParseUpTo([], items, cut);
    ParseUpTo([], items, [code]);
    assert [] + items == items;
    assert Encode(items) + [code, len] + val == Encode(items) + cut;
    assert Parse(cut, Meaning(items)) == Meaning(items) == Parse([code], Meaning(items));
    hide Meaning, Parse;
  }
}

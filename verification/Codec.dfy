/** The parser and encoder as the loops they are, proved to compute the functions of `Resp`. */
module Codec {
  import opened Bytes
  import opened Decimal
  import opened Resp
  import opened RespProofs

  /** A list of items already parsed, followed by the outcome of the rest. */
  ghost function Prepend(items: seq<RespValue>, consumed: nat, r: ItemsOutcome): ItemsOutcome {
    match r
    case Items(vs, cs) => Items(items + vs, consumed + cs)
    case _ => r
  }

  lemma PrependNone(r: ItemsOutcome)
    ensures Prepend([], 0, r) == r
  {
    if r.Items? {
      assert [] + r.items == r.items;
    }
  }

  /** How each way out of the element loop reads as the outcome of the array. */
  lemma ItemsOutcomes(next: nat, items: seq<RespValue>, n: nat)
    ensures Close(next, Prepend(items, n, ItemsMore)) == NeedMore
    ensures forall e :: Close(next, Prepend(items, n, ItemsFail(e))) == Fail(e)
    ensures Close(next, Prepend(items, n, Items([], 0))) == Parsed(Array(items), next + n)
  {
    assert items + [] == items;
  }

  lemma PrependCons(items: seq<RespValue>, n: nat, v: RespValue, c: nat, r: ItemsOutcome)
    ensures Prepend(items, n, Cons(v, c, r)) == Prepend(items + [v], n + c, r)
  {
    if r.Items? {
      assert items + ([v] + r.items) == items + [v] + r.items;
    }
  }

  method ParseValue(buf: Bytes) returns (r: Outcome)
    ensures r == Parse(buf)
    decreases |buf|, 0
  {
    var head := ParseHead(buf);
    match head {
      case Stop(outcome) =>
        r := outcome;
      case Open(count, next) =>
        r := ParseArrayBody(buf, next, count);
    }
  }

  /** The element loop: a moving offset, a growing list, three ways out. */
  method ParseArrayBody(buf: Bytes, next: nat, count: nat) returns (r: Outcome)
    requires 0 < next <= |buf|
    ensures r == Close(next, ParseItems(buf[next..], count))
    decreases |buf|, 0, 0
  {
    hide *;
    var offset := next;
    var items: seq<RespValue> := [];
    PrependNone(ParseItems(buf[next..], count));
    var i := 0;
    while i < count
      invariant 0 <= i <= count && next <= offset <= |buf|
      invariant ParseItems(buf[next..], count) == Prepend(items, offset - next, ParseItems(buf[offset..], count - i))
    {
      ItemsStep(buf[offset..], count - i);
      ItemsOutcomes(next, items, offset - next);
      var one := ParseValue(buf[offset..]);
      match one {
        case NeedMore =>
          return NeedMore;
        case Fail(e) =>
          return Fail(e);
        case Parsed(v, consumed) =>
          assert buf[offset..][consumed..] == buf[offset + consumed..];
          PrependCons(items, offset - next, v, consumed, ParseItems(buf[offset + consumed..], count - i - 1));
          items := items + [v];
          offset := offset + consumed;
      }
      i := i + 1;
    }
    ItemsStep(buf[offset..], 0);
    ItemsOutcomes(next, items, offset - next);
    r := Parsed(Array(items), offset);
  }

  ghost function PrependAll(values: seq<RespValue>, consumed: nat, r: AllOutcome): AllOutcome {
    match r
    case AllParsed(vs, cs) => AllParsed(values + vs, consumed + cs)
    case _ => r
  }

  lemma PrependAllNone(r: AllOutcome)
    ensures PrependAll([], 0, r) == r
  {
    if r.AllParsed? {
      assert [] + r.values == r.values;
    }
  }

  lemma PrependAllEnds(values: seq<RespValue>, n: nat)
    ensures PrependAll(values, n, AllParsed([], 0)) == AllParsed(values, n)
    ensures forall e :: PrependAll(values, n, AllFail(e)) == AllFail(e)
  {
    assert values + [] == values;
  }

  lemma PrependAllCons(values: seq<RespValue>, n: nat, v: RespValue, c: nat, r: AllOutcome)
    ensures PrependAll(values, n, ConsAll(v, c, r)) == PrependAll(values + [v], n + c, r)
  {
    if r.AllParsed? {
      assert values + ([v] + r.values) == values + [v] + r.values;
    }
  }

  method ParseAllValues(buf: Bytes) returns (r: AllOutcome)
    ensures r == ParseAll(buf)
  {
    hide *;
    var values: seq<RespValue> := [];
    var offset := 0;
    assert buf[0..] == buf;
    PrependAllNone(ParseAll(buf));
    while true
      invariant 0 <= offset <= |buf|
      invariant ParseAll(buf) == PrependAll(values, offset, ParseAll(buf[offset..]))
      decreases |buf| - offset
    {
      AllStep(buf[offset..]);
      var one := ParseValue(buf[offset..]);
      match one {
        case NeedMore =>
          PrependAllEnds(values, offset);
          return AllParsed(values, offset);
        case Fail(e) =>
          PrependAllEnds(values, offset);
          return AllFail(e);
        case Parsed(v, consumed) =>
          assert buf[offset..][consumed..] == buf[offset + consumed..];
          PrependAllCons(values, offset, v, consumed, ParseAll(buf[offset + consumed..]));
          values := values + [v];
          offset := offset + consumed;
      }
    }
  }

  /** Type byte, text, CRLF. */
  method PushLine(buf: Bytes, tag: byte, text: Bytes) returns (out: Bytes)
    ensures out == buf + ([tag] + text + CRLF)
  {
    out := buf + [tag];
    out := out + text;
    out := out + CRLF;
  }

  lemma NilText()
    ensures Encode(Nil) == [T_BULK, 45, 49, CR, LF]
  {
    assert PrintInt(-1) == [45, 49];
  }

  /** Append the encoding of `v` to `buf`. */
  method EncodeInto(v: RespValue, buf: Bytes) returns (out: Bytes)
    ensures out == buf + Encode(v)
    decreases v
  {
    match v
    case SimpleString(s) =>
      out := PushLine(buf, T_SIMPLE, s);
    case Error(e) =>
      out := PushLine(buf, T_ERROR, e);
    case Integer(n) =>
      out := PushLine(buf, T_INTEGER, PrintInt(n));
    case BulkString(data) =>
      out := PushLine(buf, T_BULK, PrintNat(|data|));
      ghost var header := [T_BULK] + PrintNat(|data|) + CRLF;
      out := out + data + CRLF;
      assert out == buf + (header + data + CRLF);
    case Nil =>
      NilText();
      out := buf + [T_BULK, 45, 49, CR, LF];
    case Array(items) =>
      out := PushLine(buf, T_ARRAY, PrintNat(|items|));
      ghost var header := [T_ARRAY] + PrintNat(|items|) + CRLF;
      out := EncodeItems(items, out);
      assert out == buf + (header + EncodeAll(items));
  }

  /** The element loop of the encoder. */
  method EncodeItems(items: seq<RespValue>, buf: Bytes) returns (out: Bytes)
    ensures out == buf + EncodeAll(items)
    decreases items
  {
    out := buf;
    var i := 0;
    while i < |items|
      invariant 0 <= i <= |items|
      invariant out + EncodeAll(items[i..]) == buf + EncodeAll(items)
    {
      ghost var before := out;
      out := EncodeInto(items[i], out);
      assert items[i..][1..] == items[i + 1..];
      assert out + EncodeAll(items[i + 1..]) == before + (Encode(items[i]) + EncodeAll(items[i + 1..]));
      i := i + 1;
    }
    assert items[i..] == [];
    assert out + [] == out;
  }
}

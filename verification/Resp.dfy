/**
 * RESP2, the Redis serialization protocol: simple strings, simple errors, integers, bulk strings
 * and arrays. An incremental parser with three outcomes, and the encoder.
 */
module Resp {
  import opened Bytes
  import opened Decimal
  import Utf8

  const CR: byte := 13
  const LF: byte := 10
  const CRLF: Bytes := [13, 10]

  const T_SIMPLE: byte := 43
  const T_ERROR: byte := 45
  const T_INTEGER: byte := 58
  const T_BULK: byte := 36
  const T_ARRAY: byte := 42

  datatype RespValue =
    | SimpleString(text: Bytes)
    | Error(message: Bytes)
    | Integer(number: int)
    | BulkString(data: Bytes)
    | Nil
    | Array(items: seq<RespValue>)

  datatype RespError =
    | UnknownType(tag: byte)
    | NonUtf8Line
    | InvalidInteger(line: Bytes)
    | InvalidBulkLength(line: Bytes)
    | InvalidArrayLength(line: Bytes)

  datatype Outcome = NeedMore | Fail(error: RespError) | Parsed(value: RespValue, consumed: nat)

  /** Position of the first CRLF. */
  function FindCrlf(buf: Bytes): (r: Option<nat>)
    ensures r.None? ==> forall i | 0 <= i < |buf| - 1 :: !(buf[i] == CR && buf[i + 1] == LF)
    ensures r.Some? ==> r.value + 1 < |buf| && buf[r.value] == CR && buf[r.value + 1] == LF
    ensures r.Some? ==> forall i | 0 <= i < r.value :: !(buf[i] == CR && buf[i + 1] == LF)
  {
    if |buf| < 2 then None
    else if buf[0] == CR && buf[1] == LF then Some(0)
    else
      var r := FindCrlf(buf[1..]);
      assert forall i | 1 <= i < |buf| - 1 :: buf[i] == buf[1..][i - 1] && buf[i + 1] == buf[1..][i];
      if r.None? then None else Some(r.value + 1)
  }

  /** The text between the type byte and the first CRLF, and where the next item starts. */
  datatype LineOutcome = LineMore | LineFail | Line(text: Bytes, next: nat)

  function ParseLine(buf: Bytes): (r: LineOutcome)
    requires buf != [] && buf[0] != CR
    ensures r.Line? ==> 3 <= r.next <= |buf| && r.text == buf[1..r.next - 2] && Utf8.Valid(r.text)
  {
    match FindCrlf(buf)
    case None => LineMore
    case Some(pos) => if Utf8.Valid(buf[1..pos]) then Line(buf[1..pos], pos + 2) else LineFail
  }

  predicate IsTag(b: byte) { b == T_SIMPLE || b == T_ERROR || b == T_INTEGER || b == T_BULK || b == T_ARRAY }

  /** What the front of the buffer amounts to: a final outcome, or an array header. */
  datatype Head = Stop(outcome: Outcome) | Open(count: nat, next: nat)

  function FinishInteger(line: Bytes, next: nat): Head {
    match ParseI64(line)
    case None => Stop(Fail(InvalidInteger(line)))
    case Some(n) => Stop(Parsed(Integer(n), next))
  }

  function FinishBulk(buf: Bytes, line: Bytes, next: nat): Head
    requires next <= |buf|
  {
    match ParseI64(line)
    case None => Stop(Fail(InvalidBulkLength(line)))
    case Some(len) =>
      if len < 0 then Stop(Parsed(Nil, next))
      else if |buf| < next + len + 2 then Stop(NeedMore)
      else Stop(Parsed(BulkString(buf[next..next + len]), next + len + 2))
  }

  function FinishArray(line: Bytes, next: nat): Head {
    match ParseI64(line)
    case None => Stop(Fail(InvalidArrayLength(line)))
    case Some(count) => if count < 0 then Stop(Parsed(Nil, next)) else Open(count, next)
  }

  function ParseHead(buf: Bytes): (h: Head)
    ensures h.Stop? && h.outcome.Parsed? ==> 3 <= h.outcome.consumed <= |buf|
    ensures h.Open? ==> 3 <= h.next <= |buf|
  {
    if buf == [] then Stop(NeedMore)
    else if !IsTag(buf[0]) then Stop(Fail(UnknownType(buf[0])))
    else match ParseLine(buf)
      case LineMore => Stop(NeedMore)
      case LineFail => Stop(Fail(NonUtf8Line))
      case Line(line, next) =>
        if buf[0] == T_SIMPLE then Stop(Parsed(SimpleString(line), next))
        else if buf[0] == T_ERROR then Stop(Parsed(Error(line), next))
        else if buf[0] == T_INTEGER then FinishInteger(line, next)
        else if buf[0] == T_BULK then FinishBulk(buf, line, next)
        else FinishArray(line, next)
  }

  datatype ItemsOutcome = ItemsMore | ItemsFail(error: RespError) | Items(items: seq<RespValue>, consumed: nat)

  function Close(next: nat, r: ItemsOutcome): Outcome {
    match r
    case ItemsMore => NeedMore
    case ItemsFail(e) => Fail(e)
    case Items(items, consumed) => Parsed(Array(items), next + consumed)
  }

  function Cons(v: RespValue, c: nat, r: ItemsOutcome): (all: ItemsOutcome)
    ensures all.ItemsMore? <==> r.ItemsMore?
  {
    match r
    case Items(vs, cs) => Items([v] + vs, c + cs)
    case _ => r
  }

  /** One value from the front of `buf`. */
  function Parse(buf: Bytes): (r: Outcome)
    ensures r.Parsed? ==> 3 <= r.consumed <= |buf|
    decreases |buf|, 0
  {
    match ParseHead(buf)
    case Stop(r) => r
    case Open(count, next) => Close(next, ParseItems(buf[next..], count))
  }

  /** `count` values in a row: the element loop of an array. */
  function ParseItems(buf: Bytes, count: nat): (r: ItemsOutcome)
    ensures r.Items? ==> |r.items| == count && 3 * count <= r.consumed <= |buf|
    decreases |buf|, 1, count
  {
    if count == 0 then Items([], 0)
    else match Parse(buf)
      case NeedMore => ItemsMore
      case Fail(e) => ItemsFail(e)
      case Parsed(v, c) => Cons(v, c, ParseItems(buf[c..], count - 1))
  }

  datatype AllOutcome = AllFail(error: RespError) | AllParsed(values: seq<RespValue>, consumed: nat)

  function ConsAll(v: RespValue, c: nat, r: AllOutcome): (all: AllOutcome)
    ensures all.AllFail? <==> r.AllFail?
    ensures all.AllParsed? ==> all.consumed == c + r.consumed
  {
    match r
    case AllFail(_) => r
    case AllParsed(vs, cs) => AllParsed([v] + vs, c + cs)
  }

  /** As many complete values as `buf` holds. */
  function ParseAll(buf: Bytes): (r: AllOutcome)
    ensures r.AllParsed? ==> r.consumed <= |buf|
    decreases |buf|
  {
    match Parse(buf)
    case NeedMore => AllParsed([], 0)
    case Fail(e) => AllFail(e)
    case Parsed(v, c) => ConsAll(v, c, ParseAll(buf[c..]))
  }

  function Encode(v: RespValue): Bytes
    decreases v
  {
    match v
    case SimpleString(s) => [T_SIMPLE] + s + CRLF
    case Error(e) => [T_ERROR] + e + CRLF
    case Integer(n) => [T_INTEGER] + PrintInt(n) + CRLF
    case BulkString(data) => [T_BULK] + PrintNat(|data|) + CRLF + data + CRLF
    case Nil => [T_BULK] + PrintInt(-1) + CRLF
    case Array(items) => [T_ARRAY] + PrintNat(|items|) + CRLF + EncodeAll(items)
  }

  function EncodeAll(vs: seq<RespValue>): Bytes
    decreases vs
  {
    if vs == [] then [] else Encode(vs[0]) + EncodeAll(vs[1..])
  }
}

/**
 * What the server answers: replies as data, and the protocol values with their texts that are
 * written to the socket.
 */
module Replies {
  import opened Bytes
  import opened Decimal
  import opened Resp
  import opened ClientModel

  // ---- commands ----

  datatype CommandError = ExpectedArray | NameNotBulk | NonUtf8Name | ArgsNotBulk

  datatype Verb = PING | GET | SET | DEL | EXISTS | MGET | MSET | INCR | DECR | TTL | FLUSH | INFO | COMMAND | OTHER

  datatype Reply =
    | OkReply
    | PongReply
    | BulkReply(data: Bytes)
    | NilReply
    | IntReply(n: int)
    | ValuesReply(values: seq<Option<Bytes>>)
    | ErrReply(error: ClientError)
    | BadReply(why: CommandError)
    | WrongArgs(verb: Verb)
    | InfoReply(used: u64, capacity: nat)
    | CommandsReply
    | UnknownCommand(name: Bytes)

  function UpperByte(b: byte): byte { if 97 <= b <= 122 then b - 32 else b }

  function LowerByte(b: byte): byte { if 65 <= b <= 90 then b + 32 else b }

  function Upper(s: Bytes): (u: Bytes)
    ensures |u| == |s| && forall i :: 0 <= i < |s| ==> u[i] == UpperByte(s[i])
  {
    seq(|s|, i requires 0 <= i < |s| => UpperByte(s[i]))
  }

  function Lower(s: Bytes): (u: Bytes)
    ensures |u| == |s| && forall i :: 0 <= i < |s| ==> u[i] == LowerByte(s[i])
  {
    seq(|s|, i requires 0 <= i < |s| => LowerByte(s[i]))
  }

  // ---- texts ----

  predicate Printable(s: string) { forall i | 0 <= i < |s| :: ' ' <= s[i] <= '~' }

  /** Printable ASCII. */
  type PlainText = s: Bytes | forall i | 0 <= i < |s| :: 32 <= s[i] <= 126

  /** The bytes of a literal of printable ASCII characters. */
  function Text(s: string): (b: PlainText)
    requires Printable(s)
    ensures |b| == |s| && forall i :: 0 <= i < |s| ==> b[i] as int == s[i] as int
  {
    seq(|s|, i requires 0 <= i < |s| => s[i] as byte)
  }

  const OK: PlainText := Text("OK")
  const PONG: PlainText := Text("PONG")
  const ERR: PlainText := Text("ERR ")

  /** U+2014 in UTF-8. */
  const EM_DASH: Bytes := [0xE2, 0x80, 0x94]
  const FULL_HEAD: PlainText := Text("Arena is full ")
  const FULL_MIDDLE: PlainText := Text(" all ")
  const FULL_TAIL: PlainText := Text(" slots are occupied")
  const KEY_HEAD: PlainText := Text("Key too long: ")
  const KEY_TAIL: PlainText := Text(" bytes (max 128)")
  const VALUE_HEAD: PlainText := Text("Value too long: ")
  const VALUE_TAIL: PlainText := Text(" bytes (max 1024)")

  const NO_ARRAY: PlainText := Text("Expected RESP array for command")
  const NO_BULK_NAME: PlainText := Text("Command name must be a bulk string")
  const NO_UTF8_NAME: PlainText := Text("Non-UTF8 command name")
  const NO_BULK_ARGS: PlainText := Text("Command args must be bulk strings")

  const PROTOCOL: PlainText := Text("Protocol error: ")
  const BAD_TYPE: PlainText := Text("Unknown RESP type byte: 0x")
  const BAD_LINE: PlainText := Text("Non-UTF8 line")
  const BAD_INTEGER: PlainText := Text("Invalid integer: ")
  const BAD_BULK: PlainText := Text("Invalid bulk string length: ")
  const BAD_ARRAY: PlainText := Text("Invalid array length: ")

  const ARGS_HEAD: PlainText := Text("ERR wrong number of arguments for '")
  const ARGS_TAIL: PlainText := Text("' command")
  const UNKNOWN_HEAD: PlainText := Text("ERR unknown command '")
  const UNKNOWN_TAIL: PlainText := Text("', try PING, GET, SET, DEL, EXISTS, ")
  const UNKNOWN_MORE: PlainText := Text("MGET, MSET, INCR, DECR, FLUSH, INFO")

  function HexDigit(n: nat): (b: byte)
    requires n < 16
    ensures 48 <= b <= 102
  {
    if n < 10 then (48 + n) as byte else (87 + n) as byte
  }

  /** Two lower-case hexadecimal digits. */
  function Hex(b: byte): PlainText { [HexDigit(b as nat / 16), HexDigit(b as nat % 16)] }

  /** `format!("ERR {}", message)`. */
  function Failure(message: Bytes): RespValue { Error(ERR + message) }

  function ClientErrorText(e: ClientError): Bytes {
    match e
    case ArenaFull(n) => FULL_HEAD + EM_DASH + (FULL_MIDDLE + PrintNat(n) + FULL_TAIL)
    case KeyTooLong(n) => KEY_HEAD + PrintNat(n) + KEY_TAIL
    case ValueTooLong(n) => VALUE_HEAD + PrintNat(n) + VALUE_TAIL
  }

  function CommandErrorText(e: CommandError): PlainText {
    match e
    case ExpectedArray => NO_ARRAY
    case NameNotBulk => NO_BULK_NAME
    case NonUtf8Name => NO_UTF8_NAME
    case ArgsNotBulk => NO_BULK_ARGS
  }

  function ProtocolErrorText(e: RespError): Bytes {
    match e
    case UnknownType(tag) => PROTOCOL + BAD_TYPE + Hex(tag)
    case NonUtf8Line => PROTOCOL + BAD_LINE
    case InvalidInteger(line) => PROTOCOL + BAD_INTEGER + line
    case InvalidBulkLength(line) => PROTOCOL + BAD_BULK + line
    case InvalidArrayLength(line) => PROTOCOL + BAD_ARRAY + line
  }

  function VerbName(verb: Verb): PlainText {
    match verb
    case PING => Text("PING")
    case GET => Text("GET")
    case SET => Text("SET")
    case DEL => Text("DEL")
    case EXISTS => Text("EXISTS")
    case MGET => Text("MGET")
    case MSET => Text("MSET")
    case INCR => Text("INCR")
    case DECR => Text("DECR")
    case TTL => Text("TTL")
    case FLUSH => Text("FLUSH")
    case INFO => Text("INFO")
    case COMMAND => Text("COMMAND")
    case OTHER => []
  }

  function WrongArgsText(verb: Verb): Bytes { ARGS_HEAD + Lower(VerbName(verb)) + ARGS_TAIL }

  function UnknownText(name: Bytes): Bytes { UNKNOWN_HEAD + Lower(name) + (UNKNOWN_TAIL + UNKNOWN_MORE) }

  /** A percentage with two decimals; its floating-point formatting is a parameter. */
  type Percent = s: Bytes | |s| <= 32
  type Ratio = (u64, nat) -> Percent

  const INFO_HEAD: Bytes := Text("# MemLane") + CRLF + Text("memlane_version:0.1.0") + CRLF + Text("used_slots:")
  const INFO_TOTAL: Bytes := CRLF + Text("total_slots:")
  const INFO_RATIO: Bytes := CRLF + Text("fill_ratio:")
  const INFO_TAIL: Bytes := Text("%") + CRLF + Text("transport:shared_memory") + CRLF + Text("protocol:RESP2") + CRLF

  function InfoText(ratio: Ratio, used: u64, capacity: nat): Bytes {
    INFO_HEAD + PrintNat(used) + INFO_TOTAL + PrintNat(capacity) + INFO_RATIO + ratio(used, capacity) + INFO_TAIL
  }

  function BulkOrNil(v: Option<Bytes>): RespValue { if v.Some? then BulkString(v.value) else Nil }

  /** The protocol value of a reply. */
  function Render(ratio: Ratio, r: Reply): RespValue {
    match r
    case OkReply => SimpleString(OK)
    case PongReply => SimpleString(PONG)
    case BulkReply(data) => BulkString(data)
    case NilReply => Nil
    case IntReply(n) => Integer(n)
    case ValuesReply(values) => Array(seq(|values|, i requires 0 <= i < |values| => BulkOrNil(values[i])))
    case ErrReply(e) => Failure(ClientErrorText(e))
    case BadReply(why) => Failure(CommandErrorText(why))
    case WrongArgs(verb) => Error(WrongArgsText(verb))
    case InfoReply(used, capacity) => BulkString(InfoText(ratio, used, capacity))
    case CommandsReply => Array([])
    case UnknownCommand(name) => Error(UnknownText(name))
  }
}

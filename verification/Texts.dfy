/** The texts a client reads, letter by letter: errors and INFO. */
module Texts {
  import opened Bytes
  import opened Decimal
  import opened Resp
  import opened ClientModel
  import opened Replies
  import opened Wire

  predicate Spells(b: Bytes, s: string) { |b| == |s| && forall i | 0 <= i < |b| :: b[i] as int == s[i] as int }

  /** The text is this literal, these bytes, this literal. */
  predicate Says(m: Bytes, head: string, middle: Bytes, tail: string) {
    && |m| == |head| + |middle| + |tail|
    && Spells(m[..|head|], head) && m[|head|..|head| + |middle|] == middle && Spells(m[|head| + |middle|..], tail)
  }

  lemma Assembled(p: Bytes, middle: Bytes, q: Bytes, head: string, tail: string)
    requires Spells(p, head) && Spells(q, tail)
    ensures Says(p + middle + q, head, middle, tail)
  {
    var m := p + middle + q;
    assert m[..|p|] == p && m[|p|..|p| + |middle|] == middle && m[|p| + |middle|..] == q;
  }

  lemma Joins(p: Bytes, q: Bytes, a: string, b: string)
    requires Spells(p, a) && Spells(q, b)
    ensures Spells(p + q, a + b)
  {
  }

  // ---- protocol errors ----

  function Nibble(n: nat): byte
    requires n < 16
  {
    "0123456789abcdef"[n] as byte
  }

  /** What the report of a protocol error says, and what it quotes. */
  function Complaint(e: RespError): string {
    match e
    case UnknownType(_) => "Unknown RESP type byte: 0x"
    case NonUtf8Line => "Non-UTF8 line"
    case InvalidInteger(_) => "Invalid integer: "
    case InvalidBulkLength(_) => "Invalid bulk string length: "
    case InvalidArrayLength(_) => "Invalid array length: "
  }

  function Quotation(e: RespError): Bytes {
    match e
    case UnknownType(tag) => [Nibble(tag as nat / 16), Nibble(tag as nat % 16)]
    case NonUtf8Line => []
    case InvalidInteger(line) => line
    case InvalidBulkLength(line) => line
    case InvalidArrayLength(line) => line
  }

  lemma HexIs(tag: byte)
    ensures Hex(tag) == [Nibble(tag as nat / 16), Nibble(tag as nat % 16)]
  {
  }

  lemma ComplaintTexts()
    ensures Spells(BAD_TYPE, "Unknown RESP type byte: 0x") && Spells(BAD_LINE, "Non-UTF8 line")
    ensures Spells(BAD_INTEGER, "Invalid integer: ") && Spells(BAD_BULK, "Invalid bulk string length: ")
    ensures Spells(BAD_ARRAY, "Invalid array length: ")
  {
  }

  lemma ComplaintIs(e: RespError) returns (p: Bytes)
    ensures Spells(p, Complaint(e)) && ProtocolErrorText(e) == PROTOCOL + p + Quotation(e)
  {
    ComplaintTexts();
    hide Spells, PROTOCOL, BAD_TYPE, BAD_LINE, BAD_INTEGER, BAD_BULK, BAD_ARRAY, Hex, Nibble;
    match e
    case UnknownType(tag) =>
      p := BAD_TYPE;
      HexIs(tag);
    case NonUtf8Line =>
      p := BAD_LINE;
      assert PROTOCOL + p + [] == PROTOCOL + p;
    case InvalidInteger(_) => p := BAD_INTEGER;
    case InvalidBulkLength(_) => p := BAD_BULK;
    case InvalidArrayLength(_) => p := BAD_ARRAY;
  }

  lemma PrefixIs()
    ensures Spells(ERR + PROTOCOL, "ERR Protocol error: ")
  {
    Joins(ERR, PROTOCOL, "ERR ", "Protocol error: ");
  }

  lemma NothingSpelled()
    ensures Spells([], "")
  {
  }

  lemma {:induction false} ReportSays(e: RespError)
    ensures var w := Failure(ProtocolErrorText(e));
            w.Error? && Says(w.message, "ERR Protocol error: " + Complaint(e), Quotation(e), "")
  {
    var p := ComplaintIs(e);
    PrefixIs();
    hide PROTOCOL, ERR, Spells, Complaint, Quotation, ProtocolErrorText;
    Joins(ERR + PROTOCOL, p, "ERR Protocol error: ", Complaint(e));
    NothingSpelled();
    Assembled(ERR + PROTOCOL + p, Quotation(e), [], "ERR Protocol error: " + Complaint(e), "");
    assert ERR + (PROTOCOL + p + Quotation(e)) == (ERR + PROTOCOL + p) + Quotation(e) + [];
  }

  // ---- refused commands ----

  lemma MessageSays(p: Bytes, middle: Bytes, q: Bytes, head: string, tail: string)
    requires Spells(p, head) && Spells(q, tail)
    ensures Says(Failure(p + middle + q).message, "ERR " + head, middle, tail)
  {
    assert Spells(ERR, "ERR ");
    hide ERR, Spells;
    Joins(ERR, p, "ERR ", head);
    Assembled(ERR + p, middle, q, "ERR " + head, tail);
    assert ERR + (p + middle + q) == (ERR + p) + middle + q;
  }

  lemma LimitTexts()
    ensures Spells(KEY_HEAD, "Key too long: ") && Spells(KEY_TAIL, " bytes (max 128)")
    ensures Spells(VALUE_HEAD, "Value too long: ") && Spells(VALUE_TAIL, " bytes (max 1024)")
  {
  }

  lemma FullTexts()
    ensures Spells(FULL_HEAD, "Arena is full ") && Spells(FULL_TAIL, " slots are occupied")
    ensures EM_DASH + FULL_MIDDLE == [0xE2, 0x80, 0x94, 32, 97, 108, 108, 32]
  {
  }

  lemma LimitPieces(n: nat)
    ensures ClientErrorText(KeyTooLong(n)) == KEY_HEAD + PrintNat(n) + KEY_TAIL
    ensures ClientErrorText(ValueTooLong(n)) == VALUE_HEAD + PrintNat(n) + VALUE_TAIL
    ensures ClientErrorText(ArenaFull(n)) == FULL_HEAD + (EM_DASH + FULL_MIDDLE + PrintNat(n)) + FULL_TAIL
  {
    hide KEY_HEAD, KEY_TAIL, VALUE_HEAD, VALUE_TAIL, FULL_HEAD, FULL_TAIL, FULL_MIDDLE, EM_DASH, PrintNat;
    var m := EM_DASH + FULL_MIDDLE + PrintNat(n);
    assert FULL_HEAD + EM_DASH + (FULL_MIDDLE + PrintNat(n) + FULL_TAIL) == FULL_HEAD + m + FULL_TAIL;
  }

  /** Keys and values that do not fit, a full arena: the texts with their numbers. */
  lemma {:induction false} LimitsSay(n: nat)
    ensures Says(Failure(ClientErrorText(KeyTooLong(n))).message, "ERR " + "Key too long: ", PrintNat(n),
                 " bytes (max 128)")
    ensures Says(Failure(ClientErrorText(ValueTooLong(n))).message, "ERR " + "Value too long: ", PrintNat(n),
                 " bytes (max 1024)")
    ensures Says(Failure(ClientErrorText(ArenaFull(n))).message, "ERR " + "Arena is full ",
                 [0xE2, 0x80, 0x94, 32, 97, 108, 108, 32] + PrintNat(n), " slots are occupied")
  {
    LimitPieces(n);
    hide *;
    LimitTexts();
    FullTexts();
    MessageSays(KEY_HEAD, PrintNat(n), KEY_TAIL, "Key too long: ", " bytes (max 128)");
    MessageSays(VALUE_HEAD, PrintNat(n), VALUE_TAIL, "Value too long: ", " bytes (max 1024)");
    MessageSays(FULL_HEAD, EM_DASH + FULL_MIDDLE + PrintNat(n), FULL_TAIL, "Arena is full ", " slots are occupied");
  }

  function Objection(why: CommandError): string {
    match why
    case ExpectedArray => "Expected RESP array for command"
    case NameNotBulk => "Command name must be a bulk string"
    case NonUtf8Name => "Non-UTF8 command name"
    case ArgsNotBulk => "Command args must be bulk strings"
  }

  lemma {:induction false} ObjectionSays(why: CommandError)
    ensures Says(Failure(CommandErrorText(why)).message, "ERR " + Objection(why), [], "")
  {
    assert Spells(CommandErrorText(why), Objection(why));
    hide Spells, CommandErrorText, Objection, Failure;
    NothingSpelled();
    MessageSays(CommandErrorText(why), [], [], Objection(why), "");
    assert CommandErrorText(why) + [] + [] == CommandErrorText(why);
  }

  // ---- wrong arguments, unknown commands ----

  /** Every capital letter in lower case, everything else as it is. */
  predicate Lowered(s: Bytes, t: Bytes) {
    |t| == |s| && forall i | 0 <= i < |s| :: t[i] as int == if 65 <= s[i] <= 90 then s[i] as int + 32 else s[i] as int
  }

  lemma LowerUpper(raw: Bytes)
    ensures Lowered(raw, Lower(Upper(raw)))
  {
  }

  lemma ArgsTexts()
    ensures Spells(ARGS_HEAD, "ERR wrong number of arguments for '") && Spells(ARGS_TAIL, "' command")
  {
  }

  /** A command with the wrong number of arguments: its name is quoted. */
  lemma {:induction false} WrongArgsSay(verb: Verb)
    ensures Says(WrongArgsText(verb), "ERR wrong number of arguments for '", Lower(VerbName(verb)), "' command")
  {
    ArgsTexts();
    hide ARGS_HEAD, ARGS_TAIL, Spells, Says, Lower, VerbName;
    Assembled(ARGS_HEAD, Lower(VerbName(verb)), ARGS_TAIL, "ERR wrong number of arguments for '", "' command");
  }

  lemma UnknownTexts()
    ensures Spells(UNKNOWN_HEAD, "ERR unknown command '")
    ensures Spells(UNKNOWN_TAIL, "', try PING, GET, SET, DEL, EXISTS, ")
    ensures Spells(UNKNOWN_MORE, "MGET, MSET, INCR, DECR, FLUSH, INFO")
  {
  }

  /** An unknown command: its name is echoed in lower case. */
  lemma {:induction false} UnknownSays(raw: Bytes) returns (echo: Bytes)
    ensures Lowered(raw, echo)
    ensures Says(UnknownText(Upper(raw)), "ERR unknown command '", echo,
                 "', try PING, GET, SET, DEL, EXISTS, " + "MGET, MSET, INCR, DECR, FLUSH, INFO")
  {
    UnknownTexts();
    LowerUpper(raw);
    echo := Lower(Upper(raw));
    hide UNKNOWN_HEAD, UNKNOWN_TAIL, UNKNOWN_MORE, Spells, Says, Lower, Upper, Lowered;
    Joins(UNKNOWN_TAIL, UNKNOWN_MORE, "', try PING, GET, SET, DEL, EXISTS, ", "MGET, MSET, INCR, DECR, FLUSH, INFO");
    Assembled(UNKNOWN_HEAD, echo, UNKNOWN_TAIL + UNKNOWN_MORE, "ERR unknown command '",
              "', try PING, GET, SET, DEL, EXISTS, " + "MGET, MSET, INCR, DECR, FLUSH, INFO");
  }

  // ---- as predicates on what is read ----

  /** A lower-case word. */
  predicate Small(b: Bytes, name: string) {
    |b| == |name| && forall i | 0 <= i < |b| :: b[i] as int == name[i] as int + 32
  }

  /** The complaint about the number of arguments, with the command's name. */
  ghost predicate WrongCount(w: RespValue, verb: Verb)
    requires verb != OTHER
  {
    w.Error?
    && exists name ::
         && Small(name, Names(verb)[0])
         && Says(w.message, "ERR wrong number of arguments for '", name, "' command")
  }

  /** The complaint about a limit, with its number. */
  predicate Limit(w: RespValue, e: ClientError) {
    w.Error? &&
    match e
    case KeyTooLong(n) => Says(w.message, "ERR " + "Key too long: ", PrintNat(n), " bytes (max 128)")
    case ValueTooLong(n) => Says(w.message, "ERR " + "Value too long: ", PrintNat(n), " bytes (max 1024)")
    case ArenaFull(n) =>
      Says(w.message, "ERR " + "Arena is full ", [0xE2, 0x80, 0x94, 32, 97, 108, 108, 32] + PrintNat(n),
           " slots are occupied")
  }

  /** The complaint about an unknown command, echoing its name in lower case. */
  ghost predicate NotKnown(w: RespValue, raw: Bytes) {
    w.Error?
    && exists echo ::
         && Lowered(raw, echo)
         && Says(w.message, "ERR unknown command '", echo,
                 "', try PING, GET, SET, DEL, EXISTS, " + "MGET, MSET, INCR, DECR, FLUSH, INFO")
  }

  lemma {:induction false} LowerOfName(verb: Verb)
    requires verb != OTHER
    ensures Small(Lower(VerbName(verb)), Names(verb)[0])
  {
  }

  lemma WrongCountReads(verb: Verb)
    requires verb != OTHER
    ensures WrongCount(Error(WrongArgsText(verb)), verb)
  {
    LowerOfName(verb);
    WrongArgsSay(verb);
    hide Small, Says, Lower, VerbName, WrongArgsText, Names;
  }

  lemma LimitReads(e: ClientError)
    ensures Limit(Failure(ClientErrorText(e)), e)
  {
    hide Says, ClientErrorText;
    LimitsSay(match e case ArenaFull(n) => n case KeyTooLong(n) => n case ValueTooLong(n) => n);
  }

  lemma NotKnownReads(raw: Bytes)
    ensures NotKnown(Error(UnknownText(Upper(raw))), raw)
  {
    hide Says, UnknownText, Lowered, Upper;
    var echo := UnknownSays(raw);
  }

  // ---- INFO ----

  /** Seven lines. */
  ghost predicate InfoLines(b: Bytes, used: u64, n: nat, percent: Bytes) {
    exists x, y, z, end ::
      && b == x + PrintNat(used) + y + PrintNat(n) + z + percent + end
      && Spells(x, "# MemLane\r\n" + "memlane_version:0.1.0\r\nused_slots:") && Spells(y, "\r\ntotal_slots:")
      && Spells(z, "\r\nfill_ratio:") && Spells(end, "%\r\n" + "transport:shared_memory\r\n" + "protocol:RESP2\r\n")
  }

  lemma InfoStart()
    ensures Spells(INFO_HEAD, "# MemLane\r\n" + "memlane_version:0.1.0\r\nused_slots:")
  {
    var p, q := Text("# MemLane") + CRLF, Text("memlane_version:0.1.0") + CRLF + Text("used_slots:");
    assert Spells(p, "# MemLane\r\n") && Spells(q, "memlane_version:0.1.0\r\nused_slots:");
    assert INFO_HEAD == p + q;
    hide INFO_HEAD, Text, CRLF, Spells;
    Joins(p, q, "# MemLane\r\n", "memlane_version:0.1.0\r\nused_slots:");
  }

  lemma InfoMiddle()
    ensures Spells(INFO_TOTAL, "\r\ntotal_slots:") && Spells(INFO_RATIO, "\r\nfill_ratio:")
  {
  }

  lemma InfoEndLines()
    ensures Spells(Text("%") + CRLF, "%\r\n")
    ensures Spells(Text("transport:shared_memory") + CRLF, "transport:shared_memory\r\n")
    ensures Spells(Text("protocol:RESP2") + CRLF, "protocol:RESP2\r\n")
  {
  }

  lemma InfoEnd()
    ensures Spells(INFO_TAIL, "%\r\n" + "transport:shared_memory\r\n" + "protocol:RESP2\r\n")
  {
    InfoEndLines();
    var p, q, r := Text("%") + CRLF, Text("transport:shared_memory") + CRLF, Text("protocol:RESP2") + CRLF;
    assert INFO_TAIL == p + q + r;
    hide *;
    Joins(p, q, "%\r\n", "transport:shared_memory\r\n");
    Joins(p + q, r, "%\r\n" + "transport:shared_memory\r\n", "protocol:RESP2\r\n");
  }

  lemma {:induction false} InfoReads(ratio: Ratio, used: u64, n: nat)
    ensures InfoLines(InfoText(ratio, used, n), used, n, ratio(used, n))
  {
    InfoStart();
    InfoMiddle();
    InfoEnd();
    hide Spells, INFO_HEAD, INFO_TOTAL, INFO_RATIO, INFO_TAIL, PrintNat;
    assert InfoText(ratio, used, n)
        == INFO_HEAD + PrintNat(used) + INFO_TOTAL + PrintNat(n) + INFO_RATIO + ratio(used, n) + INFO_TAIL;
  }
}

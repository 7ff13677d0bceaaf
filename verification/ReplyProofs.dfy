/** Which replies a client can parse back: all of them, but for one echoed command name. */
module ReplyProofs {
  import opened Bytes
  import opened Decimal
  import opened SlotLayout
  import opened Table
  import opened Resp
  import opened RespProofs
  import opened ClientModel
  import opened Replies
  import opened Dispatch
  import C = ClientModel
  import Utf8

  // ---- texts ----

  lemma {:induction false} Utf8Concat(a: Bytes, b: Bytes)
    requires Utf8.Valid(a) && Utf8.Valid(b)
    ensures Utf8.Valid(a + b)
  {
    if a == [] {
      assert a + b == b;
    } else {
      var n := Utf8.CharLen(a);
      assert Utf8.CharLen(a + b) == n;
      assert (a + b)[n..] == a[n..] + b;
      Utf8Concat(a[n..], b);
    }
  }

  /** The two strings differ in ASCII bytes from 'A' upwards only. */
  ghost predicate SameButLetters(s: Bytes, t: Bytes) {
    |s| == |t| && forall i | 0 <= i < |s| :: s[i] == t[i] || (65 <= s[i] < 0x80 && 65 <= t[i] < 0x80)
  }

  lemma {:induction false} Utf8Same(s: Bytes, t: Bytes)
    requires SameButLetters(s, t) && Utf8.Valid(s)
    ensures Utf8.Valid(t)
  {
    if s != [] {
      var n := Utf8.CharLen(s);
      assert Utf8.CharLen(t) == n;
      assert SameButLetters(s[n..], t[n..]);
      Utf8Same(s[n..], t[n..]);
    }
  }

  /** Valid in a line as far as UTF-8 goes, and free of CR and LF. */
  ghost predicate Harmless(s: Bytes) { Utf8.Valid(s) && forall i | 0 <= i < |s| :: s[i] != CR && s[i] != LF }

  lemma PlainIsHarmless(s: PlainText)
    ensures Harmless(s)
  {
    Utf8.AsciiIsValid(s);
  }

  lemma NothingIsHarmless()
    ensures Harmless([])
  {
  }

  lemma HarmlessConcat(a: Bytes, b: Bytes)
    requires Harmless(a) && Harmless(b)
    ensures Harmless(a + b)
  {
    Utf8Concat(a, b);
  }

  lemma HarmlessIsLine(s: Bytes)
    requires Harmless(s)
    ensures Utf8.Valid(s) && NoCrlf(s)
  {
  }

  /** Harmless text around a string neither adds nor hides a CRLF. */
  lemma Framed(p: Bytes, x: Bytes, q: Bytes)
    requires Harmless(p) && Harmless(q) && Utf8.Valid(x)
    ensures Utf8.Valid(p + x + q) && (NoCrlf(p + x + q) <==> NoCrlf(x))
  {
    Utf8Concat(p, x);
    Utf8Concat(p + x, q);
    var s := p + x + q;
    if NoCrlf(s) {
      forall i | 0 <= i < |x| - 1 ensures !(x[i] == CR && x[i + 1] == LF) {
        assert s[|p| + i] == x[i] && s[|p| + i + 1] == x[i + 1];
      }
    }
    if NoCrlf(x) {
      forall i | 0 <= i < |s| - 1 ensures !(s[i] == CR && s[i + 1] == LF) {
        assert i < |p| ==> s[i] == p[i];
        assert |p| <= i < |p| + |x| ==> s[i] == x[i - |p|];
        assert |p| <= i + 1 < |p| + |x| ==> s[i + 1] == x[i + 1 - |p|];
        assert i + 1 >= |p| + |x| ==> s[i + 1] == q[i + 1 - |p| - |x|];
      }
    }
  }

  lemma SameLines(s: Bytes, t: Bytes)
    requires SameButLetters(s, t)
    ensures NoCrlf(s) <==> NoCrlf(t)
    ensures Utf8.Valid(s) ==> Utf8.Valid(t)
  {
    if Utf8.Valid(s) {
      Utf8Same(s, t);
    }
  }

  lemma DashIsHarmless()
    ensures Harmless(EM_DASH)
  {
    assert Utf8.CharLen(EM_DASH) == 3;
    assert EM_DASH[3..] == [];
  }

  lemma NumberIsPlain(p: PlainText, n: nat, q: PlainText) returns (t: PlainText)
    ensures t == p + PrintNat(n) + q
  {
    t := p + PrintNat(n) + q;
  }

  lemma ClientErrorIsHarmless(e: ClientError)
    ensures Harmless(ClientErrorText(e))
  {
    hide Harmless, FULL_HEAD, FULL_MIDDLE, FULL_TAIL, KEY_HEAD, KEY_TAIL, VALUE_HEAD, VALUE_TAIL, EM_DASH;
    match e
    case ArenaFull(n) =>
      var t := NumberIsPlain(FULL_MIDDLE, n, FULL_TAIL);
      PlainIsHarmless(FULL_HEAD);
      PlainIsHarmless(t);
      DashIsHarmless();
      HarmlessConcat(FULL_HEAD, EM_DASH);
      HarmlessConcat(FULL_HEAD + EM_DASH, t);
    case KeyTooLong(n) =>
      var t := NumberIsPlain(KEY_HEAD, n, KEY_TAIL);
      PlainIsHarmless(t);
    case ValueTooLong(n) =>
      var t := NumberIsPlain(VALUE_HEAD, n, VALUE_TAIL);
      PlainIsHarmless(t);
  }

  lemma FailureIsLine(message: Bytes)
    requires Harmless(message)
    ensures Sendable(Failure(message))
  {
    PlainIsHarmless(ERR);
    HarmlessConcat(ERR, message);
    HarmlessIsLine(ERR + message);
  }

  // ---- protocol errors ----

  /** The line a protocol error quotes. */
  function Quoted(e: RespError): Bytes {
    match e
    case InvalidInteger(line) => line
    case InvalidBulkLength(line) => line
    case InvalidArrayLength(line) => line
    case _ => []
  }

  lemma HeadQuotesLine(b: Bytes)
    ensures var head := ParseHead(b);
            head.Stop? && head.outcome.Fail? ==>
              Utf8.Valid(Quoted(head.outcome.error)) && NoCrlf(Quoted(head.outcome.error))
  {
    if b != [] && IsTag(b[0]) && ParseLine(b).Line? {
      LineHasNoCrlf(b);
    }
  }

  lemma ConsFails(v: RespValue, c: nat, r: ItemsOutcome)
    ensures Cons(v, c, r).ItemsFail? <==> r.ItemsFail?
    ensures r.ItemsFail? ==> Cons(v, c, r) == r
  {
  }

  lemma {:induction false} QuotedIsLine(b: Bytes)
    ensures Parse(b).Fail? ==> Utf8.Valid(Quoted(Parse(b).error)) && NoCrlf(Quoted(Parse(b).error))
    decreases |b|, 0
  {
    var head := ParseHead(b);
    HeadQuotesLine(b);
    if head.Open? {
      QuotedInItems(b[head.next..], head.count);
    }
  }

  lemma {:induction false} QuotedInItems(b: Bytes, count: nat)
    ensures var r := ParseItems(b, count);
            r.ItemsFail? ==> Utf8.Valid(Quoted(r.error)) && NoCrlf(Quoted(r.error))
    decreases |b|, 1, count
  {
    hide *;
    ItemsStep(b, count);
    if count > 0 {
      QuotedIsLine(b);
      if Parse(b).Parsed? {
        QuotedInItems(b[Parse(b).consumed..], count - 1);
        ConsFails(Parse(b).value, Parse(b).consumed, ParseItems(b[Parse(b).consumed..], count - 1));
      }
    }
  }

  lemma Joined(p: PlainText, q: PlainText) returns (t: PlainText)
    ensures t == p + q
  {
    t := p + q;
  }

  lemma ErrorParts(e: RespError) returns (p: PlainText)
    ensures ProtocolErrorText(e) == p + Quoted(e)
  {
    hide PROTOCOL, BAD_TYPE, BAD_LINE, BAD_INTEGER, BAD_BULK, BAD_ARRAY, Hex;
    match e
    case UnknownType(tag) =>
      p := Joined(PROTOCOL, BAD_TYPE);
      p := Joined(p, Hex(tag));
      assert p + [] == p;
    case NonUtf8Line =>
      p := Joined(PROTOCOL, BAD_LINE);
      assert p + [] == p;
    case InvalidInteger(_) => p := Joined(PROTOCOL, BAD_INTEGER);
    case InvalidBulkLength(_) => p := Joined(PROTOCOL, BAD_BULK);
    case InvalidArrayLength(_) => p := Joined(PROTOCOL, BAD_ARRAY);
  }

  /** The report is plain text followed by the quoted line. */
  lemma ReportParts(e: RespError) returns (p: PlainText)
    ensures Failure(ProtocolErrorText(e)) == Error(p + Quoted(e) + [])
  {
    hide ERR, ProtocolErrorText, Quoted;
    var q := ErrorParts(e);
    p := Joined(ERR, q);
    assert ERR + (q + Quoted(e)) == p + Quoted(e) + [];
  }

  /** Whatever the client sent, the report of its protocol error parses back as one error. */
  lemma {:induction false} ErrorReportRoundTrips(b: Bytes, rest: Bytes)
    requires Parse(b).Fail?
    ensures var w := Failure(ProtocolErrorText(Parse(b).error));
            Sendable(w) && Parse(Encode(w) + rest) == Parsed(w, |Encode(w)|)
  {
    hide Failure, ProtocolErrorText, Parse, Encode, Harmless, NoCrlf;
    var e := Parse(b).error;
    QuotedIsLine(b);
    var p := ReportParts(e);
    PlainIsHarmless(p);
    NothingIsHarmless();
    Framed(p, Quoted(e), []);
    RoundTrip(Failure(ProtocolErrorText(e)), rest);
  }

  // ---- replies ----

  /** The bytes a reply carries fit the machine, and an echoed command name is text. */
  ghost predicate Proper(r: Reply) {
    match r
    case BulkReply(data) => IsI64(|data|)
    case IntReply(n) => IsI64(n)
    case ValuesReply(values) =>
      IsI64(|values|) && forall i | 0 <= i < |values| && values[i].Some? :: IsI64(|values[i].value|)
    case InfoReply(_, capacity) => capacity < TWO64
    case UnknownCommand(name) => exists raw :: Utf8.Valid(raw) && name == Upper(raw)
    case _ => true
  }

  lemma InfoFits(ratio: Ratio, used: u64, capacity: nat)
    requires capacity < TWO64
    ensures IsI64(|InfoText(ratio, used, capacity)|)
  {
    PrintFits(used);
    PrintFits(capacity);
  }

  lemma UnknownIsLine(raw: Bytes)
    requires Utf8.Valid(raw)
    ensures Utf8.Valid(UnknownText(Upper(raw))) && (NoCrlf(UnknownText(Upper(raw))) <==> NoCrlf(raw))
  {
    SameLines(raw, Lower(Upper(raw)));
    hide Harmless, NoCrlf, UNKNOWN_HEAD, UNKNOWN_TAIL, UNKNOWN_MORE, Upper, Lower;
    var q := Joined(UNKNOWN_TAIL, UNKNOWN_MORE);
    PlainIsHarmless(UNKNOWN_HEAD);
    PlainIsHarmless(q);
    Framed(UNKNOWN_HEAD, Lower(Upper(raw)), q);
  }

  lemma PlainLine(s: PlainText)
    ensures Utf8.Valid(s) && NoCrlf(s)
  {
    PlainIsHarmless(s);
  }

  lemma WrongArgsIsLine(verb: Verb)
    ensures Utf8.Valid(WrongArgsText(verb)) && NoCrlf(WrongArgsText(verb))
  {
    hide ARGS_HEAD, ARGS_TAIL, VerbName;
    var name: PlainText := Lower(VerbName(verb));
    var t := Joined(ARGS_HEAD, name);
    t := Joined(t, ARGS_TAIL);
    PlainLine(t);
  }

  /** A rendered reply is sendable unless it echoes a command name with a CRLF inside. */
  lemma {:induction false} RenderIsSendable(ratio: Ratio, r: Reply)
    requires Proper(r)
    ensures Representable(Render(ratio, r))
    ensures LineSafe(Render(ratio, r)) <==> (r.UnknownCommand? ==> NoCrlf(r.name))
  {
    hide OK, PONG, ClientErrorText, CommandErrorText, WrongArgsText, InfoText, UnknownText, Failure, NoCrlf, Upper;
    match r
    case OkReply => PlainLine(OK);
    case PongReply => PlainLine(PONG);
    case ErrReply(e) =>
      ClientErrorIsHarmless(e);
      FailureIsLine(ClientErrorText(e));
    case BadReply(why) =>
      PlainIsHarmless(CommandErrorText(why));
      FailureIsLine(CommandErrorText(why));
    case WrongArgs(verb) => WrongArgsIsLine(verb);
    case InfoReply(used, capacity) => InfoFits(ratio, used, capacity);
    case UnknownCommand(name) =>
      var raw :| Utf8.Valid(raw) && name == Upper(raw);
      UnknownIsLine(raw);
      SameLines(raw, Upper(raw));
    case _ =>
  }

  // ---- the dispatcher's replies ----

  /** No stored value is longer than a value buffer. */
  ghost predicate SmallValues(c: seq<Cell>) { forall i | 0 <= i < |c| && c[i].Occupied? :: |c[i].value| <= MAX_VAL_LEN }

  /** Every cell is unchanged or buried. */
  ghost predicate OnlyBuried(c: seq<Cell>, c': seq<Cell>) {
    |c'| == |c| && forall i | 0 <= i < |c| :: c'[i] == c[i] || c'[i] == Tombstone
  }

  lemma {:induction false} GetFromSmall(c: seq<Cell>, fp: u64, key: Bytes, start: nat, d: nat, now: u64)
    requires start < |c| && d <= |c| && SmallValues(c)
    ensures var (r, c') := GetFrom(c, fp, key, start, d, now);
            OnlyBuried(c, c') && (r.Found? ==> |r.value| <= MAX_VAL_LEN)
    decreases |c| - d
  {
    if d < |c| {
      GetFromSmall(c, fp, key, start, d + 1, now);
    }
  }

  lemma GetSmall(h: Hash, s: Store, key: Bytes, now: u64)
    requires |s.cells| > 0 && SmallValues(s.cells)
    ensures var (r, s') := C.Get(h, s, key, now);
            SmallValues(s'.cells) && (r.Ok? && r.value.Some? ==> |r.value.value| <= MAX_VAL_LEN)
  {
    GetFromSmall(s.cells, h(key), key, Home(h, key, |s.cells|), 0, now);
  }

  lemma {:induction false} MgetSmall(h: Hash, s: Store, keys: seq<Bytes>, clock: Clock, k: nat)
    requires |s.cells| > 0 && SmallValues(s.cells)
    ensures var r := C.Mget(h, s, keys, clock, k).0;
            r.Ok? ==> |r.value| == |keys|
                      && forall i | 0 <= i < |keys| && r.value[i].Some? :: |r.value[i].value| <= MAX_VAL_LEN
    decreases keys
  {
    if keys != [] {
      hide C.Get, SmallValues;
      GetSmall(h, s, keys[0], clock(k));
      MgetSmall(h, C.Get(h, s, keys[0], clock(k)).1, keys[1..], clock, k + 1);
    }
  }

  lemma {:induction false} DelAllAtMost(h: Hash, s: Store, keys: seq<Bytes>)
    requires |s.cells| > 0
    ensures DelAll(h, s, keys).0 <= |keys|
    decreases keys
  {
    if keys != [] {
      hide C.Del;
      DelAllAtMost(h, C.Del(h, s, keys[0]).1, keys[1..]);
    }
  }

  lemma {:induction false} ExistsAllAtMost(h: Hash, s: Store, keys: seq<Bytes>, clock: Clock, k: nat)
    requires |s.cells| > 0
    ensures ExistsAll(h, s, keys, clock, k).0 <= |keys|
    decreases keys
  {
    if keys != [] {
      hide C.Exists;
      ExistsAllAtMost(h, C.Exists(h, s, keys[0], clock(k)).1, keys[1..], clock, k + 1);
    }
  }

  lemma ExecuteIsProper(h: Hash, s: Store, verb: Verb, raw: Bytes, args: seq<Bytes>, clock: Clock)
    requires 0 < |s.cells| < TWO64 && SmallValues(s.cells) && Utf8.Valid(raw)
    requires IsI64(|args|) && forall i | 0 <= i < |args| :: IsI64(|args[i]|)
    ensures var r := Execute(h, s, verb, Upper(raw), args, clock).0;
            Proper(r) && (r.UnknownCommand? <==> verb == OTHER) && (verb == OTHER ==> r.name == Upper(raw))
  {
    hide C.Get, C.Mget, C.Mset, C.Incr, C.Decr, C.Flush, C.Set, DelAll, ExistsAll, Pairs, Settings, Upper, EffectiveTtl;
    match verb
    case GET =>
      if |args| == 1 {
        GetSmall(h, s, args[0], clock(0));
      }
    case DEL => DelAllAtMost(h, s, args);
    case EXISTS => ExistsAllAtMost(h, s, args, clock, 0);
    case MGET => MgetSmall(h, s, args, clock, 0);
    case _ =>
  }

  /** The value is a command whose name, as sent, is none of the commands. */
  predicate Unknown(v: RespValue) { ExtractCommand(v).Command? && VerbOf(ExtractCommand(v).name) == OTHER }

  function NameOf(v: RespValue): Bytes
    requires ExtractCommand(v).Command?
  {
    v.items[0].data
  }

  lemma RespondIsProper(h: Hash, s: Store, v: RespValue, clock: Clock)
    requires 0 < |s.cells| < TWO64 && SmallValues(s.cells) && Representable(v)
    ensures var r := Respond(h, s, v, clock).0;
            Proper(r) && (r.UnknownCommand? <==> Unknown(v)) && (Unknown(v) ==> r.name == Upper(NameOf(v)))
  {
    hide Execute, VerbOf;
    if ExtractCommand(v).Command? {
      var args := ExtractCommand(v).args;
      forall i | 0 <= i < |args| ensures IsI64(|args[i]|) {
        assert args[i] == v.items[i + 1].data;
        assert Representable(v.items[i + 1]);
      }
      ExecuteIsProper(h, s, VerbOf(ExtractCommand(v).name), NameOf(v), args, clock);
    }
  }

  /**
   * A client reads back from the encoded reply exactly the reply, whatever follows it, if and only
   * if it did not send an unknown command with a CRLF inside its name.
   */
  lemma {:induction false} ReplyRoundTripsIff(h: Hash, ratio: Ratio, s: Store, v: RespValue, clock: Clock)
    requires 0 < |s.cells| < TWO64 && SmallValues(s.cells) && Representable(v)
    ensures var w := Render(ratio, Respond(h, s, v, clock).0);
            Representable(w) && (LineSafe(w) <==> (Unknown(v) ==> NoCrlf(NameOf(v))))
            && (Parse(Encode(w)) == Parsed(w, |Encode(w)|) <==> (Unknown(v) ==> NoCrlf(NameOf(v))))
  {
    var r := Respond(h, s, v, clock).0;
    hide Respond, ExtractCommand, Render, LineSafe, Representable, Unknown;
    RespondIsProper(h, s, v, clock);
    RenderIsSendable(ratio, r);
    if Unknown(v) {
      SameLines(NameOf(v), Upper(NameOf(v)));
    }
    RoundTripIff(Render(ratio, r));
  }

  lemma NamesArePlain()
    ensures forall name: Bytes | name != [] && name[0] == CR :: VerbOf(name) == OTHER
  {
  }

  lemma AsciiName()
    ensures Unknown(Array([BulkString(CRLF)])) && Representable(Array([BulkString(CRLF)]))
  {
    Utf8.AsciiIsValid(CRLF);
    assert Upper(CRLF)[0] == CR;
    NamesArePlain();
  }

  lemma UnknownIsError(ratio: Ratio, r: Reply)
    requires r.UnknownCommand?
    ensures Render(ratio, r).Error?
  {
  }

  /** The failing case: a command named by a single CRLF is echoed in an error a client misreads. */
  lemma {:induction false} EchoedCrlfIsMisread(h: Hash, ratio: Ratio, s: Store, clock: Clock)
    requires 0 < |s.cells| < TWO64 && SmallValues(s.cells)
    ensures var v := Array([BulkString(CRLF)]);
            var w := Render(ratio, Respond(h, s, v, clock).0);
            w.Error? && Parse(Encode(w)) != Parsed(w, |Encode(w)|)
  {
    var v := Array([BulkString(CRLF)]);
    AsciiName();
    assert NameOf(v) == CRLF && !NoCrlf(CRLF);
    hide Respond, Render;
    ReplyRoundTripsIff(h, ratio, s, v, clock);
    RespondIsProper(h, s, v, clock);
    UnknownIsError(ratio, Respond(h, s, v, clock).0);
  }
}

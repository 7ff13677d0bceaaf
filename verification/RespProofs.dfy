/** Prefix stability, round trip, normalisation and prefix-freeness of the RESP2 codec. */
module RespProofs {
  import opened Bytes
  import opened Decimal
  import opened Resp
  import Utf8

  // ---- more bytes never change an answer ----

  lemma LineStable(b: Bytes, x: Bytes)
    requires b != [] && b[0] != CR
    ensures !ParseLine(b).LineMore? ==> ParseLine(b + x) == ParseLine(b)
  {
    var p, q := FindCrlf(b), FindCrlf(b + x);
    if p.Some? {
      assert (b + x)[p.value] == CR && (b + x)[p.value + 1] == LF;
      assert q.value <= p.value;
      assert b[q.value] == CR && b[q.value + 1] == LF;
      assert (b + x)[1..p.value] == b[1..p.value];
    }
  }

  lemma BulkStable(b: Bytes, x: Bytes, line: Bytes, next: nat)
    requires next <= |b|
    ensures FinishBulk(b, line, next) != Stop(NeedMore) ==> FinishBulk(b + x, line, next) == FinishBulk(b, line, next)
  {
    var n := ParseI64(line);
    if n.Some? && n.value >= 0 && |b| >= next + n.value + 2 {
      assert (b + x)[next..next + n.value] == b[next..next + n.value];
    }
  }

  lemma HeadStable(b: Bytes, x: Bytes)
    ensures ParseHead(b) != Stop(NeedMore) ==> ParseHead(b + x) == ParseHead(b)
  {
    if b != [] && IsTag(b[0]) {
      LineStable(b, x);
      var l := ParseLine(b);
      if l.Line? && b[0] == T_BULK {
        BulkStable(b, x, l.text, l.next);
      }
    }
  }

  /** The element loop unfolded once. */
  lemma ItemsStep(b: Bytes, count: nat)
    ensures ParseItems(b, count) ==
            if count == 0 then Items([], 0)
            else match Parse(b)
                 case NeedMore => ItemsMore
                 case Fail(e) => ItemsFail(e)
                 case Parsed(v, c) => Cons(v, c, ParseItems(b[c..], count - 1))
  {
  }

  /** An answer other than "need more" stands whatever bytes follow. */
  lemma {:induction false} ParseStable(b: Bytes, x: Bytes)
    ensures !Parse(b).NeedMore? ==> Parse(b + x) == Parse(b)
    decreases |b|, 0
  {
    HeadStable(b, x);
    var head := ParseHead(b);
    if head.Open? {
      assert (b + x)[head.next..] == b[head.next..] + x;
      ItemsStable(b[head.next..], x, head.count);
    }
  }

  lemma ArrayClose(b: Bytes, items: seq<RespValue>, next: nat, consumed: nat)
    requires ParseHead(b) == Open(|items|, next) && ParseItems(b[next..], |items|) == Items(items, consumed)
    ensures Parse(b) == Parsed(Array(items), next + consumed)
  {
  }

  lemma {:induction false} ItemsStable(b: Bytes, x: Bytes, count: nat)
    ensures !ParseItems(b, count).ItemsMore? ==> ParseItems(b + x, count) == ParseItems(b, count)
    decreases |b|, 1, count
  {
    hide *;
    ItemsStep(b, count);
    ItemsStep(b + x, count);
    if count > 0 {
      var r := Parse(b);
      ParseStable(b, x);
      if r.Parsed? {
        var c := r.consumed;
        assert (b + x)[c..] == b[c..] + x;
        ItemsStable(b[c..], x, count - 1);
      }
    }
  }

  /** Every proper prefix of a complete value is still incomplete, never an error. */
  lemma {:induction false} ProperPrefixNeedsMore(b: Bytes, k: nat)
    requires Parse(b).Parsed? && k < Parse(b).consumed
    ensures Parse(b[..k]).NeedMore?
  {
    assert b[..k] + b[k..] == b;
    ParseStable(b[..k], b[k..]);
  }

  // ---- which values can be transmitted ----

  ghost predicate NoCrlf(s: Bytes) { forall i | 0 <= i < |s| - 1 :: !(s[i] == CR && s[i + 1] == LF) }

  /** What the value type holds in memory: UTF-8 strings, 64-bit integers, vector-sized payloads. */
  ghost predicate Representable(v: RespValue)
    decreases v
  {
    match v
    case SimpleString(s) => Utf8.Valid(s)
    case Error(e) => Utf8.Valid(e)
    case Integer(n) => IsI64(n)
    case BulkString(data) => IsI64(|data|)
    case Nil => true
    case Array(items) => IsI64(|items|) && forall i | 0 <= i < |items| :: Representable(items[i])
  }

  /** No line-typed part contains a CRLF. */
  ghost predicate LineSafe(v: RespValue)
    decreases v
  {
    match v
    case SimpleString(s) => NoCrlf(s)
    case Error(e) => NoCrlf(e)
    case Array(items) => forall i | 0 <= i < |items| :: LineSafe(items[i])
    case _ => true
  }

  ghost predicate Sendable(v: RespValue) { Representable(v) && LineSafe(v) }

  // ---- round trip ----

  lemma LineBytes(tag: byte, s: Bytes, rest: Bytes)
    ensures var b := [tag] + s + CRLF + rest;
            && b[0] == tag && |b| == |s| + 3 + |rest|
            && b[|s| + 1] == CR && b[|s| + 2] == LF
            && b[1..|s| + 1] == s && b[|s| + 3..] == rest
  {
  }

  lemma FirstCrlf(b: Bytes, p: nat)
    requires p + 1 < |b| && b[p] == CR && b[p + 1] == LF
    requires forall i | 0 <= i < p :: !(b[i] == CR && b[i + 1] == LF)
    ensures FindCrlf(b) == Some(p)
  {
    var r := FindCrlf(b);
    assert !(r.value < p);
  }

  lemma LineAt(b: Bytes, s: Bytes)
    requires |b| >= |s| + 3 && b[0] != CR && b[1..|s| + 1] == s && b[|s| + 1] == CR && b[|s| + 2] == LF
    requires NoCrlf(s)
    ensures FindCrlf(b) == Some(|s| + 1)
  {
    forall i | 0 <= i < |s| + 1 ensures !(b[i] == CR && b[i + 1] == LF) {
      if 0 < i < |s| {
        assert b[i] == s[i - 1] && b[i + 1] == s[i];
      }
    }
    FirstCrlf(b, |s| + 1);
  }

  lemma LineOf(tag: byte, s: Bytes, rest: Bytes)
    requires tag != CR && Utf8.Valid(s) && NoCrlf(s)
    ensures ParseLine([tag] + s + CRLF + rest) == Line(s, |s| + 3)
    ensures ([tag] + s + CRLF + rest)[|s| + 3..] == rest
  {
    LineBytes(tag, s, rest);
    LineAt([tag] + s + CRLF + rest, s);
  }

  /** A header line holding a printed number parses back to that number. */
  lemma NumberLine(tag: byte, n: int, rest: Bytes)
    requires tag != CR && IsI64(n)
    ensures ParseLine([tag] + PrintInt(n) + CRLF + rest) == Line(PrintInt(n), |PrintInt(n)| + 3)
    ensures ([tag] + PrintInt(n) + CRLF + rest)[|PrintInt(n)| + 3..] == rest
    ensures ParseI64(PrintInt(n)) == Some(n)
  {
    var s := PrintInt(n);
    assert forall i | 0 <= i < |s| :: s[i] == MINUS || IsDigit(s[i]);
    Utf8.AsciiIsValid(s);
    LineOf(tag, s, rest);
    ParsePrintI64(n);
  }

  lemma TextTrips(s: Bytes, rest: Bytes)
    requires Utf8.Valid(s) && NoCrlf(s)
    ensures Parse(Encode(SimpleString(s)) + rest) == Parsed(SimpleString(s), |s| + 3)
    ensures Parse(Encode(Error(s)) + rest) == Parsed(Error(s), |s| + 3)
  {
    LineOf(T_SIMPLE, s, rest);
    LineOf(T_ERROR, s, rest);
  }

  lemma IntegerTrips(n: int, rest: Bytes)
    requires IsI64(n)
    ensures Parse(Encode(Integer(n)) + rest) == Parsed(Integer(n), |Encode(Integer(n))|)
  {
    NumberLine(T_INTEGER, n, rest);
  }

  lemma NilTrips(rest: Bytes)
    ensures Parse(Encode(Nil) + rest) == Parsed(Nil, |Encode(Nil)|)
  {
    NumberLine(T_BULK, -1, rest);
  }

  lemma BulkHead(data: Bytes, tail: Bytes)
    requires IsI64(|data|) && data + CRLF <= tail
    ensures var n := |PrintInt(|data|)| + 3;
            ParseHead([T_BULK] + PrintInt(|data|) + CRLF + tail) == Stop(Parsed(BulkString(data), n + |data| + 2))
  {
    var b := [T_BULK] + PrintInt(|data|) + CRLF + tail;
    NumberLine(T_BULK, |data|, tail);
    var n := |PrintInt(|data|)| + 3;
    assert b[n..n + |data|] == b[n..][..|data|] == data;
  }

  lemma BulkTrips(data: Bytes, rest: Bytes)
    requires IsI64(|data|)
    ensures Parse(Encode(BulkString(data)) + rest) == Parsed(BulkString(data), |Encode(BulkString(data))|)
  {
    var tail := data + CRLF + rest;
    BulkHead(data, tail);
    assert Encode(BulkString(data)) + rest == [T_BULK] + PrintInt(|data|) + CRLF + tail;
  }

  lemma ArrayHead(count: nat, tail: Bytes)
    requires IsI64(count)
    ensures var b := [T_ARRAY] + PrintInt(count) + CRLF + tail;
            var n := |PrintInt(count)| + 3;
            ParseHead(b) == Open(count, n) && b[n..] == tail
  {
    NumberLine(T_ARRAY, count, tail);
  }

  lemma EncodeArray(items: seq<RespValue>)
    ensures Encode(Array(items)) == [T_ARRAY] + PrintInt(|items|) + CRLF + EncodeAll(items)
    ensures |CRLF| == 2
  {
  }

  lemma ArrayTrips(items: seq<RespValue>, rest: Bytes)
    requires IsI64(|items|) && ParseItems(EncodeAll(items) + rest, |items|) == Items(items, |EncodeAll(items)|)
    ensures Parse(Encode(Array(items)) + rest) == Parsed(Array(items), |Encode(Array(items))|)
  {
    hide *;
    var tail := EncodeAll(items) + rest;
    ArrayHead(|items|, tail);
    var b := [T_ARRAY] + PrintInt(|items|) + CRLF + tail;
    ArrayClose(b, items, |PrintInt(|items|)| + 3, |EncodeAll(items)|);
    EncodeArray(items);
    assert Encode(Array(items)) + rest == b;
  }

  lemma EncodeAllNil()
    ensures EncodeAll([]) == []
  {
  }

  lemma EncodeAllStep(v: RespValue, vs: seq<RespValue>)
    ensures EncodeAll([v] + vs) == Encode(v) + EncodeAll(vs)
  {
    assert ([v] + vs)[1..] == vs;
  }

  lemma ConsItems(v: RespValue, c: nat, vs: seq<RespValue>, cs: nat)
    ensures Cons(v, c, Items(vs, cs)) == Items([v] + vs, c + cs)
  {
  }

  /** Parsing an encoding gives the value back and stops exactly at its end. */
  lemma {:induction false} RoundTrip(v: RespValue, rest: Bytes)
    requires Sendable(v)
    ensures Parse(Encode(v) + rest) == Parsed(v, |Encode(v)|)
    decreases v
  {
    match v
    case SimpleString(s) => TextTrips(s, rest);
    case Error(e) => TextTrips(e, rest);
    case Integer(n) => IntegerTrips(n, rest);
    case BulkString(data) => BulkTrips(data, rest);
    case Nil => NilTrips(rest);
    case Array(items) =>
      ItemsTrip(items, rest);
      ArrayTrips(items, rest);
  }

  lemma {:induction false} ItemsTrip(vs: seq<RespValue>, rest: Bytes)
    requires forall i | 0 <= i < |vs| :: Sendable(vs[i])
    ensures ParseItems(EncodeAll(vs) + rest, |vs|) == Items(vs, |EncodeAll(vs)|)
    decreases vs
  {
    hide *;
    ItemsStep(EncodeAll(vs) + rest, |vs|);
    EncodeAllNil();
    if vs != [] {
      var v, more := vs[0], vs[1..];
      RoundTrip(v, EncodeAll(more) + rest);
      ItemsTrip(more, rest);
      assert vs == [v] + more;
      EncodeAllStep(v, more);
      var b := Encode(v) + (EncodeAll(more) + rest);
      assert EncodeAll(vs) + rest == b;
      assert b[|Encode(v)|..] == EncodeAll(more) + rest;
      ConsItems(v, |Encode(v)|, more, |EncodeAll(more)|);
    }
  }

  /** `ParseAll` unfolded once. */
  lemma AllStep(b: Bytes)
    ensures var r := Parse(b);
            ParseAll(b) ==
            if r.NeedMore? then AllParsed([], 0)
            else if r.Fail? then AllFail(r.error)
            else ConsAll(r.value, r.consumed, ParseAll(b[r.consumed..]))
  {
  }

  lemma ConsAllParsed(v: RespValue, c: nat, vs: seq<RespValue>, cs: nat)
    ensures ConsAll(v, c, AllParsed(vs, cs)) == AllParsed([v] + vs, c + cs)
  {
  }

  /** A pipeline of encodings followed by an incomplete tail parses into exactly that list. */
  lemma {:induction false} PipelineRoundTrip(vs: seq<RespValue>, tail: Bytes)
    requires forall i | 0 <= i < |vs| :: Sendable(vs[i])
    requires Parse(tail).NeedMore?
    ensures ParseAll(EncodeAll(vs) + tail) == AllParsed(vs, |EncodeAll(vs)|)
    decreases vs
  {
    hide *;
    EncodeAllNil();
    if vs == [] {
      AllStep(tail);
      assert EncodeAll(vs) + tail == tail;
    } else {
      var v, more := vs[0], vs[1..];
      RoundTrip(v, EncodeAll(more) + tail);
      PipelineRoundTrip(more, tail);
      assert vs == [v] + more;
      EncodeAllStep(v, more);
      var b := Encode(v) + (EncodeAll(more) + tail);
      assert EncodeAll(vs) + tail == b;
      assert b[|Encode(v)|..] == EncodeAll(more) + tail;
      AllStep(b);
      ConsAllParsed(v, |Encode(v)|, more, |EncodeAll(more)|);
    }
  }

  /** No encoding is a proper prefix of another: equal prefixes mean equal values. */
  lemma {:induction false} EncodingsArePrefixFree(v: RespValue, w: RespValue)
    requires Sendable(v) && Sendable(w) && Encode(v) <= Encode(w)
    ensures v == w
  {
    var x := Encode(w)[|Encode(v)|..];
    assert Encode(w) == Encode(v) + x;
    RoundTrip(v, x);
    RoundTrip(w, []);
    assert Encode(w) + [] == Encode(w);
  }

  // ---- everything the parser produces can be sent on ----

  lemma LineHasNoCrlf(b: Bytes)
    requires b != [] && b[0] != CR && ParseLine(b).Line?
    ensures NoCrlf(ParseLine(b).text)
  {
    var s := ParseLine(b).text;
    forall i | 0 <= i < |s| - 1 ensures !(s[i] == CR && s[i + 1] == LF) {
      assert s[i] == b[i + 1] && s[i + 1] == b[i + 2];
    }
  }

  lemma HeadIsSendable(b: Bytes)
    ensures var head := ParseHead(b);
            && (head.Stop? && head.outcome.Parsed? ==> Sendable(head.outcome.value))
            && (head.Open? ==> IsI64(head.count))
  {
    if b != [] && IsTag(b[0]) && ParseLine(b).Line? {
      LineHasNoCrlf(b);
    }
  }

  /** Any parsed value, from any bytes, is sendable. */
  lemma {:induction false} ParsedIsSendable(b: Bytes)
    ensures Parse(b).Parsed? ==> Sendable(Parse(b).value)
    decreases |b|, 0
  {
    var head := ParseHead(b);
    HeadIsSendable(b);
    if head.Open? {
      ParsedItemsAreSendable(b[head.next..], head.count);
    }
  }

  lemma {:induction false} ParsedItemsAreSendable(b: Bytes, count: nat)
    ensures ParseItems(b, count).Items? ==> forall i | 0 <= i < count :: Sendable(ParseItems(b, count).items[i])
    decreases |b|, 1, count
  {
    if count > 0 && ParseItems(b, count).Items? {
      ParsedIsSendable(b);
      ParsedItemsAreSendable(b[Parse(b).consumed..], count - 1);
    }
  }

  /** Normalisation: re-encoding a parsed value and parsing it again changes nothing. */
  lemma {:induction false} Normalisation(b: Bytes)
    requires Parse(b).Parsed?
    ensures var v := Parse(b).value; Parse(Encode(v)) == Parsed(v, |Encode(v)|)
  {
    var v := Parse(b).value;
    ParsedIsSendable(b);
    RoundTrip(v, []);
    assert Encode(v) + [] == Encode(v);
  }

  /** The round trip holds exactly for values with no CRLF inside a simple string or error. */
  lemma {:induction false} RoundTripIff(v: RespValue)
    requires Representable(v)
    ensures Parse(Encode(v)) == Parsed(v, |Encode(v)|) <==> LineSafe(v)
  {
    if LineSafe(v) {
      RoundTrip(v, []);
      assert Encode(v) + [] == Encode(v);
    }
    ParsedIsSendable(Encode(v));
  }
}

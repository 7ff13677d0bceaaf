/**
 * What the parser makes of every buffer, by its first line: with literal type bytes, and numbers
 * described by their text. In particular no buffer leaves the parser waiting for ever.
 */
module FirstLine {
  import opened Bytes
  import opened Decimal
  import opened Resp
  import opened RespProofs
  import Utf8

  /** A type byte, a line, its CRLF and whatever follows. */
  function Line(tag: byte, s: Bytes, rest: Bytes): Bytes { [tag] + s + [13, 10] + rest }

  /** '+', '-', ':', '$' or '*'. */
  predicate TypeByte(b: byte) { b == 43 || b == 45 || b == 58 || b == 36 || b == 42 }

  /** The line is UTF-8 text and ends at the first CRLF of the buffer. */
  ghost predicate TextLine(s: Bytes) { Utf8.Valid(s) && NoCrlf(s) }

  /** The text denotes no 64-bit integer. */
  ghost predicate NoInteger(s: Bytes) { forall n | IsI64(n) :: !IntText(s, n) }

  lemma IntegerOrNot(s: Bytes)
    ensures ParseI64(s).None? <==> NoInteger(s)
    ensures forall n | IsI64(n) && IntText(s, n) :: ParseI64(s) == Some(n)
  {
    forall n | IsI64(n) ensures ParseI64(s) == Some(n) <==> IntText(s, n) {
      ParseI64Iff(s, n);
    }
    if ParseI64(s).Some? {
      assert IntText(s, ParseI64(s).value);
    }
  }

  lemma LineParts(tag: byte, s: Bytes, rest: Bytes)
    requires TypeByte(tag) && TextLine(s)
    ensures var b := Line(tag, s, rest);
            ParseLine(b) == Resp.Line(s, |s| + 3) && b[|s| + 3..] == rest && b[0] == tag && |b| == |s| + 3 + |rest|
  {
    LineOf(tag, s, rest);
  }

  // ---- the five types ----

  /** '+' and '-': the line is the text. */
  lemma {:induction false} StringLine(s: Bytes, rest: Bytes)
    requires TextLine(s)
    ensures Parse(Line(43, s, rest)) == Parsed(SimpleString(s), |s| + 3)
    ensures Parse(Line(45, s, rest)) == Parsed(Error(s), |s| + 3)
  {
    LineParts(43, s, rest);
    LineParts(45, s, rest);
    hide ParseLine;
  }

  /** ':' and a numeral give the integer; anything else is refused. */
  lemma {:induction false} IntegerLine(s: Bytes, rest: Bytes)
    requires TextLine(s)
    ensures forall n | IsI64(n) && IntText(s, n) :: Parse(Line(58, s, rest)) == Parsed(Integer(n), |s| + 3)
    ensures NoInteger(s) ==> Parse(Line(58, s, rest)) == Fail(InvalidInteger(s))
  {
    LineParts(58, s, rest);
    IntegerOrNot(s);
    hide ParseLine, ParseI64, IntText;
  }

  lemma HeadOfBulk(b: Bytes, s: Bytes)
    requires b != [] && b[0] == 36 && ParseLine(b) == Resp.Line(s, |s| + 3)
    ensures |s| + 3 <= |b| && FinishBulk(b, s, |s| + 3).Stop? && Parse(b) == FinishBulk(b, s, |s| + 3).outcome
  {
    hide ParseLine, ParseI64;
  }

  lemma BulkOf(b: Bytes, s: Bytes, rest: Bytes, n: int)
    requires ParseI64(s) == Some(n) && |b| == |s| + 3 + |rest| && b[|s| + 3..] == rest
    ensures FinishBulk(b, s, |s| + 3) ==
            Stop(if n < 0 then Parsed(Nil, |s| + 3)
                 else if |rest| < n + 2 then NeedMore
                 else Parsed(BulkString(rest[..n]), |s| + 3 + n + 2))
  {
    hide ParseI64;
    if 0 <= n <= |rest| {
      assert b[|s| + 3..|s| + 3 + n] == b[|s| + 3..][..n];
    }
  }

  lemma BulkRefused(b: Bytes, s: Bytes)
    requires |s| + 3 <= |b| && ParseI64(s).None?
    ensures FinishBulk(b, s, |s| + 3) == Stop(Fail(InvalidBulkLength(s)))
  {
    hide ParseI64;
  }

  /**
   * '$' and a length: negative is nil; otherwise that many bytes and two more are taken, whatever
   * they are, once they are there. Anything but a numeral is refused.
   */
  lemma {:induction false} BulkLine(s: Bytes, rest: Bytes)
    requires TextLine(s)
    ensures forall n | IsI64(n) && IntText(s, n) ::
              Parse(Line(36, s, rest)) ==
              if n < 0 then Parsed(Nil, |s| + 3)
              else if |rest| < n + 2 then NeedMore
              else Parsed(BulkString(rest[..n]), |s| + 3 + n + 2)
    ensures NoInteger(s) ==> Parse(Line(36, s, rest)) == Fail(InvalidBulkLength(s))
  {
    hide *;
    var b := Line(36, s, rest);
    LineParts(36, s, rest);
    HeadOfBulk(b, s);
    IntegerOrNot(s);
    if ParseI64(s).None? {
      BulkRefused(b, s);
    }
    forall n | IsI64(n) && IntText(s, n)
      ensures Parse(b) == if n < 0 then Parsed(Nil, |s| + 3)
                          else if |rest| < n + 2 then NeedMore
                          else Parsed(BulkString(rest[..n]), |s| + 3 + n + 2)
    {
      BulkOf(b, s, rest, n);
    }
  }

  /** The buffer starts with exactly these values, `c` bytes long. */
  ghost predicate StartsWith(b: Bytes, vs: seq<RespValue>, c: nat)
    decreases vs
  {
    if vs == [] then c == 0
    else
      var r := Parse(b);
      r.Parsed? && r.value == vs[0] && r.consumed <= c && StartsWith(b[r.consumed..], vs[1..], c - r.consumed)
  }

  lemma StartsStep(b: Bytes, vs: seq<RespValue>, c: nat)
    requires StartsWith(b, vs, c)
    ensures if vs == [] then c == 0
            else
              var r := Parse(b);
              r.Parsed? && r.value == vs[0] && r.consumed <= c && StartsWith(b[r.consumed..], vs[1..], c - r.consumed)
  {
    hide Parse;
  }

  lemma {:induction false} StartsWithin(b: Bytes, vs: seq<RespValue>, c: nat)
    requires StartsWith(b, vs, c)
    ensures c <= |b|
    decreases vs
  {
    hide *;
    StartsStep(b, vs, c);
    if vs != [] {
      var k := Parse(b).consumed;
      StartsWithin(b[k..], vs[1..], c - k);
    }
  }

  lemma ConsStops(v: RespValue, c: nat)
    ensures Cons(v, c, ItemsMore) == ItemsMore && forall e :: Cons(v, c, ItemsFail(e)) == ItemsFail(e)
  {
  }

  /** The element loop, given the values found so far and the outcome after them. */
  lemma {:induction false} ItemsAre(b: Bytes, vs: seq<RespValue>, c: nat, count: nat)
    requires |vs| <= count && StartsWith(b, vs, c)
    ensures c <= |b|
    ensures |vs| == count ==> ParseItems(b, count) == Items(vs, c)
    ensures |vs| < count && Parse(b[c..]).NeedMore? ==> ParseItems(b, count) == ItemsMore
    ensures |vs| < count && Parse(b[c..]).Fail? ==> ParseItems(b, count) == ItemsFail(Parse(b[c..]).error)
    decreases vs
  {
    hide *;
    StartsWithin(b, vs, c);
    StartsStep(b, vs, c);
    ItemsStep(b, count);
    if vs == [] {
      assert b[0..] == b;
      assert c == 0;
    } else {
      var k, more := Parse(b).consumed, vs[1..];
      assert [vs[0]] + more == vs;
      assert b[k..][c - k..] == b[c..];
      ItemsAre(b[k..], more, c - k, count - 1);
      ConsItems(vs[0], k, more, c - k);
      ConsStops(vs[0], k);
    }
  }

  /** What an array header with count `n` makes of the bytes after it, given its first elements. */
  ghost predicate ArrayOutcome(r: Outcome, header: nat, n: nat, rest: Bytes, vs: seq<RespValue>, c: nat) {
    c <= |rest| && |vs| <= n
    && (|vs| == n ==> r == Parsed(Array(vs), header + c))
    && (|vs| < n && Parse(rest[c..]).NeedMore? ==> r == NeedMore)
    && (|vs| < n && Parse(rest[c..]).Fail? ==> r == Fail(Parse(rest[c..]).error))
  }

  lemma HeadOfArray(b: Bytes, s: Bytes, rest: Bytes)
    requires b != [] && b[0] == 42 && ParseLine(b) == Resp.Line(s, |s| + 3)
    ensures ParseHead(b) == FinishArray(s, |s| + 3)
  {
    hide ParseLine, ParseI64;
  }

  lemma ParseOpen(b: Bytes, count: nat, next: nat)
    requires ParseHead(b) == Open(count, next)
    ensures next <= |b| && Parse(b) == Close(next, ParseItems(b[next..], count))
  {
  }

  /**
   * '*' and a count: negative is nil; otherwise that many values in a row, the first incomplete
   * one meaning "need more" and the first wrong one its error. Anything but a numeral is refused.
   */
  lemma {:induction false} ArrayLine(s: Bytes, rest: Bytes)
    requires TextLine(s)
    ensures forall n | IsI64(n) && IntText(s, n) && n < 0 :: Parse(Line(42, s, rest)) == Parsed(Nil, |s| + 3)
    ensures forall n: nat, vs, c | IsI64(n) && IntText(s, n) && |vs| <= n && StartsWith(rest, vs, c) ::
              ArrayOutcome(Parse(Line(42, s, rest)), |s| + 3, n, rest, vs, c)
    ensures NoInteger(s) ==> Parse(Line(42, s, rest)) == Fail(InvalidArrayLength(s))
  {
    var b := Line(42, s, rest);
    LineParts(42, s, rest);
    IntegerOrNot(s);
    HeadOfArray(b, s, rest);
    hide ParseLine, ParseI64, IntText, ParseHead, Line;
    forall n: nat, vs, c | IsI64(n) && IntText(s, n) && |vs| <= n && StartsWith(rest, vs, c)
      ensures ArrayOutcome(Parse(b), |s| + 3, n, rest, vs, c)
    {
      ItemsAre(rest, vs, c, n);
      ParseOpen(b, n, |s| + 3);
    }
  }

  // ---- the other buffers ----

  /** A complete first line that is not UTF-8 is refused, whatever the type. */
  lemma {:induction false} NonTextLine(tag: byte, s: Bytes, rest: Bytes)
    requires TypeByte(tag) && !Utf8.Valid(s) && NoCrlf(s)
    ensures Parse(Line(tag, s, rest)) == Fail(NonUtf8Line)
  {
    LineBytes(tag, s, rest);
    LineAt(Line(tag, s, rest), s);
  }

  /** Without a CRLF the parser waits. */
  lemma {:induction false} OpenLine(b: Bytes)
    requires b != [] && TypeByte(b[0]) && NoCrlf(b)
    ensures Parse(b) == NeedMore
  {
    var r := FindCrlf(b);
    assert r.None?;
  }

  /** Any other first byte is refused at once. */
  lemma {:induction false} OtherByte(b: Bytes)
    requires b != [] && !TypeByte(b[0])
    ensures Parse(b) == Fail(UnknownType(b[0]))
  {
  }

  // ---- no buffer is stuck ----

  /** The outcome is an error, or a value that ends with the buffer. */
  predicate Settled(r: Outcome, n: nat) { r.Fail? || (r.Parsed? && r.consumed == n) }

  predicate ItemsSettled(r: ItemsOutcome, n: nat) { r.ItemsFail? || (r.Items? && r.consumed == n) }

  lemma UnstickLine(b: Bytes) returns (x: Bytes)
    requires b != [] && IsTag(b[0]) && FindCrlf(b).None?
    ensures Parse(b + x).Fail?
  {
    x := [0xFF, 13, 10];
    var s := b[1..] + [0xFF];
    assert s[|b| - 1] == 0xFF;
    if Utf8.Valid(s) {
      Utf8.NoFF(s);
    }
    forall i | 0 <= i < |s| - 1 ensures !(s[i] == CR && s[i + 1] == LF) {
      assert i + 2 < |b| ==> s[i] == b[i + 1] && s[i + 1] == b[i + 2];
    }
    NonTextLine(b[0], s, []);
    assert b + x == Line(b[0], s, []);
  }

  lemma UnstickBulk(b: Bytes) returns (x: Bytes)
    requires b != [] && b[0] == T_BULK && FindCrlf(b).Some? && Parse(b).NeedMore?
    ensures Settled(Parse(b + x), |b + x|)
  {
    var l := ParseLine(b);
    var n := ParseI64(l.text).value;
    x := seq(l.next + n + 2 - |b|, _ => 0);
    LineStable(b, x);
  }

  lemma ArrayWaits(b: Bytes)
    requires Parse(b).NeedMore? && b != [] && FindCrlf(b).Some? && b[0] != T_BULK
    ensures var head := ParseHead(b);
            head.Open? && 0 < head.next <= |b| && ParseItems(b[head.next..], head.count).ItemsMore?
  {
    hide ParseI64;
  }

  lemma ArrayResumes(b: Bytes, x: Bytes)
    requires ParseHead(b).Open?
    ensures var head := ParseHead(b);
            head.next <= |b| && Parse(b + x) == Close(head.next, ParseItems(b[head.next..] + x, head.count))
  {
    var head := ParseHead(b);
    HeadStable(b, x);
    ParseOpen(b + x, head.count, head.next);
    assert (b + x)[head.next..] == b[head.next..] + x;
  }

  /** Every waiting buffer can be completed to a value or driven into an error. */
  lemma {:induction false} Unstick(b: Bytes) returns (x: Bytes)
    requires Parse(b).NeedMore?
    ensures Settled(Parse(b + x), |b + x|)
    decreases |b|, 0
  {
    if b == [] {
      x := [0];
      OtherByte(b + x);
    } else if FindCrlf(b).None? {
      x := UnstickLine(b);
    } else if b[0] == T_BULK {
      x := UnstickBulk(b);
    } else {
      ArrayWaits(b);
      var head := ParseHead(b);
      hide Parse, ParseHead, ParseItems, FindCrlf;
      x := UnstickItems(b[head.next..], head.count);
      ArrayResumes(b, x);
    }
  }

  lemma {:induction false} UnstickItems(b: Bytes, count: nat) returns (x: Bytes)
    requires ParseItems(b, count).ItemsMore?
    ensures ItemsSettled(ParseItems(b + x, count), |b + x|)
    decreases |b|, 1, count
  {
    hide Parse, ParseItems;
    ItemsStep(b, count);
    var r := Parse(b);
    if r.NeedMore? {
      x := Unstick(b);
      ItemsStep(b + x, count);
      if Parse(b + x).Parsed? {
        var v, c := Parse(b + x).value, Parse(b + x).consumed;
        assert (b + x)[c..] == [];
        ItemsStep([], count - 1);
        if count == 1 {
          ConsItems(v, c, [], 0);
        } else {
          ParseStable(b + x, [0]);
          OtherByte([0]);
          ItemsStep([0], count - 1);
          assert (b + x + [0])[c..] == [0];
          x := x + [0];
          assert b + x == (b + x[..|x| - 1]) + [0];
          ItemsStep(b + x, count);
        }
      }
    } else {
      var v, c := r.value, r.consumed;
      x := UnstickItems(b[c..], count - 1);
      ParseStable(b, x);
      ItemsStep(b + x, count);
      assert (b + x)[c..] == b[c..] + x;
      var more := ParseItems(b[c..] + x, count - 1);
      if more.Items? {
        ConsItems(v, c, more.items, more.consumed);
      }
    }
  }

  /** No buffer is stuck: the parser waits only where more bytes can still make it answer. */
  lemma {:induction false} NeverStuck(b: Bytes)
    ensures exists x :: !Parse(b + x).NeedMore?
  {
    if Parse(b).NeedMore? {
      var x := Unstick(b);
      assert !Parse(b + x).NeedMore?;
    } else {
      assert b + [] == b;
      assert !Parse(b + []).NeedMore?;
    }
  }
}

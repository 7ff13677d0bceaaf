/**
 * Commands as a client spells them: literal bytes in, and what they are taken for. Command names
 * and option words are compared letter by letter, in either case.
 */
module Wire {
  import opened Bytes
  import opened Decimal
  import opened Table
  import opened Resp
  import opened RespProofs
  import opened Replies
  import opened Dispatch
  import Utf8

  // ---- requests ----

  /** '$', the length, the bytes. */
  function WireBulk(w: Bytes): Bytes { [36] + PrintNat(|w|) + [13, 10] + w + [13, 10] }

  function WireBulks(ws: seq<Bytes>): Bytes { if ws == [] then [] else WireBulk(ws[0]) + WireBulks(ws[1..]) }

  /** '*', the number of words, the words as bulk strings. */
  function RequestBytes(ws: seq<Bytes>): Bytes { [42] + PrintNat(|ws|) + [13, 10] + WireBulks(ws) }

  function Bulks(ws: seq<Bytes>): (items: seq<RespValue>)
    ensures |items| == |ws| && forall i :: 0 <= i < |ws| ==> items[i] == BulkString(ws[i])
  {
    seq(|ws|, i requires 0 <= i < |ws| => BulkString(ws[i]))
  }

  lemma {:induction false} WireBulksIsEncode(ws: seq<Bytes>)
    ensures WireBulks(ws) == EncodeAll(Bulks(ws))
  {
    if ws == [] {
      assert Bulks(ws) == [];
    } else {
      assert Bulks(ws) == [BulkString(ws[0])] + Bulks(ws[1..]);
      EncodeAllStep(BulkString(ws[0]), Bulks(ws[1..]));
      WireBulksIsEncode(ws[1..]);
    }
  }

  lemma RequestIsEncode(ws: seq<Bytes>)
    ensures RequestBytes(ws) == Encode(Array(Bulks(ws)))
  {
    hide PrintNat;
    WireBulksIsEncode(ws);
  }

  /** The words fit the machine. */
  predicate Sized(ws: seq<Bytes>) { IsI64(|ws|) && forall i | 0 <= i < |ws| :: IsI64(|ws[i]|) }

  lemma WordsAreSendable(ws: seq<Bytes>)
    requires Sized(ws)
    ensures Sendable(Array(Bulks(ws)))
  {
    var items := Bulks(ws);
    assert forall i | 0 <= i < |items| :: Representable(items[i]) && LineSafe(items[i]);
  }

  // ---- extraction ----

  lemma WordsAreCommand(ws: seq<Bytes>)
    requires ws != [] && Utf8.Valid(ws[0])
    ensures ExtractCommand(Array(Bulks(ws))) == Command(Upper(ws[0]), ws[1..])
  {
    var items := Bulks(ws);
    assert forall i | 0 <= i < |items[1..]| :: items[1..][i] == BulkString(ws[1..][i]);
    assert Payloads(items[1..]) == ws[1..];
  }

  /**
   * A value is a command exactly if it is an array of bulk strings whose first one is UTF-8: that
   * one in upper case is the name, the others are the arguments in order.
   */
  lemma {:induction false} ExtractIff(v: RespValue, name: Bytes, args: seq<Bytes>)
    ensures ExtractCommand(v) == Command(name, args) <==>
            exists raw :: Utf8.Valid(raw) && name == Upper(raw) && v == Array(Bulks([raw] + args))
  {
    if ExtractCommand(v) == Command(name, args) {
      var raw := v.items[0].data;
      assert forall i | 0 <= i < |args| :: v.items[i + 1] == v.items[1..][i] == BulkString(args[i]);
      assert v.items == Bulks([raw] + args);
      assert v == Array(Bulks([raw] + args));
    }
    if raw :| Utf8.Valid(raw) && name == Upper(raw) && v == Array(Bulks([raw] + args)) {
      WordsAreCommand([raw] + args);
      assert ([raw] + args)[1..] == args;
    }
  }

  /** Why a value is no command: the four reasons, the first that applies. */
  lemma {:induction false} RefusalIff(v: RespValue)
    ensures var e := ExtractCommand(v);
            var list := v.Array? && v.items != [];
            && (e == BadCommand(ExpectedArray) <==> !list)
            && (e == BadCommand(NameNotBulk) <==> list && !v.items[0].BulkString?)
            && (e == BadCommand(NonUtf8Name) <==> list && v.items[0].BulkString? && !Utf8.Valid(v.items[0].data))
            && (e == BadCommand(ArgsNotBulk) <==>
                  && list && v.items[0].BulkString? && Utf8.Valid(v.items[0].data)
                  && exists i :: 1 <= i < |v.items| && !v.items[i].BulkString?)
  {
    if v.Array? && v.items != [] {
      var args := v.items[1..];
      if i :| 1 <= i < |v.items| && !v.items[i].BulkString? {
        assert args[i - 1] == v.items[i];
      }
      if i :| 0 <= i < |args| && !args[i].BulkString? {
        assert v.items[i + 1] == args[i];
      }
    }
  }

  // ---- names ----

  predicate Letters(name: string) { forall i | 0 <= i < |name| :: 'A' <= name[i] <= 'Z' }

  /** The word is this name, every letter in upper or lower case. */
  predicate IsWord(w: Bytes, name: string) {
    |w| == |name| && forall i | 0 <= i < |w| :: w[i] as int == name[i] as int || w[i] as int == name[i] as int + 32
  }

  lemma UpperIsWord(w: Bytes, name: string)
    requires Letters(name)
    ensures Printable(name) && (Upper(w) == Text(name) <==> IsWord(w, name))
  {
    if IsWord(w, name) {
      forall i | 0 <= i < |w| ensures Upper(w)[i] == Text(name)[i] {
      }
    }
    if Upper(w) == Text(name) {
      forall i | 0 <= i < |w| ensures w[i] as int == name[i] as int || w[i] as int == name[i] as int + 32 {
        assert Upper(w)[i] == Text(name)[i];
      }
    }
  }

  /** The names of the commands; FLUSH has three. */
  function Names(verb: Verb): (names: seq<string>)
    ensures forall i :: 0 <= i < |names| ==> Letters(names[i])
  {
    match verb
    case PING => ["PING"]
    case GET => ["GET"]
    case SET => ["SET"]
    case DEL => ["DEL"]
    case EXISTS => ["EXISTS"]
    case MGET => ["MGET"]
    case MSET => ["MSET"]
    case INCR => ["INCR"]
    case DECR => ["DECR"]
    case TTL => ["TTL"]
    case FLUSH => ["FLUSH", "FLUSHALL", "FLUSHDB"]
    case INFO => ["INFO"]
    case COMMAND => ["COMMAND"]
    case OTHER => []
  }

  /** The word names the command. */
  predicate Means(w: Bytes, verb: Verb)
    requires verb != OTHER
  {
    exists i :: 0 <= i < |Names(verb)| && IsWord(w, Names(verb)[i])
  }

  lemma OneName(w: Bytes, verb: Verb)
    requires verb != OTHER && verb != FLUSH
    ensures Upper(w) == VerbName(verb) <==> Means(w, verb)
  {
    hide Upper, Text, IsWord, Letters, Printable;
    var name := Names(verb)[0];
    UpperIsWord(w, name);
  }

  lemma FlushNames(w: Bytes)
    ensures Upper(w) == VerbName(FLUSH) || Upper(w) == Text("FLUSHALL") || Upper(w) == Text("FLUSHDB") <==>
            Means(w, FLUSH)
  {
    hide Upper, Text, IsWord, Letters, Printable;
    assert Names(FLUSH) == ["FLUSH", "FLUSHALL", "FLUSHDB"];
    UpperIsWord(w, Names(FLUSH)[0]);
    UpperIsWord(w, Names(FLUSH)[1]);
    UpperIsWord(w, Names(FLUSH)[2]);
  }

  /** Length and first three letters: enough to tell the names apart. */
  function Mark(verb: Verb): (int, int, int, int) {
    match verb
    case PING => (4, 80, 73, 78)
    case GET => (3, 71, 69, 84)
    case SET => (3, 83, 69, 84)
    case DEL => (3, 68, 69, 76)
    case EXISTS => (6, 69, 88, 73)
    case MGET => (4, 77, 71, 69)
    case MSET => (4, 77, 83, 69)
    case INCR => (4, 73, 78, 67)
    case DECR => (4, 68, 69, 67)
    case TTL => (3, 84, 84, 76)
    case FLUSH => (5, 70, 76, 85)
    case INFO => (4, 73, 78, 70)
    case COMMAND => (7, 67, 79, 77)
    case OTHER => (0, 0, 0, 0)
  }

  lemma NameMark(verb: Verb)
    ensures var t := VerbName(verb);
            |t| == Mark(verb).0 && (verb != OTHER ==>
              t[0] as int == Mark(verb).1 && t[1] as int == Mark(verb).2 && t[2] as int == Mark(verb).3)
  {
  }

  lemma NamesApart(verb: Verb, verb': Verb)
    requires verb != verb'
    ensures VerbName(verb) != VerbName(verb')
  {
    NameMark(verb);
    NameMark(verb');
    hide VerbName;
  }

  lemma FlushApart(verb: Verb)
    requires verb != FLUSH
    ensures VerbName(verb) != Text("FLUSHALL") && VerbName(verb) != Text("FLUSHDB")
  {
    NameMark(verb);
    assert Text("FLUSHDB")[0] == 70;
    hide VerbName;
  }

  lemma FlushNamesDiffer()
    ensures VerbOf(Text("FLUSHALL")) == FLUSH && VerbOf(Text("FLUSHDB")) == FLUSH
  {
  }

  lemma VerbHasName(name: Bytes)
    ensures var verb := VerbOf(name);
            verb != OTHER ==>
              name == VerbName(verb) || (verb == FLUSH && (name == Text("FLUSHALL") || name == Text("FLUSHDB")))
  {
    hide VerbName, Text;
  }

  lemma OtherIsNoName(name: Bytes, verb: Verb)
    requires verb != OTHER && VerbOf(name) == OTHER
    ensures name != VerbName(verb)
  {
    hide VerbName, Text;
  }

  lemma NamesDiffer(verb: Verb)
    requires verb != OTHER
    ensures VerbOf(VerbName(verb)) == verb
  {
    hide *;
    var name := VerbName(verb);
    var verb' := VerbOf(name);
    VerbHasName(name);
    if verb' == OTHER {
      OtherIsNoName(name, verb);
    } else if verb' != verb {
      NamesApart(verb, verb');
      FlushApart(verb);
    }
  }

  /** A command word is recognised exactly if it is one of the command's names, in either case. */
  lemma {:induction false} VerbIff(w: Bytes, verb: Verb)
    requires verb != OTHER
    ensures VerbOf(Upper(w)) == verb <==> Means(w, verb)
  {
    hide *;
    VerbHasName(Upper(w));
    NamesDiffer(verb);
    if verb == FLUSH {
      FlushNames(w);
      FlushNamesDiffer();
    } else {
      OneName(w, verb);
    }
  }
}

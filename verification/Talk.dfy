/**
 * What a client reads. A request in literal bytes, cut into reads in any way, comes back as one
 * value, said here in terms of the map the store shows and nothing else.
 */
module Talk {
  import opened Bytes
  import opened Decimal
  import opened Table
  import opened Resp
  import opened RespProofs
  import opened ClientModel
  import opened Refinement
  import opened Replies
  import opened ReplyProofs
  import opened Dispatch
  import opened Commands
  import opened CommandRuns
  import opened Counters
  import opened Connection
  import opened Service
  import opened Wire
  import opened Options
  import opened Texts
  import Utf8

  /** A connection that receives these reads and has had `k` commands answered before. */
  function Converse(server: Server, s: Store, k: nat, arrivals: seq<Bytes>): (x: Session)
    requires |s.cells| > 0
    ensures |x.store.cells| == |s.cells|
  {
    HandleAll(server, Session(s, k, []), Serve([], arrivals).events)
  }

  lemma OneValue(arrivals: seq<Bytes>, v: RespValue)
    requires Sendable(v) && Stream(arrivals) == Encode(v)
    ensures Serve([], arrivals) == Drained([Dispatch(v)], [])
  {
    hide *;
    NothingNeedsMore();
    EncodeAllNil();
    EncodeAllStep(v, []);
    assert [v] + [] == [v] && Encode(v) + [] == Encode(v);
    PipelineRoundTrip([v], []);
    StreamIsParseAll(arrivals);
    var s := Serve([], arrivals);
    assert s.events == [Dispatch(v)];
    assert Encode(v)[|Encode(v)|..] == [];
  }

  /** A connection whose client sends one value. */
  lemma OneReply(server: Server, s: Store, k: nat, v: RespValue, arrivals: seq<Bytes>)
    requires |s.cells| > 0 && Sendable(v) && Stream(arrivals) == Encode(v)
    ensures var (r, s') := Respond(server.hash, s, v, server.clock(k));
            Converse(server, s, k, arrivals) == Session(s', k + 1, Encode(Render(server.ratio, r)))
  {
    hide Respond, Render, Encode, Stream, Serve, HandleAll, Handle, Sendable;
    var x := Session(s, k, []);
    OneValue(arrivals, v);
    HandleFirst(server, x, Dispatch(v), []);
    assert [Dispatch(v)] + [] == [Dispatch(v)];
    HandleDispatch(server, x, v);
    HandleNothing(server, Handle(server, x, Dispatch(v)));
    var out := Encode(Render(server.ratio, Respond(server.hash, s, v, server.clock(k)).0));
    assert [] + out == out;
  }

  /** One request is executed once, and its encoded reply is all that is sent. */
  lemma OneRequest(server: Server, s: Store, k: nat, ws: seq<Bytes>, arrivals: seq<Bytes>)
    requires |s.cells| > 0 && Sized(ws) && Stream(arrivals) == RequestBytes(ws)
    ensures var (r, s') := Respond(server.hash, s, Array(Bulks(ws)), server.clock(k));
            Converse(server, s, k, arrivals) == Session(s', k + 1, Encode(Render(server.ratio, r)))
  {
    hide *;
    WordsAreSendable(ws);
    RequestIsEncode(ws);
    OneReply(server, s, k, Array(Bulks(ws)), arrivals);
  }

  // ---- what the client reads ----

  /** The simple string "OK". */
  predicate Accepted(w: RespValue) { w == SimpleString([79, 75]) }

  /** The entry of `key` is in the map and its time has not come. */
  predicate Alive(m: Dict, key: Bytes, now: u64) {
    key in m && (m[key].expiry == 0 || now < m[key].expiry)
  }

  /** The map takes the entry: it fits a slot, and the key is there or there is room. */
  predicate Takes(n: nat, m: Dict, key: Bytes, value: Bytes) {
    |key| <= 128 && |value| <= 1024 && (key in m || |m| != n)
  }

  /** Why the map does not take an entry: the first limit that applies. */
  function WhyNot(n: nat, key: Bytes, value: Bytes): ClientError {
    if |key| > 128 then KeyTooLong(|key|) else if |value| > 1024 then ValueTooLong(|value|) else ArenaFull(n)
  }

  /** A counter: the number the live value is a numeral for, otherwise 0. */
  ghost function Current(m: Dict, key: Bytes, now: u64): u64 {
    if Alive(m, key, now) then Amount(m[key].value) else 0
  }

  /** The 64 bits of `n` read as a signed number. */
  function Signed(n: u64): int { if n < 0x8000_0000_0000_0000 then n else n - 0x1_0000_0000_0000_0000 }

  ghost function Next(verb: Verb, n: u64): u64 {
    if verb == INCR then (n + 1) % 0x1_0000_0000_0000_0000 else if n > 0 then n - 1 else 0
  }

  /** The map a counter command writes into: its look-up has dropped the key if it had expired. */
  function AfterLook(m: Dict, key: Bytes, now: u64): Dict {
    if key in m && !Alive(m, key, now) then m - {key} else m
  }

  ghost predicate ReadsCounter(verb: Verb, n: nat, m: Dict, key: Bytes, clock: Clock, w: RespValue) {
    var m1 := AfterLook(m, key, clock(0));
    if |key| <= 128 && (key in m1 || |m1| != n) then w == Integer(Signed(Next(verb, Current(m, key, clock(0)))))
    else Limit(w, if |key| > 128 then KeyTooLong(|key|) else ArenaFull(n))
  }

  /** The i-th look-up of a list finds its key: there, and not expired at this or an earlier look-up of it. */
  ghost predicate Finds(m: Dict, keys: seq<Bytes>, i: nat, clock: Clock)
    requires i < |keys|
  {
    |keys[i]| <= 128 && keys[i] in m && forall j | 0 <= j <= i && keys[j] == keys[i] :: Alive(m, keys[i], clock(j))
  }

  ghost predicate ReadsValues(m: Dict, keys: seq<Bytes>, clock: Clock, w: RespValue) {
    && w.Array? && |w.items| == |keys|
    && forall i | 0 <= i < |keys| ::
         w.items[i] == if Finds(m, keys, i, clock) then BulkString(m[keys[i]].value) else Nil
  }

  ghost function Hits(m: Dict, keys: seq<Bytes>, clock: Clock): set<nat> {
    set i | 0 <= i < |keys| && Finds(m, keys, i, clock)
  }

  /** The keys of a list that are stored, expired or not. */
  function StoredOf(m: Dict, keys: seq<Bytes>): set<Bytes> { set k | k in keys && |k| <= 128 && k in m }

  /** The keys at even positions before position `i`. */
  function KeysBefore(args: seq<Bytes>, i: nat): set<Bytes> {
    set j | 0 <= j < |args| && j < 2 * i && j % 2 == 0 :: args[j]
  }

  ghost predicate TakesPair(n: nat, m: Dict, args: seq<Bytes>, i: nat)
    requires |args| % 2 == 0 && 2 * i < |args|
  {
    var keys := m.Keys + KeysBefore(args, i);
    |args[2 * i]| <= 128 && |args[2 * i + 1]| <= 1024 && (args[2 * i] in keys || |keys| != n)
  }

  /** Every pair of the list fits a slot, and its key is there by then or there is room for it. */
  ghost predicate TakesAll(n: nat, m: Dict, args: seq<Bytes>)
    requires |args| % 2 == 0
  {
    forall i: nat | 2 * i < |args| :: TakesPair(n, m, args, i)
  }

  /** The first key that is too long. */
  ghost predicate FirstTooLong(keys: seq<Bytes>, i: nat) {
    i < |keys| && |keys[i]| > 128 && forall j | 0 <= j < i :: |keys[j]| <= 128
  }

  /** The first pair the map does not take. */
  ghost predicate FirstDenied(n: nat, m: Dict, args: seq<Bytes>, i: nat)
    requires |args| % 2 == 0
  {
    2 * i < |args| && !TakesPair(n, m, args, i) && forall j: nat | j < i :: TakesPair(n, m, args, j)
  }

  ghost predicate ReadsMset(n: nat, m: Dict, args: seq<Bytes>, w: RespValue)
    requires |args| % 2 == 0
  {
    if TakesAll(n, m, args) then Accepted(w)
    else exists i: nat :: FirstDenied(n, m, args, i) && Limit(w, WhyNot(n, args[2 * i], args[2 * i + 1]))
  }

  ghost predicate ReadsMget(m: Dict, keys: seq<Bytes>, clock: Clock, w: RespValue) {
    if exists i :: 0 <= i < |keys| && |keys[i]| > 128
    then exists i: nat :: FirstTooLong(keys, i) && Limit(w, KeyTooLong(|keys[i]|))
    else ReadsValues(m, keys, clock, w)
  }

  /**
   * The value a client reads for a command with these arguments, on a map `m` of capacity `n`, the
   * i-th table operation being at reading clock(i).
   */
  ghost predicate Reads(verb: Verb, n: nat, m: Dict, used: u64, ratio: Ratio, word: Bytes, args: seq<Bytes>,
                        clock: Clock, w: RespValue)
  {
    match verb
    case PING => w == if args == [] then SimpleString([80, 79, 78, 71]) else BulkString(args[0])
    case GET =>
      if |args| != 1 then WrongCount(w, GET)
      else if |args[0]| > 128 then Limit(w, KeyTooLong(|args[0]|))
      else w == if Alive(m, args[0], clock(0)) then BulkString(m[args[0]].value) else Nil
    case SET =>
      if |args| < 2 then WrongCount(w, SET)
      else if Takes(n, m, args[0], args[1]) then Accepted(w) else Limit(w, WhyNot(n, args[0], args[1]))
    case DEL => if args == [] then WrongCount(w, DEL) else w == Integer(|StoredOf(m, args)|)
    case EXISTS => if args == [] then WrongCount(w, EXISTS) else w == Integer(|Hits(m, args, clock)|)
    case MGET => if args == [] then WrongCount(w, MGET) else ReadsMget(m, args, clock, w)
    case MSET => if args == [] || |args| % 2 != 0 then WrongCount(w, MSET) else ReadsMset(n, m, args, w)
    case INCR => if |args| != 1 then WrongCount(w, INCR) else ReadsCounter(INCR, n, m, args[0], clock, w)
    case DECR => if |args| != 1 then WrongCount(w, DECR) else ReadsCounter(DECR, n, m, args[0], clock, w)
    case TTL => if |args| != 1 then WrongCount(w, TTL) else w == Integer(-1)
    case FLUSH => Accepted(w)
    case INFO => w.BulkString? && InfoLines(w.data, used, n, ratio(used, n))
    case COMMAND => w == Array([])
    case OTHER => NotKnown(w, word)
  }

  // ---- replies in literal bytes ----

  lemma LiteralWords()
    ensures OK == [79, 75] && PONG == [80, 79, 78, 71]
  {
  }

  /** How every reply reads. */
  lemma RenderSays(ratio: Ratio, r: Reply)
    ensures var w := Render(ratio, r);
            match r
            case OkReply => Accepted(w)
            case PongReply => w == SimpleString([80, 79, 78, 71])
            case BulkReply(data) => w == BulkString(data)
            case NilReply => w == Nil
            case IntReply(n) => w == Integer(n)
            case ValuesReply(vs) =>
              && w.Array? && |w.items| == |vs|
              && forall i | 0 <= i < |vs| :: w.items[i] == if vs[i].Some? then BulkString(vs[i].value) else Nil
            case InfoReply(used, n) => w.BulkString? && InfoLines(w.data, used, n, ratio(used, n))
            case CommandsReply => w == Array([])
            case ErrReply(e) => Limit(w, e)
            case BadReply(why) => w.Error? && Says(w.message, "ERR " + Objection(why), [], "")
            case WrongArgs(verb) => verb != OTHER ==> WrongCount(w, verb)
            case UnknownCommand(name) => forall raw | name == Upper(raw) :: NotKnown(w, raw)
  {
    hide ClientErrorText, CommandErrorText, InfoText, WrongArgsText, UnknownText, Limit, WrongCount, NotKnown;
    hide InfoLines, Says;
    match r
    case OkReply => LiteralWords();
    case PongReply => LiteralWords();
    case InfoReply(used, n) => InfoReads(ratio, used, n);
    case ErrReply(e) => LimitReads(e);
    case BadReply(why) => ObjectionSays(why);
    case WrongArgs(verb) => if verb != OTHER { WrongCountReads(verb); }
    case UnknownCommand(name) =>
      forall raw | name == Upper(raw) ensures NotKnown(Render(ratio, r), raw) {
        NotKnownReads(raw);
      }
    case _ =>
  }

  // ---- the map's answers ----

  lemma AliveIff(m: Dict, key: Bytes, now: u64)
    ensures key in m ==> (Alive(m, key, now) <==> !IsExpired(m[key].expiry, now))
    ensures AfterLook(m, key, now) == Drop(m, key, now)
  {
  }

  lemma SetReads(n: nat, m: Dict, key: Bytes, value: Bytes, ttl: u64, now: u64)
    ensures var a := MapSet(n, m, key, value, ttl, now).0;
            if Takes(n, m, key, value) then a.Ok? else a == Err(WhyNot(n, key, value))
  {
  }

  lemma FindsIff(m: Dict, keys: seq<Bytes>, i: nat, clock: Clock)
    requires i < |keys|
    ensures Look(m, keys, i, clock, 0) == if Finds(m, keys, i, clock) then Some(m[keys[i]].value) else None
  {
    var key, upTo := keys[i], keys[..i + 1];
    if key in m {
      var e := m[key];
      forall j | 0 <= j <= i
        ensures upTo[j] == keys[j] && (Alive(m, key, clock(j)) <==> !IsExpired(e.expiry, clock(0 + j)))
      {
        AliveIff(m, key, clock(j));
      }
      if Caught(e, key, upTo, clock, 0) {
        var j :| 0 <= j < |upTo| && upTo[j] == key && IsExpired(e.expiry, clock(0 + j));
        assert keys[j] == key && !Alive(m, key, clock(j));
      }
      if |key| <= 128 && !Finds(m, keys, i, clock) {
        var j :| 0 <= j <= i && keys[j] == key && !Alive(m, key, clock(j));
        assert upTo[j] == key && IsExpired(e.expiry, clock(0 + j));
      }
    }
  }

  function SomeAt(a: seq<Option<Bytes>>): set<nat> { set i | 0 <= i < |a| && a[i].Some? }

  function Shifted(s: set<nat>): set<nat> { set i | i in s :: i + 1 }

  lemma {:induction false} ShiftKeepsSize(s: set<nat>)
    ensures |Shifted(s)| == |s|
    decreases |s|
  {
    if s == {} {
      assert Shifted(s) == {};
    } else {
      var x :| x in s;
      var t := s - {x};
      ShiftKeepsSize(t);
      forall y | y in Shifted(s) ensures y in Shifted(t) || y == x + 1 {
        var i :| i in s && y == i + 1;
        assert i == x || i in t;
      }
      assert x + 1 !in Shifted(t) && Shifted(s) == Shifted(t) + {x + 1};
    }
  }

  lemma {:induction false} CountSomeIs(a: seq<Option<Bytes>>)
    ensures CountSome(a) == |SomeAt(a)|
  {
    if a == [] {
      assert SomeAt(a) == {};
    } else {
      var more := a[1..];
      CountSomeIs(more);
      var shifted := Shifted(SomeAt(more));
      ShiftKeepsSize(SomeAt(more));
      assert SomeAt(a) == shifted + (if a[0].Some? then {0} else {}) by {
        forall i | i in SomeAt(a) ensures i == 0 || i in shifted {
          if i > 0 {
            assert more[i - 1] == a[i];
            assert i - 1 in SomeAt(more);
          }
        }
      }
      assert 0 !in shifted;
    }
  }

  lemma ExistsReads(m: Dict, keys: seq<Bytes>, clock: Clock)
    ensures CountSome(Answers(m, keys, clock, 0)) == |Hits(m, keys, clock)|
  {
    var a := Answers(m, keys, clock, 0);
    forall i | 0 <= i < |keys| ensures a[i].Some? <==> Finds(m, keys, i, clock) {
      FindsIff(m, keys, i, clock);
    }
    assert SomeAt(a) == Hits(m, keys, clock);
    CountSomeIs(a);
  }

  lemma LeadingIff(keys: seq<Bytes>)
    ensures Leading(keys) == |keys| <==> !exists i :: 0 <= i < |keys| && |keys[i]| > 128
    ensures Leading(keys) < |keys| ==> FirstTooLong(keys, Leading(keys))
  {
  }

  lemma MgetReads(m: Dict, keys: seq<Bytes>, clock: Clock, ratio: Ratio)
    ensures ReadsMget(m, keys, clock, Render(ratio, MapMget(m, keys, clock).0))
  {
    LeadingIff(keys);
    RenderSays(ratio, MapMget(m, keys, clock).0);
    forall i | 0 <= i < |keys|
      ensures Answers(m, keys, clock, 0)[i] == if Finds(m, keys, i, clock) then Some(m[keys[i]].value) else None
    {
      FindsIff(m, keys, i, clock);
    }
    hide Render, Finds, Answers, Leading, Seen, FirstTooLong, Limit;
  }

  // ---- MSET ----

  /** Pairs are two consecutive arguments each. */
  lemma {:induction false} PairsAt(args: seq<Bytes>)
    requires |args| % 2 == 0
    ensures 2 * |Pairs(args)| == |args|
    ensures forall i: nat | i < |Pairs(args)| :: Pairs(args)[i] == (args[2 * i], args[2 * i + 1])
  {
    if args != [] {
      var more := args[2..];
      PairsAt(more);
      forall i: nat | i < |Pairs(args)| ensures Pairs(args)[i] == (args[2 * i], args[2 * i + 1]) {
        if i > 0 {
          assert Pairs(args)[i] == Pairs(more)[i - 1] == (more[2 * (i - 1)], more[2 * (i - 1) + 1]);
        }
      }
    }
  }

  lemma KeysShift(args: seq<Bytes>, i: nat)
    requires |args| % 2 == 0 && args != []
    ensures KeysBefore(args, i + 1) == {args[0]} + KeysBefore(args[2..], i)
  {
    var more := args[2..];
    forall x | x in KeysBefore(args, i + 1) ensures x == args[0] || x in KeysBefore(more, i) {
      var j :| 0 <= j < |args| && j < 2 * (i + 1) && j % 2 == 0 && args[j] == x;
      if j > 0 {
        assert more[j - 2] == x && (j - 2) % 2 == 0;
      }
    }
    forall x | x in KeysBefore(more, i) ensures x in KeysBefore(args, i + 1) {
      var j :| 0 <= j < |more| && j < 2 * i && j % 2 == 0 && more[j] == x;
      assert args[j + 2] == x && (j + 2) % 2 == 0;
    }
    assert args[0] in KeysBefore(args, i + 1);
  }

  lemma LaterPair(n: nat, m: Dict, args: seq<Bytes>, e: Entry, i: nat)
    requires |args| % 2 == 0 && 2 * (i + 1) < |args|
    ensures TakesPair(n, m[args[0] := e], args[2..], i) <==> TakesPair(n, m, args, i + 1)
  {
    var more, m' := args[2..], m[args[0] := e];
    KeysShift(args, i);
    assert m'.Keys + KeysBefore(more, i) == m.Keys + KeysBefore(args, i + 1);
    assert more[2 * i] == args[2 * (i + 1)] && more[2 * i + 1] == args[2 * (i + 1) + 1];
  }

  lemma PairZero(n: nat, m: Dict, args: seq<Bytes>)
    requires |args| % 2 == 0 && args != []
    ensures TakesPair(n, m, args, 0) <==> Takes(n, m, args[0], args[1])
  {
    assert KeysBefore(args, 0) == {};
    assert m.Keys + {} == m.Keys && |m.Keys| == |m|;
  }

  lemma MorePairs(n: nat, m: Dict, args: seq<Bytes>, e: Entry)
    requires |args| % 2 == 0 && args != [] && TakesAll(n, m, args)
    ensures TakesAll(n, m[args[0] := e], args[2..])
  {
    var more, m' := args[2..], m[args[0] := e];
    hide TakesPair;
    forall i: nat | 2 * i < |more| ensures TakesPair(n, m', more, i) {
      LaterPair(n, m, args, e, i);
    }
  }

  lemma AllPairs(n: nat, m: Dict, args: seq<Bytes>, e: Entry)
    requires |args| % 2 == 0 && args != [] && TakesPair(n, m, args, 0) && TakesAll(n, m[args[0] := e], args[2..])
    ensures TakesAll(n, m, args)
  {
    hide TakesPair;
    forall i: nat | 2 * i < |args| ensures TakesPair(n, m, args, i) {
      if i > 0 {
        assert TakesPair(n, m[args[0] := e], args[2..], i - 1);
        LaterPair(n, m, args, e, i - 1);
      }
    }
  }

  lemma TakesFirst(n: nat, m: Dict, args: seq<Bytes>)
    requires |args| % 2 == 0 && args != [] && TakesAll(n, m, args)
    ensures TakesPair(n, m, args, 0)
  {
    hide TakesPair;
    var zero: nat := 0;
    assert 2 * zero < |args|;
  }

  lemma FirstPair(n: nat, m: Dict, args: seq<Bytes>, e: Entry)
    requires |args| % 2 == 0 && args != []
    ensures TakesAll(n, m, args) <==> Takes(n, m, args[0], args[1]) && TakesAll(n, m[args[0] := e], args[2..])
  {
    hide *;
    PairZero(n, m, args);
    if TakesAll(n, m, args) {
      TakesFirst(n, m, args);
      MorePairs(n, m, args, e);
    }
    if TakesPair(n, m, args, 0) && TakesAll(n, m[args[0] := e], args[2..]) {
      AllPairs(n, m, args, e);
    }
  }

  /** MSET writes all its pairs exactly if the map takes them all. */
  lemma {:induction false} WrittenIff(n: nat, m: Dict, args: seq<Bytes>, clock: Clock, k: nat)
    requires |args| % 2 == 0
    ensures Written(n, m, Pairs(args), 0, clock, k) == |Pairs(args)| <==> TakesAll(n, m, args)
    decreases args
  {
    if args != [] {
      var e := Entry(args[1], TtlToExpiry(0, clock(k)));
      FirstPair(n, m, args, e);
      SetReads(n, m, args[0], args[1], 0, clock(k));
      hide TakesAll, Takes, MapSet;
      WrittenIff(n, m[args[0] := e], args[2..], clock, k + 1);
      assert Pairs(args)[1..] == Pairs(args[2..]);
    }
  }

  lemma PairsStep(args: seq<Bytes>)
    requires |args| % 2 == 0
    ensures Pairs(args) != [] ==>
              args != [] && Pairs(args)[0] == (args[0], args[1]) && Pairs(args)[1..] == Pairs(args[2..])
  {
  }

  lemma DeniedAtOnce(n: nat, m: Dict, args: seq<Bytes>)
    requires |args| % 2 == 0 && args != [] && !TakesPair(n, m, args, 0)
    ensures FirstDenied(n, m, args, 0)
  {
    hide TakesPair;
  }

  lemma DeniedLater(n: nat, m: Dict, args: seq<Bytes>, e: Entry, i: nat)
    requires |args| % 2 == 0 && args != [] && TakesPair(n, m, args, 0) && FirstDenied(n, m[args[0] := e], args[2..], i)
    ensures FirstDenied(n, m, args, i + 1)
    ensures args[2..][2 * i] == args[2 * (i + 1)] && args[2..][2 * i + 1] == args[2 * (i + 1) + 1]
  {
    hide TakesPair;
    LaterPair(n, m, args, e, i);
    forall j: nat | j < i + 1 ensures TakesPair(n, m, args, j) {
      if j > 0 {
        LaterPair(n, m, args, e, j - 1);
        assert TakesPair(n, m[args[0] := e], args[2..], j - 1);
      }
    }
  }

  lemma RefusalOfFirst(n: nat, m: Dict, pairs: seq<(Bytes, Bytes)>, ttl: u64, now: u64)
    requires pairs != []
    ensures Refusal(n, m, pairs, 0, ttl, now) == MapSet(n, m, pairs[0].0, pairs[0].1, ttl, now).0
  {
    hide MapSet;
  }

  lemma LaterRefusal(n: nat, m: Dict, pairs: seq<(Bytes, Bytes)>, done: nat, ttl: u64, now: u64)
    requires done + 1 < |pairs|
    ensures Refusal(n, m, pairs, done + 1, ttl, now) == Refusal(n, m, pairs[1..], done, ttl, now)
  {
    hide MapSet;
  }

  /** Where MSET stops early the map does not take the next pair, and says why. */
  lemma {:induction false} StopIsDenied(n: nat, m: Dict, args: seq<Bytes>, clock: Clock, k: nat)
    requires |args| % 2 == 0 && Written(n, m, Pairs(args), 0, clock, k) < |Pairs(args)|
    ensures var pairs := Pairs(args);
            var done := Written(n, m, pairs, 0, clock, k);
            && FirstDenied(n, m, args, done)
            && Refusal(n, PutAll(m, pairs[..done], 0, clock, k), pairs, done, 0, clock(k + done))
               == Err(WhyNot(n, pairs[done].0, pairs[done].1))
    decreases args
  {
    hide *;
    var pairs := Pairs(args);
    PairsStep(args);
    WrittenStep(n, m, pairs, 0, clock, k);
    PairZero(n, m, args);
    SetReads(n, m, args[0], args[1], 0, clock(k));
    var (a, m1) := MapSet(n, m, pairs[0].0, pairs[0].1, 0, clock(k));
    if a.Err? {
      assert pairs[..0] == [];
      RefusalOfFirst(n, m, pairs, 0, clock(k));
      DeniedAtOnce(n, m, args);
    } else {
      var e := Entry(args[1], TtlToExpiry(0, clock(k)));
      MapSetCases(n, m, args[0], args[1], 0, clock(k));
      var more := args[2..];
      var done := Written(n, m1, Pairs(more), 0, clock, k + 1);
      StopIsDenied(n, m1, more, clock, k + 1);
      LaterRefusal(n, PutAll(m, pairs[..done + 1], 0, clock, k), pairs, done, 0, clock(k + 1 + done));
      assert k + 1 + done == k + (done + 1);
      DeniedLater(n, m, args, e, done);
    }
  }

  lemma MapMsetIs(n: nat, m: Dict, pairs: seq<(Bytes, Bytes)>, clock: Clock)
    ensures var r, done := MapMset(n, m, pairs, clock).0, Written(n, m, pairs, 0, clock, 0);
            if done == |pairs| then r == OkReply
            else
              var a := Refusal(n, PutAll(m, pairs[..done], 0, clock, 0), pairs, done, 0, clock(done));
              a.Err? ==> r == ErrReply(a.error)
  {
    hide Written, PutAll, Refusal;
  }

  lemma MapMsetCases(n: nat, m: Dict, args: seq<Bytes>, clock: Clock)
    requires |args| % 2 == 0
    ensures var pairs := Pairs(args);
            var r, done := MapMset(n, m, pairs, clock).0, Written(n, m, pairs, 0, clock, 0);
            if done == |pairs| then r == OkReply
            else FirstDenied(n, m, args, done) && r == ErrReply(WhyNot(n, pairs[done].0, pairs[done].1))
  {
    hide Written, PutAll, Refusal, WhyNot, Pairs, MapMset, TakesPair;
    MapMsetIs(n, m, Pairs(args), clock);
    if Written(n, m, Pairs(args), 0, clock, 0) < |Pairs(args)| {
      StopIsDenied(n, m, args, clock, 0);
    }
  }

  lemma DeniedPair(n: nat, m: Dict, args: seq<Bytes>, i: nat, w: RespValue)
    requires |args| % 2 == 0 && FirstDenied(n, m, args, i) && i < |Pairs(args)|
    requires Limit(w, WhyNot(n, Pairs(args)[i].0, Pairs(args)[i].1))
    ensures !TakesAll(n, m, args) && ReadsMset(n, m, args, w)
  {
    PairsAt(args);
    hide TakesPair, Limit, WhyNot, Pairs, Accepted;
  }

  lemma MsetReads(n: nat, m: Dict, args: seq<Bytes>, clock: Clock, ratio: Ratio)
    requires args != [] && |args| % 2 == 0
    ensures ReadsMset(n, m, args, Render(ratio, MapMset(n, m, Pairs(args), clock).0))
  {
    hide Written, TakesAll, FirstDenied, Limit, WhyNot, MapMset, Render, Pairs, Accepted;
    WrittenIff(n, m, args, clock, 0);
    MapMsetCases(n, m, args, clock);
    var r := MapMset(n, m, Pairs(args), clock).0;
    RenderSays(ratio, r);
    if !TakesAll(n, m, args) {
      DeniedPair(n, m, args, Written(n, m, Pairs(args), 0, clock, 0), Render(ratio, r));
    }
  }

  // ---- counters ----

  lemma NumberIs(text: Bytes)
    ensures Number(Some(text)) == Amount(text)
  {
    ArgumentIsAmount(text);
    if ParseU64(text).Some? {
      assert forall i | 0 <= i < |text| :: text[i] < 0x80;
      Utf8.AsciiIsValid(text);
    }
    hide Amount;
  }

  lemma CounterReads(verb: Verb, n: nat, m: Dict, key: Bytes, clock: Clock)
    requires verb == INCR || verb == DECR
    ensures var a := MapBump(n, m, key, NextOf(verb), clock(0), clock(1)).0;
            var m1 := AfterLook(m, key, clock(0));
            if |key| <= 128 && (key in m1 || |m1| != n) then a == Ok(Next(verb, Current(m, key, clock(0))))
            else a == Err(if |key| > 128 then KeyTooLong(|key|) else ArenaFull(n))
  {
    AliveIff(m, key, clock(0));
    var (current, m1) := MapGet(m, key, clock(0));
    if current.Ok? {
      if current.value.Some? {
        NumberIs(current.value.value);
      }
      var v := NextOf(verb)(Number(current.value));
      PrintFits(v);
      hide Number, PrintNat, Amount;
      SetReads(n, m1, key, PrintNat(v), 0, clock(1));
    }
  }

  lemma SignedIs(n: u64)
    ensures AsI64(n) == Signed(n)
  {
  }

  // ---- every command ----

  lemma BumpReads(verb: Verb, n: nat, m: Dict, args: seq<Bytes>, clock: Clock, ratio: Ratio)
    requires (verb == INCR || verb == DECR) && |args| == 1
    ensures var a := MapBump(n, m, args[0], NextOf(verb), clock(0), clock(1)).0;
            var r := if a.Err? then ErrReply(a.error) else IntReply(AsI64(a.value));
            ReadsCounter(verb, n, m, args[0], clock, Render(ratio, r))
  {
    CounterReads(verb, n, m, args[0], clock);
    var a := MapBump(n, m, args[0], NextOf(verb), clock(0), clock(1)).0;
    RenderSays(ratio, if a.Err? then ErrReply(a.error) else IntReply(AsI64(a.value)));
    if a.Ok? {
      SignedIs(a.value);
    }
    hide MapBump, Render, Current, AfterLook, Next, AsI64, Signed, Limit;
  }

  lemma DelReads(m: Dict, keys: seq<Bytes>)
    ensures Fitting(keys) * m.Keys == StoredOf(m, keys)
  {
  }

  lemma GetReads(m: Dict, key: Bytes, now: u64)
    ensures MapGet(m, key, now).0 ==
            if |key| > 128 then Err(KeyTooLong(|key|)) else Ok(if Alive(m, key, now) then Some(m[key].value) else None)
  {
  }

  /** The map's reply to a command, as a client reads it. */
  lemma {:induction false} ExecuteReads(verb: Verb, n: nat, m: Dict, used: u64, ratio: Ratio, word: Bytes,
                                        args: seq<Bytes>, clock: Clock)
    ensures Reads(verb, n, m, used, ratio, word, args, clock,
                  Render(ratio, MapExecute(n, m, used, verb, Upper(word), args, clock).0))
  {
    var r := MapExecute(n, m, used, verb, Upper(word), args, clock).0;
    RenderSays(ratio, r);
    hide Render, MapMget, MapMset, MapBump, MapSet, MapGet, ReadsCounter, ReadsMget, ReadsMset, Takes, Alive, Hits;
    hide Fitting, Answers, StoredOf, Seen, CountSome, Pairs, WrongCount, Limit, NotKnown, Accepted, InfoLines, Says;
    hide AsI64, WhyNot, EffectiveTtl, Settings, Upper, Objection;
    match verb
    case GET =>
      if |args| == 1 {
        GetReads(m, args[0], clock(0));
      }
    case SET =>
      if |args| >= 2 {
        SetReads(n, m, args[0], args[1], EffectiveTtl(Settings(args, 2)), clock(0));
      }
    case DEL => DelReads(m, args);
    case EXISTS => ExistsReads(m, args, clock);
    case MGET => MgetReads(m, args, clock, ratio);
    case MSET =>
      if args != [] && |args| % 2 == 0 {
        MsetReads(n, m, args, clock, ratio);
      }
    case INCR =>
      if |args| == 1 {
        BumpReads(INCR, n, m, args, clock, ratio);
      }
    case DECR =>
      if |args| == 1 {
        BumpReads(DECR, n, m, args, clock, ratio);
      }
    case _ =>
  }

  // ---- the conversation ----

  /** The word names the command, or none at all. */
  predicate Calls(w: Bytes, verb: Verb) {
    if verb == OTHER then forall v | v != OTHER :: !Means(w, v) else Means(w, verb)
  }

  lemma CallsIff(w: Bytes, verb: Verb)
    ensures VerbOf(Upper(w)) == verb <==> Calls(w, verb)
  {
    if verb == OTHER {
      forall v | v != OTHER ensures VerbOf(Upper(w)) == v <==> Means(w, v) {
        VerbIff(w, v);
      }
      var v := VerbOf(Upper(w));
      assert v != OTHER ==> Means(w, v);
    } else {
      VerbIff(w, verb);
    }
    hide VerbOf, Means, Upper;
  }

  /** The keys among the arguments are in use. */
  ghost predicate ArgsUse(verb: Verb, args: seq<Bytes>, ks: set<Bytes>) {
    match verb
    case GET => args != [] ==> Uses(args[0], ks)
    case SET => args != [] ==> Uses(args[0], ks)
    case INCR => args != [] ==> Uses(args[0], ks)
    case DECR => args != [] ==> Uses(args[0], ks)
    case DEL => UsesAll(args, ks)
    case EXISTS => UsesAll(args, ks)
    case MGET => UsesAll(args, ks)
    case MSET => forall i | 0 <= i < |args| && i % 2 == 0 :: Uses(args[i], ks)
    case _ => true
  }

  lemma ArgsUseKeys(verb: Verb, args: seq<Bytes>, ks: set<Bytes>)
    requires ArgsUse(verb, args, ks)
    ensures CommandUses(verb, args, ks)
  {
    if verb == MSET && |args| % 2 == 0 {
      PairsAt(args);
      var pairs := Pairs(args);
      forall i | 0 <= i < |pairs| ensures Uses(pairs[i].0, ks) {
        assert args[2 * i] == pairs[i].0;
      }
    }
  }

  /** The dispatcher on a request in words. */
  lemma RespondsTo(h: Hash, s: Store, ks: set<Bytes>, ws: seq<Bytes>, verb: Verb, clock: Clock)
    requires Good(h, s, ks) && ws != [] && Utf8.Valid(ws[0]) && Calls(ws[0], verb) && ArgsUse(verb, ws[1..], ks)
    ensures |s.cells| > 0
    ensures var (r, s') := Respond(h, s, Array(Bulks(ws)), clock);
            var (r', m') := MapExecute(|s.cells|, Contents(s.cells), s.used, verb, Upper(ws[0]), ws[1..], clock);
            r == r' && Good(h, s', ks) && |s'.cells| == |s.cells| && Contents(s'.cells) == m'
  {
    var v := Array(Bulks(ws));
    WordsAreCommand(ws);
    CallsIff(ws[0], verb);
    ArgsUseKeys(verb, ws[1..], ks);
    hide ExtractCommand, VerbOf, Calls, ArgsUse, CommandUses, Respond, MapExecute, Contents, Upper, Bulks;
    RespondMirrors(h, s, ks, v, clock);
    GoodIsNonEmpty(h, s, ks);
  }

  lemma EchoIsSafe(ws: seq<Bytes>, verb: Verb)
    requires ws != [] && Utf8.Valid(ws[0]) && Calls(ws[0], verb) && (verb == OTHER ==> NoCrlf(ws[0]))
    ensures EchoSafe(Array(Bulks(ws)))
  {
    WordsAreCommand(ws);
    CallsIff(ws[0], verb);
    hide VerbOf, Calls, Upper, NoCrlf;
  }

  lemma RequestIsRepresentable(ws: seq<Bytes>)
    requires Sized(ws)
    ensures Representable(Array(Bulks(ws)))
  {
    WordsAreSendable(ws);
  }

  lemma SafeReply(h: Hash, ratio: Ratio, s: Store, v: RespValue, clock: Clock)
    requires 0 < |s.cells| < TWO64 && SmallValues(s.cells) && Representable(v) && EchoSafe(v)
    ensures var w := Render(ratio, Respond(h, s, v, clock).0);
            Parse(Encode(w)) == Parsed(w, |Encode(w)|)
  {
    hide Respond, Render, Parse, Encode, Representable, Unknown, SmallValues, NoCrlf, LineSafe;
    ReplyRoundTripsIff(h, ratio, s, v, clock);
  }

  /**
   * A request in words, cut into reads in any way: the client reads exactly one value, the one the
   * map gives, and the store goes on showing the map. (A name that is no command and contains a
   * CRLF is excepted, as its echo cannot be read back: `ReplyProofs.ReplyRoundTripsIff`.)
   */
  lemma {:induction false} ClientReads(server: Server, s: Store, ks: set<Bytes>, k: nat, ws: seq<Bytes>, verb: Verb,
                                       arrivals: seq<Bytes>) returns (w: RespValue)
    requires Good(server.hash, s, ks) && |s.cells| < TWO64 && SmallValues(s.cells)
    requires ws != [] && Sized(ws) && Utf8.Valid(ws[0]) && Calls(ws[0], verb) && (verb == OTHER ==> NoCrlf(ws[0]))
    requires ArgsUse(verb, ws[1..], ks) && Stream(arrivals) == RequestBytes(ws)
    ensures |s.cells| > 0
    ensures var x := Converse(server, s, k, arrivals);
            var n, m := |s.cells|, Contents(s.cells);
            && Parse(x.sent) == Parsed(w, |x.sent|)
            && Reads(verb, n, m, s.used, server.ratio, ws[0], ws[1..], server.clock(k), w)
            && Good(server.hash, x.store, ks) && SmallValues(x.store.cells) && |x.store.cells| == n && x.served == k + 1
            && Contents(x.store.cells) == MapExecute(n, m, s.used, verb, Upper(ws[0]), ws[1..], server.clock(k)).1
  {
    hide *;
    var v, clock := Array(Bulks(ws)), server.clock(k);
    RespondsTo(server.hash, s, ks, ws, verb, clock);
    var n, m := |s.cells|, Contents(s.cells);
    var r := Respond(server.hash, s, v, clock).0;
    w := Render(server.ratio, r);
    OneRequest(server, s, k, ws, arrivals);
    ExecuteReads(verb, n, m, s.used, server.ratio, ws[0], ws[1..], clock);
    RequestIsRepresentable(ws);
    EchoIsSafe(ws, verb);
    SafeReply(server.hash, server.ratio, s, v, clock);
    RespondSmall(server.hash, s, v, clock);
  }
}

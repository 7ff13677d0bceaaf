/** Conversations in literal bytes: SET and then GET, with and without a time to live; MSET and then GET; errors. */
module Conversations {
  import opened Bytes
  import opened Decimal
  import opened Table
  import opened Resp
  import opened RespProofs
  import opened ClientModel
  import opened Refinement
  import opened Replies
  import opened ReplyProofs
  import opened Dispatch
  import opened Commands
  import opened CommandRuns
  import opened Connection
  import opened Service
  import opened Wire
  import opened Options
  import opened Talk
  import opened Texts
  import opened Counters
  import C = ClientModel
  import Utf8

  // ---- SET and then GET ----

  /** "SET", key, value, options, at most one word left over. */
  function SetWords(put: Bytes, key: Bytes, value: Bytes, opts: seq<Opt>, tail: seq<Bytes>): seq<Bytes> {
    [put, key, value] + (Flatten(opts) + tail)
  }

  /** When an entry written at `now` with this many seconds to live expires; 0 is never. */
  function Deadline(ttl: u64, now: u64): u64 {
    if ttl == 0 then 0 else (now + 1000 * ttl) % 0x1_0000_0000_0000_0000
  }

  /** The value is alive at `t`: it has no deadline, or the deadline lies ahead. */
  predicate Before(t: u64, deadline: u64) { deadline == 0 || t < deadline }

  lemma RespondIsExecute(h: Hash, s: Store, ws: seq<Bytes>, verb: Verb, clock: Clock)
    requires |s.cells| > 0 && ws != [] && Utf8.Valid(ws[0]) && Calls(ws[0], verb)
    ensures Respond(h, s, Array(Bulks(ws)), clock) == Execute(h, s, verb, Upper(ws[0]), ws[1..], clock)
  {
    WordsAreCommand(ws);
    CallsIff(ws[0], verb);
    hide ExtractCommand, VerbOf, Upper, Execute, Bulks, Calls;
  }

  lemma OneWord(w: Bytes, verb: Verb)
    requires verb != OTHER && IsWord(w, Names(verb)[0])
    ensures Calls(w, verb)
  {
    hide IsWord;
  }

  lemma SetExecutes(h: Hash, s: Store, name: Bytes, args: seq<Bytes>, clock: Clock)
    requires |s.cells| > 0
    ensures Execute(h, s, SET, name, args, clock) == SetCommand(h, s, args, clock(0))
  {
    hide SetCommand;
  }

  lemma SetIsSetCommand(h: Hash, s: Store, put: Bytes, key: Bytes, value: Bytes, opts: seq<Opt>, tail: seq<Bytes>,
                        clock: Clock)
    requires |s.cells| > 0 && IsWord(put, "SET") && Utf8.Valid(put)
    ensures Respond(h, s, Array(Bulks(SetWords(put, key, value, opts, tail))), clock)
            == SetCommand(h, s, [key, value] + Flatten(opts) + tail, clock(0))
  {
    var ws := SetWords(put, key, value, opts, tail);
    assert ws[1..] == [key, value] + Flatten(opts) + tail;
    OneWord(put, SET);
    hide *;
    RespondIsExecute(h, s, ws, SET, clock);
    SetExecutes(h, s, Upper(put), ws[1..], clock);
  }

  lemma GetExecutes(h: Hash, s: Store, name: Bytes, key: Bytes, clock: Clock)
    requires |s.cells| > 0
    ensures var (r, s') := Execute(h, s, GET, name, [key], clock);
            var a := C.Get(h, s, key, clock(0)).0;
            a.Ok? ==> r == if a.value.Some? then BulkReply(a.value.value) else NilReply
  {
    hide C.Get;
  }

  lemma GetIsGet(h: Hash, s: Store, get: Bytes, key: Bytes, clock: Clock)
    requires |s.cells| > 0 && IsWord(get, "GET") && Utf8.Valid(get)
    ensures var (r, s') := Respond(h, s, Array(Bulks([get, key])), clock);
            var a := C.Get(h, s, key, clock(0)).0;
            a.Ok? ==> r == if a.value.Some? then BulkReply(a.value.value) else NilReply
  {
    assert [get, key][1..] == [key];
    OneWord(get, GET);
    hide *;
    RespondIsExecute(h, s, [get, key], GET, clock);
    GetExecutes(h, s, Upper(get), key, clock);
  }

  lemma {:induction false} WordIsText(w: Bytes, name: string)
    requires IsWord(w, name) && Letters(name)
    ensures Utf8.Valid(w)
  {
    Utf8.AsciiIsValid(w);
  }

  /** A bulk string or nil reads back. */
  lemma ValueReads(ratio: Ratio, v: Option<Bytes>)
    requires v.Some? ==> IsI64(|v.value|)
    ensures var w := BulkOrNil(v);
            var out := Encode(Render(ratio, if v.Some? then BulkReply(v.value) else NilReply));
            Parse(out) == Parsed(w, |out|)
  {
    var w := BulkOrNil(v);
    RenderSays(ratio, if v.Some? then BulkReply(v.value) else NilReply);
    hide Render, Parse, Encode;
    RoundTrip(w, []);
    assert Encode(w) + [] == Encode(w);
  }

  lemma SetWordsFit(put: Bytes, key: Bytes, value: Bytes, opts: seq<Opt>, tail: seq<Bytes>, get: Bytes)
    requires IsWord(put, "SET") && IsWord(get, "GET") && Sized(SetWords(put, key, value, opts, tail))
    ensures Utf8.Valid(put) && Utf8.Valid(get) && Sized([get, key]) && IsI64(|value|)
    ensures var args := [key, value] + Flatten(opts) + tail;
            |args| >= 2 && args[0] == key && args[1] == value
  {
    var ws := SetWords(put, key, value, opts, tail);
    WordIsText(put, "SET");
    WordIsText(get, "GET");
    assert ws[1] == key && ws[2] == value;
  }

  lemma BulkOrNilIs(v: Option<Bytes>)
    ensures BulkOrNil(v) == if v.Some? then BulkString(v.value) else Nil
  {
  }

  lemma DeadlineIs(ttl: u64, now: u64, t: u64)
    ensures IsExpired(TtlToExpiry(ttl, now), t) <==> !Before(t, Deadline(ttl, now))
  {
  }

  lemma SetIsTaken(h: Hash, s: Store, ks: set<Bytes>, args: seq<Bytes>, now: u64)
    requires Good(h, s, ks) && |s.cells| > 0 && |args| >= 2 && args[0] in ks
    requires Takes(|s.cells|, Contents(s.cells), args[0], args[1])
    ensures SetCommand(h, s, args, now).0 == OkReply
  {
    var ttl := EffectiveTtl(Settings(args, 2));
    hide EffectiveTtl, Settings, C.Set, Contents, Good, MapSet, Takes;
    SetRefines(h, s, ks, args[0], args[1], ttl, now);
    SetReads(|s.cells|, Contents(s.cells), args[0], args[1], ttl, now);
  }

  lemma OkReads(ratio: Ratio)
    ensures var out := Encode(Render(ratio, OkReply)); Parse(out) == Parsed(SimpleString([79, 75]), |out|)
  {
    RenderSays(ratio, OkReply);
    var w := SimpleString([79, 75]);
    Utf8.AsciiIsValid([79, 75]);
    assert Sendable(w);
    hide Render, Parse, Encode;
    RoundTrip(w, []);
    assert Encode(w) + [] == Encode(w);
  }

  /**
   * After an accepted "SET" with any options, and any calls that leave the key alone, a "GET" of
   * the key at reading `t` reads the value if `t` is before the deadline the options set, and nil
   * otherwise; on any connections to the same store, however the bytes are cut into reads.
   */
  lemma {:induction false} SetThenGetTalk(server: Server, s: Store, ks: set<Bytes>, k: nat, first: seq<Bytes>,
                                          put: Bytes, key: Bytes, value: Bytes, opts: seq<Opt>, tail: seq<Bytes>,
                                          calls: seq<Call>, server': Server, k': nat, second: seq<Bytes>, get: Bytes)
    requires Good(server.hash, s, ks) && key in ks && server'.hash == server.hash
    requires IsWord(put, "SET") && IsWord(get, "GET") && AllSpelled(opts) && |tail| <= 1
    requires Sized(SetWords(put, key, value, opts, tail))
    requires Stream(first) == RequestBytes(SetWords(put, key, value, opts, tail))
    requires Stream(second) == RequestBytes([get, key])
    requires Takes(|s.cells|, Contents(s.cells), key, value)
    requires RunUses(calls, ks)
    requires forall i | 0 <= i < |calls| :: LeavesAlone(calls[i], key) && calls[i].now <= server'.clock(k')(0)
    ensures |s.cells| > 0
    ensures var x := Converse(server, s, k, first);
            var s' := Run(server.hash, x.store, calls).1;
            var y := Converse(server', s', k', second);
            var deadline := Deadline(TtlOf(opts), server.clock(k)(0));
            var w := if Before(server'.clock(k')(0), deadline) then BulkString(value) else Nil;
            Parse(x.sent) == Parsed(SimpleString([79, 75]), |x.sent|) && Parse(y.sent) == Parsed(w, |y.sent|)
  {
    hide *;
    var h, args := server.hash, [key, value] + Flatten(opts) + tail;
    var now, t := server.clock(k)(0), server'.clock(k')(0);
    GoodIsNonEmpty(h, s, ks);
    SetWordsFit(put, key, value, opts, tail, get);
    OptionsMean(key, value, opts, tail);
    DeadlineIs(TtlOf(opts), now, t);
    SetIsSetCommand(h, s, put, key, value, opts, tail, server.clock(k));
    OneRequest(server, s, k, SetWords(put, key, value, opts, tail), first);
    SetIsTaken(h, s, ks, args, now);
    OkReads(server.ratio);
    SetThenGet(h, s, ks, args, now, calls, t);
    var s' := Run(h, SetCommand(h, s, args, now).1, calls).1;
    GetIsGet(h, s', get, key, server'.clock(k'));
    OneRequest(server', s', k', [get, key], second);
    var left := if IsExpired(TtlToExpiry(TtlOf(opts), now), t) then None else Some(value);
    ValueReads(server'.ratio, left);
    BulkOrNilIs(left);
  }

  // ---- EX and PX ----

  lemma PrintedAmount(n: u64)
    ensures Amount(PrintNat(n)) == n
  {
    ParsePrintU64(n);
    ArgumentIsAmount(PrintNat(n));
  }

  lemma {:induction false} SingleOption(o: Opt)
    ensures Flatten([o]) == Words(o)
    ensures TtlOf([o]) == if o.WithEx? then Amount(o.amount)
                          else if o.WithPx? then (Amount(o.amount) + 999) % 0x1_0000_0000_0000_0000 / 1000 else 0
  {
    hide Amount;
    assert [o][1..] == [] && [o][..0] == [];
    assert Flatten([]) == [] && Words(o) + [] == Words(o);
    assert TtlOf([]) == 0;
  }

  /** "SET" key value "EX" n, when nothing overflows: alive throughout [now, now + 1000 n), and for ever if n is 0. */
  lemma {:induction false} ExDeadline(ex: Bytes, n: u64, now: u64, t: u64)
    requires IsWord(ex, "EX") && now + 1000 * n < TWO64
    ensures AllSpelled([WithEx(ex, PrintNat(n))]) && Flatten([WithEx(ex, PrintNat(n))]) == [ex, PrintNat(n)]
    ensures Before(t, Deadline(TtlOf([WithEx(ex, PrintNat(n))]), now)) <==> n == 0 || t < now + 1000 * n
  {
    SingleOption(WithEx(ex, PrintNat(n)));
    PrintedAmount(n);
    hide PrintNat, Amount, TtlOf, Flatten, IsWord;
  }

  /** "SET" key value "PX" p, when nothing overflows: alive until the next whole second after p milliseconds. */
  lemma {:induction false} PxDeadline(px: Bytes, p: u64, now: u64, t: u64)
    requires IsWord(px, "PX") && p + 999 < TWO64 && now + 1000 * ((p + 999) / 1000) < TWO64
    ensures AllSpelled([WithPx(px, PrintNat(p))]) && Flatten([WithPx(px, PrintNat(p))]) == [px, PrintNat(p)]
    ensures Before(t, Deadline(TtlOf([WithPx(px, PrintNat(p))]), now)) <==>
            p == 0 || t < now + 1000 * ((p + 999) / 1000)
  {
    SingleOption(WithPx(px, PrintNat(p)));
    PrintedAmount(p);
    hide PrintNat, Amount, TtlOf, Flatten, IsWord;
  }

  /**
   * "SET" key value "EX" n and then "GET": the value while t < now + 1000 n, nil from then on; with
   * n = 0 the value at every t.
   */
  lemma {:induction false} ExThenGet(server: Server, s: Store, ks: set<Bytes>, k: nat, first: seq<Bytes>, put: Bytes,
                                      key: Bytes, value: Bytes, ex: Bytes, n: u64, calls: seq<Call>,
                                      server': Server, k': nat, second: seq<Bytes>, get: Bytes)
    requires Good(server.hash, s, ks) && key in ks && server'.hash == server.hash
    requires IsWord(put, "SET") && IsWord(get, "GET") && IsWord(ex, "EX") && Sized([put, key, value, ex, PrintNat(n)])
    requires Stream(first) == RequestBytes([put, key, value, ex, PrintNat(n)])
    requires Stream(second) == RequestBytes([get, key])
    requires Takes(|s.cells|, Contents(s.cells), key, value) && server.clock(k)(0) + 1000 * n < TWO64
    requires RunUses(calls, ks)
    requires forall i | 0 <= i < |calls| :: LeavesAlone(calls[i], key) && calls[i].now <= server'.clock(k')(0)
    ensures |s.cells| > 0
    ensures var x := Converse(server, s, k, first);
            var y := Converse(server', Run(server.hash, x.store, calls).1, k', second);
            var w := if n == 0 || server'.clock(k')(0) < server.clock(k)(0) + 1000 * n then BulkString(value) else Nil;
            Parse(x.sent) == Parsed(SimpleString([79, 75]), |x.sent|) && Parse(y.sent) == Parsed(w, |y.sent|)
  {
    var opts, ws := [WithEx(ex, PrintNat(n))], [put, key, value, ex, PrintNat(n)];
    ExDeadline(ex, n, server.clock(k)(0), server'.clock(k')(0));
    assert SetWords(put, key, value, opts, []) == ws;
    hide *;
    SetThenGetTalk(server, s, ks, k, first, put, key, value, opts, [], calls, server', k', second, get);
  }

  /** "SET" key value "PX" p and then "GET": the value until the next whole second after p milliseconds. */
  lemma {:induction false} PxThenGet(server: Server, s: Store, ks: set<Bytes>, k: nat, first: seq<Bytes>, put: Bytes,
                                  key: Bytes, value: Bytes, px: Bytes, p: u64, calls: seq<Call>,
                                  server': Server, k': nat, second: seq<Bytes>, get: Bytes)
    requires Good(server.hash, s, ks) && key in ks && server'.hash == server.hash
    requires IsWord(put, "SET") && IsWord(get, "GET") && IsWord(px, "PX") && Sized([put, key, value, px, PrintNat(p)])
    requires Stream(first) == RequestBytes([put, key, value, px, PrintNat(p)])
    requires Stream(second) == RequestBytes([get, key])
    requires Takes(|s.cells|, Contents(s.cells), key, value)
    requires p + 999 < TWO64 && server.clock(k)(0) + 1000 * ((p + 999) / 1000) < TWO64
    requires RunUses(calls, ks)
    requires forall i | 0 <= i < |calls| :: LeavesAlone(calls[i], key) && calls[i].now <= server'.clock(k')(0)
    ensures |s.cells| > 0
    ensures var x := Converse(server, s, k, first);
            var y := Converse(server', Run(server.hash, x.store, calls).1, k', second);
            var alive := p == 0 || server'.clock(k')(0) < server.clock(k)(0) + 1000 * ((p + 999) / 1000);
            var w := if alive then BulkString(value) else Nil;
            Parse(x.sent) == Parsed(SimpleString([79, 75]), |x.sent|) && Parse(y.sent) == Parsed(w, |y.sent|)
  {
    var opts, ws := [WithPx(px, PrintNat(p))], [put, key, value, px, PrintNat(p)];
    PxDeadline(px, p, server.clock(k)(0), server'.clock(k')(0));
    assert SetWords(put, key, value, opts, []) == ws;
    hide *;
    SetThenGetTalk(server, s, ks, k, first, put, key, value, opts, [], calls, server', k', second, get);
  }

  // ---- MSET and then GET ----

  lemma {:induction false} PutAllKeeps(m: Dict, pairs: seq<(Bytes, Bytes)>, clock: Clock, k: nat, key: Bytes)
    requires forall j | 0 <= j < |pairs| :: pairs[j].0 != key
    ensures key in m ==> key in PutAll(m, pairs, 0, clock, k) && PutAll(m, pairs, 0, clock, k)[key] == m[key]
    decreases pairs
  {
    if pairs != [] {
      PutAllKeeps(m[pairs[0].0 := Entry(pairs[0].1, TtlToExpiry(0, clock(k)))], pairs[1..], clock, k + 1, key);
    }
  }

  /** The last pair with the key is what stays, without expiry. */
  lemma {:induction false} PutAllLast(m: Dict, pairs: seq<(Bytes, Bytes)>, clock: Clock, k: nat, i: nat)
    requires i < |pairs| && forall j | i < j < |pairs| :: pairs[j].0 != pairs[i].0
    ensures var m' := PutAll(m, pairs, 0, clock, k);
            pairs[i].0 in m' && m'[pairs[i].0] == Entry(pairs[i].1, 0)
    decreases pairs
  {
    var m1 := m[pairs[0].0 := Entry(pairs[0].1, TtlToExpiry(0, clock(k)))];
    if i == 0 {
      PutAllKeeps(m1, pairs[1..], clock, k + 1, pairs[0].0);
    } else {
      assert pairs[1..][i - 1] == pairs[i];
      PutAllLast(m1, pairs[1..], clock, k + 1, i - 1);
    }
  }

  /** What the map holds after an accepted MSET. */
  lemma MsetHolds(n: nat, m: Dict, used: u64, name: Bytes, args: seq<Bytes>, clock: Clock, i: nat)
    requires args != [] && |args| % 2 == 0 && TakesAll(n, m, args)
    requires 2 * i < |args| && forall j: nat | i < j && 2 * j < |args| :: args[2 * j] != args[2 * i]
    ensures var m' := MapExecute(n, m, used, MSET, name, args, clock).1;
            args[2 * i] in m' && m'[args[2 * i]] == Entry(args[2 * i + 1], 0)
  {
    var pairs := Pairs(args);
    PairsAt(args);
    WrittenIff(n, m, args, clock, 0);
    assert pairs[..|pairs|] == pairs;
    forall j | i < j < |pairs| ensures pairs[j].0 != pairs[i].0 {
      assert pairs[j].0 == args[2 * j];
    }
    PutAllLast(m, pairs, clock, 0, i);
    hide Written, PutAll, TakesAll, Pairs;
  }

  predicate PairIs(args: seq<Bytes>, i: nat, key: Bytes, value: Bytes) {
    2 * i + 1 < |args| && args[2 * i] == key && args[2 * i + 1] == value
  }

  /** The last pair of the list with this key carries this value. */
  ghost predicate LastPair(args: seq<Bytes>, key: Bytes, value: Bytes) {
    exists i: nat :: PairIs(args, i, key, value) && forall j: nat | i < j && 2 * j < |args| :: args[2 * j] != key
  }

  lemma MsetWords(mset: Bytes, args: seq<Bytes>, get: Bytes, key: Bytes, value: Bytes, ks: set<Bytes>)
    requires IsWord(mset, "MSET") && IsWord(get, "GET") && Sized([mset] + args) && LastPair(args, key, value)
    requires forall j | 0 <= j < |args| && j % 2 == 0 :: args[j] in ks
    ensures ([mset] + args)[0] == mset && ([mset] + args)[1..] == args && [get, key][1..] == [key]
    ensures Utf8.Valid(mset) && Utf8.Valid(get) && Calls(mset, MSET) && Calls(get, GET)
    ensures ArgsUse(MSET, args, ks) && ArgsUse(GET, [key], ks) && Sized([get, key])
  {
    var ws := [mset] + args;
    OneWord(mset, MSET);
    OneWord(get, GET);
    WordIsText(mset, "MSET");
    WordIsText(get, "GET");
    var i: nat :| PairIs(args, i, key, value);
    assert ws[2 * i + 1] == key;
    assert args[2 * i] in ks;
    hide Calls;
  }

  /** What the map holds after an accepted MSET, and how it was answered. */
  lemma MsetLeaves(n: nat, m: Dict, used: u64, ratio: Ratio, name: Bytes, args: seq<Bytes>, clock: Clock,
                   key: Bytes, value: Bytes, w: RespValue)
    requires args != [] && |args| % 2 == 0 && TakesAll(n, m, args) && LastPair(args, key, value)
    requires Reads(MSET, n, m, used, ratio, name, args, clock, w)
    ensures w == SimpleString([79, 75])
    ensures var m' := MapExecute(n, m, used, MSET, Upper(name), args, clock).1;
            |key| <= 128 && key in m' && m'[key] == Entry(value, 0)
  {
    var i: nat :| PairIs(args, i, key, value) && forall j: nat | i < j && 2 * j < |args| :: args[2 * j] != key;
    assert TakesPair(n, m, args, i);
    MsetHolds(n, m, used, Upper(name), args, clock, i);
    hide MapExecute, TakesAll;
  }

  lemma GetIsRead(n: nat, m: Dict, used: u64, ratio: Ratio, word: Bytes, key: Bytes, value: Bytes, clock: Clock,
                  w: RespValue)
    requires |key| <= 128 && key in m && m[key] == Entry(value, 0)
    requires Reads(GET, n, m, used, ratio, word, [key], clock, w)
    ensures w == BulkString(value)
  {
  }

  /**
   * After an accepted "MSET", a "GET" of one of its keys reads the value of the last pair with that
   * key, at any reading.
   */
  lemma {:induction false} MsetThenGet(server: Server, s: Store, ks: set<Bytes>, k: nat, first: seq<Bytes>, mset: Bytes,
                                       args: seq<Bytes>, key: Bytes, value: Bytes,
                                       server': Server, k': nat, second: seq<Bytes>, get: Bytes)
    requires Good(server.hash, s, ks) && server'.hash == server.hash && |s.cells| < TWO64 && SmallValues(s.cells)
    requires IsWord(mset, "MSET") && IsWord(get, "GET") && Sized([mset] + args)
    requires args != [] && |args| % 2 == 0 && LastPair(args, key, value)
    requires forall j | 0 <= j < |args| && j % 2 == 0 :: args[j] in ks
    requires TakesAll(|s.cells|, Contents(s.cells), args)
    requires Stream(first) == RequestBytes([mset] + args) && Stream(second) == RequestBytes([get, key])
    ensures |s.cells| > 0
    ensures var x := Converse(server, s, k, first);
            var y := Converse(server', x.store, k', second);
            && Parse(x.sent) == Parsed(SimpleString([79, 75]), |x.sent|)
            && Parse(y.sent) == Parsed(BulkString(value), |y.sent|)
  {
    hide *;
    var n, m := |s.cells|, Contents(s.cells);
    MsetWords(mset, args, get, key, value, ks);
    var w := ClientReads(server, s, ks, k, [mset] + args, MSET, first);
    var x := Converse(server, s, k, first);
    MsetLeaves(n, m, s.used, server.ratio, mset, args, server.clock(k), key, value, w);
    var w' := ClientReads(server', x.store, ks, k', [get, key], GET, second);
    GetIsRead(n, Contents(x.store.cells), x.store.used, server'.ratio, get, key, value, server'.clock(k'), w');
  }

  // ---- errors ----

  lemma UntilRejectIs(server: Server, s: Store, arrivals: seq<Bytes>)
    requires |s.cells| > 0
    ensures UntilReject(server, Session(s, 0, []), arrivals)
            == HandleAll(server, Session(s, 0, []), UpToReject(Serve([], arrivals).events))
  {
    hide HandleAll, UpToReject, Serve;
  }

  lemma FirstIsReject(arrivals: seq<Bytes>, e: RespError)
    requires Parse(Stream(arrivals)) == Fail(e)
    ensures UpToReject(Serve([], arrivals).events) == [Reject(e)]
  {
    hide *;
    NothingNeedsMore();
    assert [] + Stream(arrivals) == Stream(arrivals);
    ServeIsDrain([], arrivals);
    DrainStep(Stream(arrivals));
  }

  lemma RejectSends(server: Server, s: Store, e: RespError)
    requires |s.cells| > 0
    ensures var x := HandleAll(server, Session(s, 0, []), [Reject(e)]);
            x == Session(s, 0, Encode(Failure(ProtocolErrorText(e))))
  {
    hide Handle, HandleAll, Failure, Encode, ProtocolErrorText;
    var x := Session(s, 0, []);
    HandleFirst(server, x, Reject(e), []);
    assert [Reject(e)] + [] == [Reject(e)];
    HandleReject(server, x, e);
    HandleNothing(server, Handle(server, x, Reject(e)));
    assert [] + Encode(Failure(ProtocolErrorText(e))) == Encode(Failure(ProtocolErrorText(e)));
  }

  /**
   * A stream that starts with a protocol error, however it is cut: the client reads one error that
   * names it and quotes the offending line or byte, and the store has not been touched.
   */
  lemma {:induction false} ProtocolErrorIsRead(server: Server, s: Store, arrivals: seq<Bytes>) returns (message: Bytes)
    requires |s.cells| > 0 && Parse(Stream(arrivals)).Fail?
    ensures var e := Parse(Stream(arrivals)).error;
            var x := UntilReject(server, Session(s, 0, []), arrivals);
            && x.store == s && Parse(x.sent) == Parsed(Error(message), |x.sent|)
            && Says(message, "ERR Protocol error: " + Complaint(e), Quotation(e), "")
  {
    var b := Stream(arrivals);
    var e := Parse(b).error;
    var w := Failure(ProtocolErrorText(e));
    message := w.message;
    hide *;
    ReportSays(e);
    ErrorReportRoundTrips(b, []);
    FirstIsReject(arrivals, e);
    RejectSends(server, s, e);
    assert Encode(w) + [] == Encode(w);
    UntilRejectIs(server, s, arrivals);
  }

  lemma BadCommandIs(h: Hash, ratio: Ratio, s: Store, v: RespValue, clock: Clock)
    requires |s.cells| > 0 && ExtractCommand(v).BadCommand?
    ensures var why := ExtractCommand(v).why;
            Respond(h, s, v, clock) == (BadReply(why), s)
            && Render(ratio, BadReply(why)) == Failure(CommandErrorText(why)) && Failure(CommandErrorText(why)).Error?
  {
    hide CommandErrorText, ExtractCommand;
  }

  /** A value that is no command: the client reads one error with the reason, the store is untouched. */
  lemma {:induction false} NoCommandIsRead(server: Server, s: Store, k: nat, v: RespValue, arrivals: seq<Bytes>)
    returns (message: Bytes)
    requires |s.cells| > 0 && Sendable(v) && Stream(arrivals) == Encode(v) && ExtractCommand(v).BadCommand?
    ensures var x := Converse(server, s, k, arrivals);
            && x.store == s && Parse(x.sent) == Parsed(Error(message), |x.sent|)
            && Says(message, "ERR " + Objection(ExtractCommand(v).why), [], "")
  {
    hide *;
    var why := ExtractCommand(v).why;
    var w := Failure(CommandErrorText(why));
    BadCommandIs(server.hash, server.ratio, s, v, server.clock(k));
    message := w.message;
    ObjectionSays(why);
    OneReply(server, s, k, v, arrivals);
    PlainIsHarmless(CommandErrorText(why));
    FailureIsLine(CommandErrorText(why));
    RoundTrip(w, []);
    assert Encode(w) + [] == Encode(w);
  }
}

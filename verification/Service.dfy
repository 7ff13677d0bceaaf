/**
 * From bytes received to bytes sent: what a whole connection does to the store and what it writes,
 * however the requests are cut into reads.
 */
module Service {
  import opened Bytes
  import opened Table
  import opened Resp
  import opened RespProofs
  import opened ClientModel
  import opened Refinement
  import opened Replies
  import opened ReplyProofs
  import opened Dispatch
  import opened CommandRuns
  import opened Connection
  import C = ClientModel

  // ---- chunking and the bytes written ----

  lemma SentByOne(server: Server, x: Session, e: Event)
    requires |x.store.cells| > 0
    ensures x.sent <= Handle(server, x, e).sent
  {
    hide Respond, Render, Encode;
  }

  lemma {:induction false} SentGrows(server: Server, x: Session, events: seq<Event>)
    requires |x.store.cells| > 0
    ensures x.sent <= HandleAll(server, x, events).sent
    decreases events
  {
    if events != [] {
      SentByOne(server, x, events[0]);
      hide Handle;
      SentGrows(server, Handle(server, x, events[0]), events[1..]);
    }
  }

  lemma {:induction false} UpToRejectIsPrefix(events: seq<Event>)
    ensures UpToReject(events) <= events
  {
    if events != [] {
      UpToRejectIsPrefix(events[1..]);
    }
  }

  /** The session after the first protocol error has been reported, or after everything. */
  function UntilReject(server: Server, x: Session, arrivals: seq<Bytes>): Session
    requires |x.store.cells| > 0
  {
    HandleAll(server, x, UpToReject(Serve([], arrivals).events))
  }

  /**
   * Two ways of cutting the same bytes lead to the same store and the same bytes written up to and
   * including the report of the first protocol error; what is written later comes after that.
   */
  lemma {:induction false} OutputIgnoresChunking(server: Server, x: Session, a: seq<Bytes>, a': seq<Bytes>)
    requires |x.store.cells| > 0 && Stream(a) == Stream(a')
    ensures UntilReject(server, x, a) == UntilReject(server, x, a')
    ensures UntilReject(server, x, a).sent <= HandleAll(server, x, Serve([], a).events).sent
  {
    hide HandleAll, Serve, UpToReject, Stream;
    ChunkingIndependence(a, a');
    var events := Serve([], a).events;
    var first := UpToReject(events);
    UpToRejectIsPrefix(events);
    assert events == first + events[|first|..];
    HandleAppend(server, x, first, events[|first|..]);
    SentGrows(server, HandleAll(server, x, first), events[|first|..]);
  }

  // ---- stored values stay small ----

  lemma SetSmall(h: Hash, s: Store, key: Bytes, value: Bytes, ttl: u64, now: u64)
    requires |s.cells| > 0 && SmallValues(s.cells)
    ensures SmallValues(C.Set(h, s, key, value, ttl, now).1.cells)
  {
    hide SetScan;
    TableProofs.SetScanEvicts(s.cells, h(key), key, Home(h, key, |s.cells|), 0, None, 0, now);
  }

  lemma {:induction false} DelFromSmall(c: seq<Cell>, fp: u64, key: Bytes, start: nat, d: nat)
    requires start < |c| && d <= |c|
    ensures OnlyBuried(c, DelFrom(c, fp, key, start, d).1)
    decreases |c| - d
  {
    if d < |c| {
      DelFromSmall(c, fp, key, start, d + 1);
    }
  }

  lemma StepSmall(h: Hash, s: Store, call: Call)
    requires |s.cells| > 0 && SmallValues(s.cells)
    ensures SmallValues(Step(h, s, call).1.cells)
  {
    match call.op
    case OpGet(k) => GetSmall(h, s, k, call.now);
    case OpExists(k) => GetSmall(h, s, k, call.now);
    case OpSet(k, v, ttl) => SetSmall(h, s, k, v, ttl, call.now);
    case OpDel(k) => DelFromSmall(s.cells, h(k), k, Home(h, k, |s.cells|), 0);
    case OpFlush =>
  }

  lemma {:induction false} RunSmall(h: Hash, s: Store, calls: seq<Call>)
    requires |s.cells| > 0 && SmallValues(s.cells)
    ensures SmallValues(Run(h, s, calls).1.cells)
    decreases calls
  {
    if calls != [] {
      hide Step, SmallValues;
      StepSmall(h, s, calls[0]);
      RunSmall(h, Step(h, s, calls[0]).1, calls[1..]);
    }
  }

  lemma RespondSmall(h: Hash, s: Store, v: RespValue, clock: Clock)
    requires |s.cells| > 0 && SmallValues(s.cells)
    ensures SmallValues(Respond(h, s, v, clock).1.cells)
  {
    var e := ExtractCommand(v);
    hide SmallValues, Execute, CallsOf, VerbOf;
    if e.Command? {
      ExecuteIsRun(h, s, VerbOf(e.name), e.name, e.args, clock);
      RunSmall(h, s, CallsOf(h, s, VerbOf(e.name), e.args, clock));
    }
  }

  // ---- a pipeline of requests ----

  /** The values as requests, the first one being the client's `k`-th command. */
  function Requests(vs: seq<RespValue>, clock: nat -> Clock, k: nat): (q: seq<Request>)
    ensures |q| == |vs| && forall i :: 0 <= i < |q| ==> q[i].value == vs[i]
  {
    if vs == [] then [] else [Request(vs[0], clock(k))] + Requests(vs[1..], clock, k + 1)
  }

  function RenderAll(ratio: Ratio, replies: seq<Reply>): (ws: seq<RespValue>)
    ensures |ws| == |replies| && forall i :: 0 <= i < |ws| ==> ws[i] == Render(ratio, replies[i])
  {
    if replies == [] then [] else [Render(ratio, replies[0])] + RenderAll(ratio, replies[1..])
  }

  function Dispatches(vs: seq<RespValue>): (events: seq<Event>)
    ensures |events| == |vs| && forall i :: 0 <= i < |events| ==> events[i] == Dispatch(vs[i])
  {
    seq(|vs|, i requires 0 <= i < |vs| => Dispatch(vs[i]))
  }

  lemma DispatchesFirst(vs: seq<RespValue>)
    requires vs != []
    ensures Dispatches(vs) == [Dispatch(vs[0])] + Dispatches(vs[1..])
  {
  }

  lemma EncodeAllFirst(ratio: Ratio, reply: Reply, more: seq<Reply>)
    ensures EncodeAll(RenderAll(ratio, [reply] + more))
            == Encode(Render(ratio, reply)) + EncodeAll(RenderAll(ratio, more))
  {
    hide Render, Encode;
    assert ([reply] + more)[1..] == more;
    EncodeAllStep(Render(ratio, reply), RenderAll(ratio, more));
  }

  lemma RespondAllFirst(h: Hash, s: Store, q: Request, more: seq<Request>)
    requires |s.cells| > 0
    ensures var (a, s1) := Respond(h, s, q.value, q.clock);
            var (rest, s2) := RespondAll(h, s1, more);
            RespondAll(h, s, [q] + more) == ([a] + rest, s2)
  {
    hide Respond;
    assert ([q] + more)[1..] == more;
  }

  lemma RequestsFirst(vs: seq<RespValue>, clock: nat -> Clock, k: nat)
    ensures Requests([], clock, k) == []
    ensures vs != [] ==> Requests(vs, clock, k) == [Request(vs[0], clock(k))] + Requests(vs[1..], clock, k + 1)
  {
  }

  lemma HandleDispatch(server: Server, x: Session, v: RespValue)
    requires |x.store.cells| > 0
    ensures var (r, s) := Respond(server.hash, x.store, v, server.clock(x.served));
            Handle(server, x, Dispatch(v)) == Session(s, x.served + 1, x.sent + Encode(Render(server.ratio, r)))
  {
    hide Respond, Encode, Render;
  }

  lemma NoRequests(server: Server, x: Session)
    requires |x.store.cells| > 0
    ensures RespondAll(server.hash, x.store, []) == ([], x.store)
    ensures HandleAll(server, x, Dispatches([])) == x
    ensures EncodeAll(RenderAll(server.ratio, [])) == []
  {
  }

  /** Dispatching values in a row writes the encodings of their replies in a row. */
  lemma {:induction false} DispatchesAnswer(server: Server, x: Session, vs: seq<RespValue>)
    requires |x.store.cells| > 0
    ensures var (replies, s) := RespondAll(server.hash, x.store, Requests(vs, server.clock, x.served));
            HandleAll(server, x, Dispatches(vs))
            == Session(s, x.served + |vs|, x.sent + EncodeAll(RenderAll(server.ratio, replies)))
    decreases vs
  {
    hide *;
    RequestsFirst(vs, server.clock, x.served);
    NoRequests(server, x);
    if vs == [] {
      assert x.sent + [] == x.sent;
    } else {
      var q := Request(vs[0], server.clock(x.served));
      var (a, s1) := Respond(server.hash, x.store, q.value, q.clock);
      var one := Encode(Render(server.ratio, a));
      var x1 := Session(s1, x.served + 1, x.sent + one);
      var later := Requests(vs[1..], server.clock, x.served + 1);
      var rest := RespondAll(server.hash, s1, later).0;
      HandleDispatch(server, x, vs[0]);
      DispatchesFirst(vs);
      HandleFirst(server, x, Dispatch(vs[0]), Dispatches(vs[1..]));
      DispatchesAnswer(server, x1, vs[1..]);
      RespondAllFirst(server.hash, x.store, q, later);
      EncodeAllFirst(server.ratio, a, rest);
      var more := EncodeAll(RenderAll(server.ratio, rest));
      assert (x.sent + one) + more == x.sent + (one + more);
    }
  }

  /**
   * A pipeline of encoded requests with an incomplete tail, cut into reads in any way, has every
   * request executed once, in order, and the encoded replies written in order, nothing else.
   */
  lemma {:induction false} PipelineIsAnswered(server: Server, s: Store, vs: seq<RespValue>, tail: Bytes,
                                              arrivals: seq<Bytes>)
    requires |s.cells| > 0 && Parse(tail).NeedMore? && forall i | 0 <= i < |vs| :: Sendable(vs[i])
    requires Stream(arrivals) == EncodeAll(vs) + tail
    ensures var (replies, s') := RespondAll(server.hash, s, Requests(vs, server.clock, 0));
            && Serve([], arrivals).rest == tail
            && HandleAll(server, Session(s, 0, []), Serve([], arrivals).events)
               == Session(s', |vs|, EncodeAll(RenderAll(server.ratio, replies)))
  {
    hide Serve, Stream, ParseAll, EncodeAll, RenderAll, RespondAll, HandleAll, Requests, Sendable, Parse;
    PipelineRoundTrip(vs, tail);
    StreamIsParseAll(arrivals);
    assert Serve([], arrivals).events == Dispatches(vs);
    assert (EncodeAll(vs) + tail)[|EncodeAll(vs)|..] == tail;
    DispatchesAnswer(server, Session(s, 0, []), vs);
    var replies := RespondAll(server.hash, s, Requests(vs, server.clock, 0)).0;
    assert [] + EncodeAll(RenderAll(server.ratio, replies)) == EncodeAll(RenderAll(server.ratio, replies));
  }

  // ---- reading the replies back ----

  ghost predicate EchoSafe(v: RespValue) { Unknown(v) ==> NoCrlf(NameOf(v)) }

  /** The values are commands whose replies a client can read back. */
  ghost predicate Readable(vs: seq<RespValue>) { forall i | 0 <= i < |vs| :: EchoSafe(vs[i]) }

  lemma RenderAllFirst(ratio: Ratio, reply: Reply, more: seq<Reply>)
    ensures RenderAll(ratio, [reply] + more) == [Render(ratio, reply)] + RenderAll(ratio, more)
    ensures RenderAll(ratio, []) == []
  {
    hide Render;
    assert ([reply] + more)[1..] == more;
  }

  /** All replies are representable, and line-safe exactly where no CRLF is echoed. */
  lemma {:induction false} RepliesAreRepresentable(h: Hash, ratio: Ratio, s: Store, vs: seq<RespValue>,
                                                   clock: nat -> Clock, k: nat)
    requires 0 < |s.cells| < TWO64 && SmallValues(s.cells) && forall i | 0 <= i < |vs| :: Representable(vs[i])
    ensures var ws := RenderAll(ratio, RespondAll(h, s, Requests(vs, clock, k)).0);
            |ws| == |vs| && forall i | 0 <= i < |ws| :: Representable(ws[i]) && (LineSafe(ws[i]) <==> EchoSafe(vs[i]))
    decreases vs
  {
    hide Respond, RespondAll, RenderAll, Render, Representable, LineSafe, Unknown, SmallValues, Parse, Encode, Requests;
    if vs != [] {
      RequestsFirst(vs, clock, k);
      var q := Request(vs[0], clock(k));
      var (a, s1) := Respond(h, s, q.value, q.clock);
      RespondSmall(h, s, q.value, q.clock);
      ReplyRoundTripsIff(h, ratio, s, q.value, q.clock);
      RepliesAreRepresentable(h, ratio, s1, vs[1..], clock, k + 1);
      var later := Requests(vs[1..], clock, k + 1);
      RespondAllFirst(h, s, q, later);
      RenderAllFirst(ratio, a, RespondAll(h, s1, later).0);
    }
  }

  lemma ConsAllFailed(v: RespValue, c: nat, r: AllOutcome)
    requires r.AllFail?
    ensures ConsAll(v, c, r) == r
  {
  }

  lemma {:induction false} ParsedAllAreSendable(b: Bytes)
    ensures var r := ParseAll(b);
            r.AllParsed? ==> forall i | 0 <= i < |r.values| :: Sendable(r.values[i])
    decreases |b|
  {
    hide Parse, ParseAll, Sendable;
    AllStep(b);
    ParsedIsSendable(b);
    var r := Parse(b);
    if r.Parsed? {
      var more := ParseAll(b[r.consumed..]);
      ParsedAllAreSendable(b[r.consumed..]);
      if more.AllParsed? {
        ConsAllParsed(r.value, r.consumed, more.values, more.consumed);
      } else {
        ConsAllFailed(r.value, r.consumed, more);
      }
    }
  }

  lemma NothingNeedsMore()
    ensures Parse([]).NeedMore?
  {
  }

  /** Encoded values in a row parse back to exactly these values if and only if all are line-safe. */
  lemma {:induction false} PipelineRoundTripIff(ws: seq<RespValue>)
    requires forall i | 0 <= i < |ws| :: Representable(ws[i])
    ensures ParseAll(EncodeAll(ws)) == AllParsed(ws, |EncodeAll(ws)|) <==> forall i | 0 <= i < |ws| :: LineSafe(ws[i])
  {
    hide Representable, LineSafe, ParseAll, EncodeAll, Parse;
    if forall i | 0 <= i < |ws| :: LineSafe(ws[i]) {
      NothingNeedsMore();
      PipelineRoundTrip(ws, []);
      assert EncodeAll(ws) + [] == EncodeAll(ws);
    }
    ParsedAllAreSendable(EncodeAll(ws));
  }

  /**
   * End to end: a client that sends a pipeline of values, in any chunks, reads back exactly one
   * reply for each, in order, if and only if none of them is an unknown command with a CRLF inside
   * its name.
   */
  lemma {:induction false} ClientReadsRepliesIff(server: Server, s: Store, vs: seq<RespValue>, tail: Bytes,
                                                 arrivals: seq<Bytes>)
    requires 0 < |s.cells| < TWO64 && SmallValues(s.cells)
    requires Parse(tail).NeedMore? && forall i | 0 <= i < |vs| :: Sendable(vs[i])
    requires Stream(arrivals) == EncodeAll(vs) + tail
    ensures var sent := HandleAll(server, Session(s, 0, []), Serve([], arrivals).events).sent;
            var ws := RenderAll(server.ratio, RespondAll(server.hash, s, Requests(vs, server.clock, 0)).0);
            |ws| == |vs| && (ParseAll(sent) == AllParsed(ws, |sent|) <==> Readable(vs))
  {
    assert forall i | 0 <= i < |vs| :: Representable(vs[i]);
    hide Serve, Stream, ParseAll, EncodeAll, RenderAll, RespondAll, HandleAll, Requests, Sendable, Parse;
    hide SmallValues, EchoSafe, Representable, LineSafe;
    PipelineIsAnswered(server, s, vs, tail, arrivals);
    RepliesAreRepresentable(server.hash, server.ratio, s, vs, server.clock, 0);
    PipelineRoundTripIff(RenderAll(server.ratio, RespondAll(server.hash, s, Requests(vs, server.clock, 0)).0));
  }

  /**
   * The server as a whole is a plain map behind a protocol: the bytes written for a pipeline that
   * does not ask for INFO are the encoded answers of the map.
   */
  lemma {:induction false} ServerIsMap(server: Server, s: Store, ks: set<Bytes>, vs: seq<RespValue>, tail: Bytes,
                                       arrivals: seq<Bytes>)
    requires Good(server.hash, s, ks) && |s.cells| > 0 && forall i | 0 <= i < |vs| :: ValueUses(vs[i], ks)
    requires Parse(tail).NeedMore? && forall i | 0 <= i < |vs| :: Sendable(vs[i])
    requires Stream(arrivals) == EncodeAll(vs) + tail
    ensures var x := HandleAll(server, Session(s, 0, []), Serve([], arrivals).events);
            var (replies, m) := MapRespondAll(|s.cells|, Contents(s.cells), Requests(vs, server.clock, 0));
            && Good(server.hash, x.store, ks) && Contents(x.store.cells) == m
            && ((forall i | 0 <= i < |replies| :: !replies[i].InfoReply?) ==>
                  x.sent == EncodeAll(RenderAll(server.ratio, replies)))
  {
    hide Serve, Stream, EncodeAll, RenderAll, RespondAll, HandleAll, MapRespondAll, Sendable, Parse;
    hide Good, ValueUses, Contents;
    PipelineIsAnswered(server, s, vs, tail, arrivals);
    var requests := Requests(vs, server.clock, 0);
    CommandsRefineMap(server.hash, s, ks, requests);
    var replies := RespondAll(server.hash, s, requests).0;
    var replies' := MapRespondAll(|s.cells|, Contents(s.cells), requests).0;
    if forall i | 0 <= i < |replies'| :: !replies'[i].InfoReply? {
      assert replies == replies';
    }
  }
}

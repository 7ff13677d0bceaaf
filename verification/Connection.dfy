/**
 * The per-client buffer loop: bytes arrive in arbitrary reads, complete values are dispatched and
 * answered, a protocol error is reported and throws the rest of the buffer away.
 */
module Connection {
  import opened Bytes
  import opened Resp
  import opened RespProofs
  import opened Codec
  import opened Replies
  import opened Dispatch
  import Cl = Client
  import T = Table

  /** What the loop does with the client's bytes, in order. */
  datatype Event = Dispatch(value: RespValue) | Reject(error: RespError)

  /** The events of one pass over the buffer, and the bytes left for the next read. */
  datatype Drained = Drained(events: seq<Event>, rest: Bytes)

  function After(events: seq<Event>, d: Drained): Drained { Drained(events + d.events, d.rest) }

  function Drain(buf: Bytes): Drained
    decreases |buf|
  {
    match Parse(buf)
    case NeedMore => Drained([], buf)
    case Fail(e) => Drained([Reject(e)], [])
    case Parsed(v, c) => After([Dispatch(v)], Drain(buf[c..]))
  }

  /** `Drain` unfolded once. */
  lemma DrainStep(b: Bytes)
    ensures var r := Parse(b);
            Drain(b) ==
            if r.NeedMore? then Drained([], b)
            else if r.Fail? then Drained([Reject(r.error)], [])
            else After([Dispatch(r.value)], Drain(b[r.consumed..]))
  {
  }

  /** The whole connection: reads are served until an empty one, which is a disconnect. */
  function Serve(pending: Bytes, arrivals: seq<Bytes>): Drained
    decreases arrivals
  {
    if arrivals == [] || arrivals[0] == [] then Drained([], pending)
    else var d := Drain(pending + arrivals[0]);
      After(d.events, Serve(d.rest, arrivals[1..]))
  }

  lemma NoneAfter(d: Drained)
    ensures After([], d) == d
  {
    assert [] + d.events == d.events;
  }

  lemma AfterAfter(a: seq<Event>, b: seq<Event>, d: Drained)
    ensures After(a, After(b, d)) == After(a + b, d)
  {
    assert a + (b + d.events) == a + b + d.events;
  }

  // ---- chunking independence ----

  /** The bytes the client really sent before disconnecting. */
  function Stream(arrivals: seq<Bytes>): Bytes {
    if arrivals == [] || arrivals[0] == [] then [] else arrivals[0] + Stream(arrivals[1..])
  }

  predicate Clean(events: seq<Event>) { forall i | 0 <= i < |events| :: events[i].Dispatch? }

  /** The events up to and including the first protocol error. */
  function UpToReject(events: seq<Event>): seq<Event> {
    if events == [] then [] else if events[0].Reject? then [events[0]] else [events[0]] + UpToReject(events[1..])
  }

  lemma {:induction false} UpToRejectAppend(a: seq<Event>, b: seq<Event>)
    ensures UpToReject(a + b) == if Clean(a) then a + UpToReject(b) else UpToReject(a)
  {
    if a == [] {
      assert a + b == b;
    } else {
      assert (a + b)[1..] == a[1..] + b;
      UpToRejectAppend(a[1..], b);
      if a[0].Dispatch? {
        assert Clean(a) <==> Clean(a[1..]);
      }
    }
  }

  /** Draining stops at the first error, so its events are already cut there. */
  lemma {:induction false} DrainIsCut(b: Bytes)
    ensures UpToReject(Drain(b).events) == Drain(b).events
    decreases |b|
  {
    var r := Parse(b);
    if r.Parsed? {
      DrainIsCut(b[r.consumed..]);
      assert Drain(b).events[1..] == Drain(b[r.consumed..]).events;
    }
  }

  lemma AfterParts(a: seq<Event>, d: Drained)
    ensures After(a, d).events == a + d.events && After(a, d).rest == d.rest
  {
  }

  lemma CleanCases()
    ensures Clean([])
    ensures forall v :: Clean([Dispatch(v)])
    ensures forall e :: !Clean([Reject(e)])
  {
    forall e ensures !Clean([Reject(e)]) {
      assert [Reject(e)][0].Reject?;
    }
  }

  lemma CleanPrefix(a: seq<Event>, b: seq<Event>)
    ensures Clean(a + b) <==> Clean(a) && Clean(b)
  {
    if Clean(a + b) {
      assert forall i | 0 <= i < |a| :: a[i] == (a + b)[i];
      assert forall i | 0 <= i < |b| :: b[i] == (a + b)[|a| + i];
    }
  }

  /** Draining a longer buffer continues where draining the shorter one stopped. */
  lemma {:induction false} DrainSplit(b: Bytes, x: Bytes)
    ensures var d := Drain(b);
            if Clean(d.events) then Drain(b + x) == After(d.events, Drain(d.rest + x))
                else Drain(b + x).events == d.events
    decreases |b|
  {
    hide *;
    ParseStable(b, x);
    DrainStep(b);
    DrainStep(b + x);
    CleanCases();
    match Parse(b)
    case NeedMore =>
      NoneAfter(Drain(b + x));
    case Fail(e) =>
    case Parsed(v, c) =>
      var more := b[c..];
      var d := Drain(more);
      assert (b + x)[c..] == more + x;
      DrainSplit(more, x);
      AfterAfter([Dispatch(v)], d.events, Drain(d.rest + x));
      AfterParts([Dispatch(v)], d);
      AfterParts([Dispatch(v)], Drain(more + x));
      CleanPrefix([Dispatch(v)], d.events);
  }

  lemma {:induction false} RestIsIncomplete(b: Bytes)
    ensures Parse(Drain(b).rest).NeedMore?
    decreases |b|
  {
    var r := Parse(b);
    if r.Parsed? {
      RestIsIncomplete(b[r.consumed..]);
    }
  }

  /**
   * However the bytes are cut into reads, the events up to the first protocol error are those of
   * draining the whole stream at once; without an error so are the bytes left over.
   */
  lemma {:induction false} ServeIsDrain(pending: Bytes, arrivals: seq<Bytes>)
    requires Parse(pending).NeedMore?
    ensures var s := Serve(pending, arrivals);
            var d := Drain(pending + Stream(arrivals));
            UpToReject(s.events) == d.events && (Clean(d.events) ==> s == d)
    decreases arrivals
  {
    if arrivals == [] || arrivals[0] == [] {
      assert pending + Stream(arrivals) == pending;
    } else {
      var b, more := pending + arrivals[0], arrivals[1..];
      var d := Drain(b);
      assert pending + Stream(arrivals) == b + Stream(more);
      DrainSplit(b, Stream(more));
      RestIsIncomplete(b);
      ServeIsDrain(d.rest, more);
      UpToRejectAppend(d.events, Serve(d.rest, more).events);
      DrainIsCut(b);
      CleanPrefix(d.events, Drain(d.rest + Stream(more)).events);
    }
  }

  lemma {:induction false} CleanIsUncut(events: seq<Event>)
    requires Clean(events)
    ensures UpToReject(events) == events
  {
    if events != [] {
      CleanIsUncut(events[1..]);
    }
  }

  /** Two ways of cutting the same bytes into reads are served alike up to the first error. */
  lemma {:induction false} ChunkingIndependence(arrivals: seq<Bytes>, arrivals': seq<Bytes>)
    requires Stream(arrivals) == Stream(arrivals')
    ensures UpToReject(Serve([], arrivals).events) == UpToReject(Serve([], arrivals').events)
    ensures Clean(Serve([], arrivals).events) ==> Serve([], arrivals) == Serve([], arrivals')
  {
    ServeIsDrain([], arrivals);
    ServeIsDrain([], arrivals');
    if Clean(Serve([], arrivals).events) {
      CleanIsUncut(Serve([], arrivals).events);
    }
  }

  /** On a stream without errors the connection dispatches exactly what `parse_all` returns. */
  lemma {:induction false} DrainIsParseAll(b: Bytes)
    ensures match ParseAll(b)
            case AllFail(e) => Drain(b).events != [] && Drain(b).events[|Drain(b).events| - 1] == Reject(e)
                && !Clean(Drain(b).events)
            case AllParsed(vs, c) => Clean(Drain(b).events) && |Drain(b).events| == |vs| && Drain(b).rest == b[c..]
                                     && forall i | 0 <= i < |vs| :: Drain(b).events[i] == Dispatch(vs[i])
    decreases |b|
  {
    var r := Parse(b);
    if r.Parsed? {
      var more := b[r.consumed..];
      DrainIsParseAll(more);
      CleanPrefix([Dispatch(r.value)], Drain(more).events);
    }
  }

  lemma {:induction false} StreamIsParseAll(arrivals: seq<Bytes>)
    requires ParseAll(Stream(arrivals)).AllParsed?
    ensures var all := ParseAll(Stream(arrivals));
            var s := Serve([], arrivals);
            && |s.events| == |all.values| && (forall i | 0 <= i < |s.events| :: s.events[i] == Dispatch(all.values[i]))
            && s.rest == Stream(arrivals)[all.consumed..]
  {
    ServeIsDrain([], arrivals);
    assert [] + Stream(arrivals) == Stream(arrivals);
    DrainIsParseAll(Stream(arrivals));
  }

  // ---- what the events do ----

  /** The fingerprint function, the percentage format, and the clock readings of each command. */
  datatype Server = Server(hash: T.Hash, ratio: Ratio, clock: nat -> T.Clock)

  /** The shared store, the commands this client had answered, the bytes written to its socket. */
  datatype Session = Session(store: T.Store, served: nat, sent: Bytes)

  function Handle(server: Server, x: Session, e: Event): (x': Session)
    requires |x.store.cells| > 0
    ensures |x'.store.cells| == |x.store.cells|
  {
    match e
    case Dispatch(v) =>
      var (r, s) := Respond(server.hash, x.store, v, server.clock(x.served));
      Session(s, x.served + 1, x.sent + Encode(Render(server.ratio, r)))
    case Reject(error) => x.(sent := x.sent + Encode(Failure(ProtocolErrorText(error))))
  }

  function HandleAll(server: Server, x: Session, events: seq<Event>): (x': Session)
    requires |x.store.cells| > 0
    ensures |x'.store.cells| == |x.store.cells|
    decreases events
  {
    if events == [] then x else HandleAll(server, Handle(server, x, events[0]), events[1..])
  }

  lemma HandleFirst(server: Server, x: Session, e: Event, events: seq<Event>)
    requires |x.store.cells| > 0
    ensures HandleAll(server, x, [e] + events) == HandleAll(server, Handle(server, x, e), events)
  {
    hide Handle;
    assert ([e] + events)[1..] == events;
  }

  lemma {:induction false} HandleAppend(server: Server, x: Session, a: seq<Event>, b: seq<Event>)
    requires |x.store.cells| > 0
    ensures HandleAll(server, x, a + b) == HandleAll(server, HandleAll(server, x, a), b)
    decreases a
  {
    hide Handle;
    if a == [] {
      assert a + b == b;
    } else {
      assert (a + b)[1..] == a[1..] + b;
      HandleAppend(server, Handle(server, x, a[0]), a[1..], b);
    }
  }

  lemma HandleNothing(server: Server, x: Session)
    requires |x.store.cells| > 0
    ensures HandleAll(server, x, []) == x
  {
  }

  lemma HandleReject(server: Server, x: Session, error: RespError)
    requires |x.store.cells| > 0
    ensures Handle(server, x, Reject(error)) == x.(sent := x.sent + Encode(Failure(ProtocolErrorText(error))))
  {
  }

  // ---- the loop ----

  class Connection {
    const client: Cl.Client
    const ratio: Ratio
    const clock: nat -> T.Clock
    var pending: Bytes
    var served: nat
    var sent: Bytes

    ghost predicate Valid() { client.Valid() }

    ghost function Environment(): Server { Server(client.arena.hash, ratio, clock) }

    ghost function State(): (x: Session)
      reads this, client.arena, client.arena.slots
      ensures Valid() ==> |x.store.cells| > 0
    {
      Session(client.Store(), served, sent)
    }

    constructor (client: Cl.Client, ratio: Ratio, clock: nat -> T.Clock)
      requires client.Valid()
      ensures Valid() && this.client == client && this.ratio == ratio && this.clock == clock
      ensures pending == [] && State() == Session(client.Store(), 0, [])
    {
      this.client, this.ratio, this.clock := client, ratio, clock;
      pending, served, sent := [], 0, [];
    }

    /** Dispatch one value and write the encoded reply. */
    method Answer(v: RespValue)
      requires Valid()
      modifies this`served, this`sent, client.arena, client.arena.slots
      ensures State() == Handle(Environment(), old(State()), Dispatch(v))
    {
      hide Respond, Render, Encode;
      var response := DispatchCommand(client, ratio, v, clock(served));
      var encoded := EncodeInto(response, []);
      assert encoded == Encode(response);
      served := served + 1;
      sent := sent + encoded;
    }

    /** Write the report of a protocol error. */
    method Report(error: RespError)
      modifies this`sent
      ensures sent == old(sent) + Encode(Failure(ProtocolErrorText(error)))
    {
      hide *;
      var encoded := EncodeInto(Failure(ProtocolErrorText(error)), []);
      assert [] + Encode(Failure(ProtocolErrorText(error))) == Encode(Failure(ProtocolErrorText(error)));
      sent := sent + encoded;
    }

    /** Handle one read: append, parse and answer with a moving offset, drop what was consumed. */
    method OnRead(chunk: Bytes)
      requires Valid()
      modifies this, client.arena, client.arena.slots
      ensures pending == Drain(old(pending) + chunk).rest
      ensures State() == HandleAll(Environment(), old(State()), Drain(old(pending) + chunk).events)
    {
      hide Drain, Parse, Handle, HandleAll, Failure, ProtocolErrorText, Encode;
      ghost var server, all, start := Environment(), Drain(pending + chunk), State();
      pending := pending + chunk;
      var offset := 0;
      var done := false;
      assert pending[0..] == pending;
      while !done
        invariant 0 <= offset <= |pending|
        invariant !done ==> all.rest == Drain(pending[offset..]).rest
        invariant !done ==>
                    HandleAll(server, start, all.events) == HandleAll(server, State(), Drain(pending[offset..]).events)
        invariant done ==> all.rest == pending[offset..] && HandleAll(server, start, all.events) == State()
        decreases !done, |pending| - offset
      {
        ghost var now := State();
        var buf := pending[offset..];
        DrainStep(buf);
        var one := ParseValue(buf);
        match one {
          case NeedMore =>
            HandleNothing(server, now);
            done := true;
          case Fail(e) =>
            HandleFirst(server, now, Reject(e), []);
            HandleNothing(server, Handle(server, now, Reject(e)));
            HandleReject(server, now, e);
            assert [Reject(e)] + [] == [Reject(e)];
            Report(e);
            pending, offset := [], 0;
            done := true;
          case Parsed(v, consumed) =>
            assert buf[consumed..] == pending[offset + consumed..];
            HandleFirst(server, now, Dispatch(v), Drain(buf[consumed..]).events);
            Answer(v);
            offset := offset + consumed;
        }
      }
      pending := pending[offset..];
    }

    /** The whole connection, up to the empty read that is a disconnect. */
    method HandleClient(arrivals: seq<Bytes>)
      requires Valid()
      modifies this, client.arena, client.arena.slots
      ensures pending == Serve(old(pending), arrivals).rest
      ensures State() == HandleAll(Environment(), old(State()), Serve(old(pending), arrivals).events)
    {
      hide Drain, HandleAll;
      ghost var server, all, start := Environment(), Serve(pending, arrivals), State();
      var i := 0;
      while i < |arrivals| && arrivals[i] != []
        invariant 0 <= i <= |arrivals|
        invariant all.rest == Serve(pending, arrivals[i..]).rest
        invariant HandleAll(server, start, all.events)
                  == HandleAll(server, State(), Serve(pending, arrivals[i..]).events)
      {
        ghost var now, d := State(), Drain(pending + arrivals[i]);
        assert arrivals[i..][1..] == arrivals[i + 1..];
        HandleAppend(server, now, d.events, Serve(d.rest, arrivals[i + 1..]).events);
        OnRead(arrivals[i]);
        i := i + 1;
      }
      HandleNothing(server, State());
    }
  }
}

/**
 * How a stream is cut into reads, and exactly when that makes no difference. Reads are bounded by
 * the size of the read buffer.
 */
module Chunking {
  import opened Bytes
  import opened Decimal
  import opened Resp
  import opened RespProofs
  import opened Connection
  import Utf8

  /** Size of the read buffer. */
  const READ_BUF_SIZE: nat := 8192

  lemma {:induction false} FailureDropsRest(b: Bytes)
    ensures !Clean(Drain(b).events) ==> Drain(b).rest == []
    decreases |b|
  {
    hide *;
    DrainStep(b);
    CleanCases();
    var r := Parse(b);
    if r.Parsed? {
      FailureDropsRest(b[r.consumed..]);
      AfterParts([Dispatch(r.value)], Drain(b[r.consumed..]));
      CleanPrefix([Dispatch(r.value)], Drain(b[r.consumed..]).events);
    }
  }

  /** All bytes but the last one. */
  function Front(b: Bytes): Bytes
    requires b != []
  {
    b[..|b| - 1]
  }

  lemma {:induction false} ServeNothing(pending: Bytes, arrivals: seq<Bytes>)
    requires Stream(arrivals) == []
    ensures Serve(pending, arrivals) == Drained([], pending)
  {
  }

  lemma ServeStep(pending: Bytes, arrivals: seq<Bytes>)
    requires arrivals != [] && arrivals[0] != []
    ensures var d := Drain(pending + arrivals[0]);
            Serve(pending, arrivals) == After(d.events, Serve(d.rest, arrivals[1..]))
    ensures pending + Stream(arrivals) == pending + arrivals[0] + Stream(arrivals[1..])
  {
    hide Drain;
  }

  /** If a stream shows no error before its last byte, neither does what a shorter read leaves. */
  lemma CleanFronts(b: Bytes, y: Bytes)
    requires y != [] && Clean(Drain(Front(b + y)).events)
    ensures var d := Drain(b);
            Clean(d.events) && Clean(Drain(Front(d.rest + y)).events)
  {
    hide Drain, Clean;
    var d := Drain(b);
    assert Front(b + y) == b + Front(y) && Front(d.rest + y) == d.rest + Front(y);
    DrainSplit(b, Front(y));
    CleanPrefix(d.events, Drain(d.rest + Front(y)).events);
  }

  lemma DrainIncomplete(pending: Bytes)
    requires Parse(pending).NeedMore?
    ensures Drain(pending) == Drained([], pending)
  {
  }

  /** As long as no error shows before the last byte, any cutting is served as one drain. */
  lemma {:induction false} ServeIsWholeDrain(pending: Bytes, arrivals: seq<Bytes>)
    requires Parse(pending).NeedMore?
    requires var b := pending + Stream(arrivals); b == [] || Clean(Drain(Front(b)).events)
    ensures Serve(pending, arrivals) == Drain(pending + Stream(arrivals))
    decreases arrivals
  {
    if Stream(arrivals) == [] {
      ServeNothing(pending, arrivals);
      assert pending + [] == pending;
      DrainIncomplete(pending);
    } else {
      var b, y := pending + arrivals[0], Stream(arrivals[1..]);
      var d := Drain(b);
      ServeStep(pending, arrivals);
      hide Drain, Clean, Parse, Serve, Stream;
      DrainSplit(b, y);
      if y == [] {
        ServeNothing(d.rest, arrivals[1..]);
        assert b + y == b;
        assert d.events + [] == d.events;
      } else {
        CleanFronts(b, y);
        RestIsIncomplete(b);
        ServeIsWholeDrain(d.rest, arrivals[1..]);
      }
    }
  }

  lemma StreamOfOne(b: Bytes)
    requires b != []
    ensures Stream([b]) == b && Serve([], [b]) == Drain(b)
  {
    hide Drain;
    assert [b][1..] == [] && [] + b == b && b + [] == b;
    assert Serve(Drain(b).rest, []) == Drained([], Drain(b).rest);
    assert Drain(b).events + [] == Drain(b).events;
  }

  lemma StreamOfTwo(a: Bytes, b: Bytes)
    requires a != [] && b != []
    ensures Stream([a, b]) == a + b
    ensures Serve([], [a, b]) == After(Drain(a).events, Serve(Drain(a).rest, [b]))
  {
    hide Drain;
    StreamOfOne(b);
    assert [a, b][1..] == [b] && [] + a == a;
  }

  // ---- the first error ----

  /** Length of the shortest prefix that shows a protocol error; the whole length if none does. */
  function ErrorAt(b: Bytes): (p: nat)
    ensures p <= |b|
  {
    if b == [] || Clean(Drain(Front(b)).events) then |b| else ErrorAt(Front(b))
  }

  lemma EmptyIsClean()
    ensures Drain([]) == Drained([], []) && Clean(Drain([]).events)
  {
  }

  lemma PrefixClean(b: Bytes, q: nat)
    requires q <= |b| && Clean(Drain(b).events)
    ensures Clean(Drain(b[..q]).events)
  {
    hide Drain, Clean;
    assert b == b[..q] + b[q..];
    DrainSplit(b[..q], b[q..]);
  }

  /** Once an error shows, more bytes in the same buffer change nothing. */
  lemma PrefixFails(b: Bytes, q: nat)
    requires q <= |b| && !Clean(Drain(b[..q]).events)
    ensures Drain(b) == Drained(Drain(b[..q]).events, [])
  {
    hide Drain, Clean;
    assert b == b[..q] + b[q..];
    DrainSplit(b[..q], b[q..]);
    FailureDropsRest(b);
  }

  lemma {:induction false} ErrorAtFacts(b: Bytes)
    requires ErrorAt(b) < |b|
    ensures var p := ErrorAt(b);
            0 < p && Clean(Drain(b[..p - 1]).events) && !Clean(Drain(b[..p]).events)
  {
    hide Drain, Clean;
    EmptyIsClean();
    var f := Front(b);
    if ErrorAt(f) < |f| {
      ErrorAtFacts(f);
      assert f[..ErrorAt(f)] == b[..ErrorAt(f)] && f[..ErrorAt(f) - 1] == b[..ErrorAt(f) - 1];
    } else {
      assert f != [] && b[..|f|] == f && b[..|f| - 1] == Front(f);
    }
  }

  lemma {:induction false} ErrorAtIs(b: Bytes, p: nat)
    requires 0 < p <= |b| && Clean(Drain(b[..p - 1]).events) && !Clean(Drain(b[..p]).events)
    ensures ErrorAt(b) == p
  {
    hide Drain, Clean;
    if p == |b| {
      assert b[..p - 1] == Front(b);
    } else {
      var f := Front(b);
      assert f[..p] == b[..p] && f[..p - 1] == b[..p - 1];
      PrefixFails(f, p);
      ErrorAtIs(f, p);
    }
  }

  lemma ErrorAtStep(b: Bytes, y: Bytes)
    requires y != []
    ensures ErrorAt(b + y) == if Clean(Drain(b + Front(y)).events) then |b + y| else ErrorAt(b + Front(y))
  {
    hide Drain, Clean;
    assert Front(b + y) == b + Front(y);
  }

  lemma CleanIsWhole(b: Bytes)
    requires Clean(Drain(b).events)
    ensures ErrorAt(b) == |b|
  {
    hide Drain, Clean;
    if b != [] {
      PrefixClean(b, |b| - 1);
    }
  }

  lemma FrontShorter(y: Bytes)
    requires y != []
    ensures |Front(y)| == |y| - 1
  {
  }

  /** After a clean part the first error is where the rest of the buffer shows it. */
  lemma {:induction false} ErrorAtShift(b: Bytes, y: Bytes)
    requires Clean(Drain(b).events)
    ensures var rest := Drain(b).rest;
            ErrorAt(b + y) - |b| == ErrorAt(rest + y) - |rest| >= 0
    decreases |y|
  {
    hide *;
    var d := Drain(b);
    RestIsIncomplete(b);
    DrainIncomplete(d.rest);
    CleanCases();
    if y == [] {
      assert b + y == b && d.rest + y == d.rest;
      CleanIsWhole(b);
      CleanIsWhole(d.rest);
    } else {
      var f := Front(y);
      ErrorAtStep(b, y);
      ErrorAtStep(d.rest, y);
      DrainSplit(b, f);
      AfterParts(d.events, Drain(d.rest + f));
      CleanPrefix(d.events, Drain(d.rest + f).events);
      FrontShorter(y);
      ErrorAtShift(b, f);
    }
  }

  // ---- cuttings ----

  predicate Bounded(arrivals: seq<Bytes>, max: nat) { forall i | 0 <= i < |arrivals| :: |arrivals[i]| <= max }

  /** The reads deliver `b`, none of them more than `max` bytes. */
  predicate Cuts(arrivals: seq<Bytes>, b: Bytes, max: nat) { Stream(arrivals) == b && Bounded(arrivals, max) }

  function Bytewise(b: Bytes): seq<Bytes> { if b == [] then [] else [[b[0]]] + Bytewise(b[1..]) }

  /** What comes out when every byte is a read of its own. */
  function Result(b: Bytes): Drained { Serve([], Bytewise(b)) }

  /** However a stream is cut into reads of at most `max` bytes, it is served alike. */
  ghost predicate ChunkingFree(b: Bytes, max: nat) {
    forall a, a' | Cuts(a, b, max) && Cuts(a', b, max) :: Serve([], a) == Serve([], a')
  }

  lemma {:induction false} BytewiseCuts(b: Bytes, max: nat)
    requires max > 0
    ensures Cuts(Bytewise(b), b, max)
  {
    if b != [] {
      BytewiseCuts(b[1..], max);
      assert [b[0]] + b[1..] == b;
    }
  }

  /** There is only one way to cut a stream into single bytes. */
  lemma {:induction false} BytewiseUnique(pending: Bytes, a: seq<Bytes>)
    requires Bounded(a, 1)
    ensures Serve(pending, a) == Serve(pending, Bytewise(Stream(a)))
    decreases a
  {
    hide Drain;
    if a != [] && a[0] != [] {
      assert Stream(a)[0] == a[0][0] && Stream(a)[1..] == Stream(a[1..]) && a[0] == [a[0][0]];
      var b := Bytewise(Stream(a));
      assert b[0] == a[0] && b[1..] == Bytewise(Stream(a[1..]));
      BytewiseUnique(Drain(pending + a[0]).rest, a[1..]);
    }
  }

  lemma ServeRead(pending: Bytes, w: Bytes, more: seq<Bytes>)
    requires w != []
    ensures var d := Drain(pending + w);
            Serve(pending, [w] + more) == After(d.events, Serve(d.rest, more))
    ensures Stream([w] + more) == w + Stream(more)
  {
    hide Drain;
    assert ([w] + more)[1..] == more;
  }

  lemma Regroup(a: seq<Bytes>, b: seq<Bytes>, c: seq<Bytes>)
    ensures (a + b) + c == a + (b + c) && [] + c == c
  {
  }

  lemma BytewiseStep(u: Bytes)
    ensures Bytewise(u) == if u == [] then [] else [[u[0]]] + Bytewise(u[1..])
  {
  }

  lemma BytewiseFirst(u: Bytes, more: seq<Bytes>)
    ensures Bytewise(u) + more == if u == [] then more else [[u[0]]] + (Bytewise(u[1..]) + more)
  {
    hide *;
    BytewiseStep(u);
    Regroup(if u == [] then [] else [[u[0]]], if u == [] then [] else Bytewise(u[1..]), more);
  }

  /** Clean bytes read one by one, then other reads. */
  lemma {:induction false} ServeBytes(pending: Bytes, u: Bytes, more: seq<Bytes>)
    requires Parse(pending).NeedMore? && Clean(Drain(pending + u).events)
    ensures var d := Drain(pending + u);
            Serve(pending, Bytewise(u) + more) == After(d.events, Serve(d.rest, more))
    ensures Stream(Bytewise(u) + more) == u + Stream(more)
    decreases u
  {
    hide *;
    BytewiseFirst(u, more);
    if u == [] {
      DrainIncomplete(pending);
      assert pending + u == pending;
      assert u + Stream(more) == Stream(more);
      NoneAfter(Serve(pending, more));
    } else {
      var w, u' := [u[0]], u[1..];
      var b := pending + w;
      assert pending + u == b + u' && w + u' == u;
      assert (pending + u)[..|b|] == b;
      PrefixClean(pending + u, |b|);
      var d := Drain(b);
      DrainSplit(b, u');
      RestIsIncomplete(b);
      var d' := Drain(d.rest + u');
      AfterParts(d.events, d');
      CleanPrefix(d.events, d'.events);
      ServeBytes(d.rest, u', more);
      ServeRead(pending, w, Bytewise(u') + more);
      AfterAfter(d.events, d'.events, Serve(d'.rest, more));
      assert w + (u' + Stream(more)) == u + Stream(more);
    }
  }

  /** A cutting in which the read that completes the error ends after `u + w`. */
  function Cutting(u: Bytes, w: Bytes, more: seq<Bytes>): seq<Bytes> { Bytewise(u) + ([w] + more) }

  lemma CuttingCuts(u: Bytes, w: Bytes, more: seq<Bytes>, max: nat)
    requires 0 < |w| <= max && Bounded(more, max)
    ensures Bounded(Cutting(u, w, more), max)
  {
    BytewiseCuts(u, max);
  }

  lemma NothingPends()
    ensures Parse([]).NeedMore?
  {
  }

  lemma CuttingStream(u: Bytes, w: Bytes, more: seq<Bytes>)
    requires Clean(Drain(u).events) && w != []
    ensures Stream(Cutting(u, w, more)) == u + w + Stream(more)
  {
    hide Drain, Clean, Parse;
    NothingPends();
    assert [] + u == u;
    ServeBytes([], u, [w] + more);
    ServeRead([], w, more);
    assert u + (w + Stream(more)) == u + w + Stream(more);
  }

  lemma CuttingServes(u: Bytes, w: Bytes, more: seq<Bytes>, max: nat)
    requires Clean(Drain(u).events) && !Clean(Drain(u + w).events) && 0 < |w| <= max && Bounded(more, max)
    ensures Cuts(Cutting(u, w, more), u + w + Stream(more), max)
    ensures Serve([], Cutting(u, w, more)) == After(Drain(u + w).events, Serve([], more))
  {
    CuttingCuts(u, w, more, max);
    CuttingStream(u, w, more);
    hide *;
    var d := Drain(u);
    NothingPends();
    assert [] + u == u;
    ServeBytes([], u, [w] + more);
    RestIsIncomplete(u);
    ServeRead(d.rest, w, more);
    DrainSplit(u, w);
    var d' := Drain(d.rest + w);
    AfterParts(d.events, d');
    CleanPrefix(d.events, d'.events);
    FailureDropsRest(d.rest + w);
    AfterAfter(d.events, d'.events, Serve([], more));
  }

  /** The first error lies after the bytes that are still pending, so there is a read to come. */
  lemma PendingShows(pending: Bytes, y: Bytes)
    requires Parse(pending).NeedMore? && ErrorAt(pending + y) < |pending + y|
    ensures y != [] && |pending| < ErrorAt(pending + y)
  {
    var b := pending + y;
    var p := ErrorAt(b);
    DrainIncomplete(pending);
    CleanCases();
    ErrorAtFacts(b);
    hide Drain, Clean, Parse, ErrorAt;
    if p <= |pending| {
      assert pending[..p] == b[..p];
      PrefixClean(pending, p);
      assert false;
    }
  }

  /** A buffer that shows an error contains the first one. */
  lemma ErrorInPrefix(b: Bytes, y: Bytes)
    requires !Clean(Drain(b).events) && ErrorAt(b + y) < |b + y|
    ensures var p := ErrorAt(b + y);
            p <= |b| && Drain(b) == Drained(Drain((b + y)[..p]).events, [])
  {
    var p := ErrorAt(b + y);
    ErrorAtFacts(b + y);
    hide Drain, Clean, ErrorAt;
    if |b| < p {
      assert (b + y)[..p - 1][..|b|] == b;
      PrefixClean((b + y)[..p - 1], |b|);
    } else {
      assert b[..p] == (b + y)[..p];
      PrefixFails(b, p);
    }
  }

  /** Events and remaining bytes after a clean part. */
  lemma ErrorComesLater(b: Bytes, y: Bytes, q: nat)
    requires Clean(Drain(b).events)
    requires var rest := Drain(b).rest; ErrorAt(rest + y) <= q <= |rest + y|
    ensures var d := Drain(b);
            var t := |b| + (q - |d.rest|);
            && |d.rest| <= ErrorAt(d.rest + y)
            && ErrorAt(b + y) <= t <= |b + y| && (b + y)[t..] == (d.rest + y)[q..]
            && Drain((b + y)[..ErrorAt(b + y)]).events == d.events + Drain((d.rest + y)[..ErrorAt(d.rest + y)]).events
  {
    var d := Drain(b);
    hide *;
    ErrorAtShift(b, y);
    var m := ErrorAt(b + y) - |b|;
    assert (d.rest + y)[..|d.rest| + m] == d.rest + y[..m] && (b + y)[..|b| + m] == b + y[..m];
    DrainSplit(b, y[..m]);
    AfterParts(d.events, Drain(d.rest + y[..m]));
  }

  /**
   * Of stream `b` the read that completes the first error ends at `q`, so that the error swallows
   * the bytes up to there; `more` are the reads after it.
   */
  ghost predicate Swallows(b: Bytes, served: Drained, q: nat, more: seq<Bytes>, max: nat) {
    var p := ErrorAt(b);
    && p <= q <= |b| && q < p + max && Cuts(more, b[q..], max)
    && served == After(Drain(b[..p]).events, Serve([], more))
  }

  lemma SwallowsNow(b: Bytes, a: seq<Bytes>, max: nat)
    requires !Clean(Drain(b).events) && Bounded(a, max)
    requires ErrorAt(b + Stream(a)) < |b + Stream(a)| && |b| < ErrorAt(b + Stream(a)) + max
    ensures Swallows(b + Stream(a), After(Drain(b).events, Serve(Drain(b).rest, a)), |b|, a, max)
  {
    hide Drain, Clean, ErrorAt, Serve, Stream;
    ErrorInPrefix(b, Stream(a));
    assert (b + Stream(a))[|b|..] == Stream(a);
  }

  lemma SwallowsLater(b: Bytes, y: Bytes, served: Drained, q: nat, more: seq<Bytes>, max: nat)
    requires Clean(Drain(b).events) && Swallows(Drain(b).rest + y, served, q, more, max)
    ensures var d := Drain(b);
            q >= |d.rest| && Swallows(b + y, After(d.events, served), |b| + (q - |d.rest|), more, max)
  {
    hide Drain, Clean, ErrorAt, Serve;
    var d := Drain(b);
    ErrorComesLater(b, y, q);
    ErrorAtShift(b, y);
    AfterAfter(d.events, Drain((d.rest + y)[..ErrorAt(d.rest + y)]).events, Serve([], more));
  }

  lemma FirstRead(pending: Bytes, a: seq<Bytes>, max: nat)
    requires Stream(a) != [] && Bounded(a, max)
    ensures a != [] && 0 < |a[0]| <= max && Bounded(a[1..], max)
    ensures pending + Stream(a) == (pending + a[0]) + Stream(a[1..])
  {
  }

  /** In any cutting some read completes the first error and takes at most `max - 1` bytes with it. */
  lemma {:induction false} ErrorSwallows(pending: Bytes, a: seq<Bytes>, max: nat) returns (q: nat, more: seq<Bytes>)
    requires Parse(pending).NeedMore? && Bounded(a, max)
    requires ErrorAt(pending + Stream(a)) < |pending + Stream(a)|
    ensures Swallows(pending + Stream(a), Serve(pending, a), q, more, max)
    decreases a
  {
    hide *;
    PendingShows(pending, Stream(a));
    FirstRead(pending, a, max);
    ServeStep(pending, a);
    var b, y := pending + a[0], Stream(a[1..]);
    if Clean(Drain(b).events) {
      var rest := Drain(b).rest;
      ErrorAtShift(b, y);
      RestIsIncomplete(b);
      q, more := ErrorSwallows(rest, a[1..], max);
      SwallowsLater(b, y, Serve(rest, a[1..]), q, more, max);
      q := |b| + (q - |rest|);
    } else {
      q, more := |b|, a[1..];
      SwallowsNow(b, more, max);
    }
  }

  // ---- freedom, step by step ----

  lemma FreeIsResult(b: Bytes, max: nat)
    requires max > 0
    ensures ChunkingFree(b, max) <==> forall a | Cuts(a, b, max) :: Serve([], a) == Result(b)
  {
    BytewiseCuts(b, max);
  }

  lemma BytewiseServes(b: Bytes, max: nat)
    requires max > 0
    ensures Cuts(Bytewise(b), b, max) && Serve([], Bytewise(b)) == Result(b)
  {
    BytewiseCuts(b, max);
  }

  /** The same for a whole stream. */
  lemma StreamSwallows(b: Bytes, a: seq<Bytes>, max: nat) returns (q: nat, more: seq<Bytes>)
    requires Cuts(a, b, max) && ErrorAt(b) < |b|
    ensures var p := ErrorAt(b);
            && p <= q <= |b| && q < p + max && Cuts(more, b[q..], max)
            && Serve([], a) == After(Drain(b[..p]).events, Serve([], more))
  {
    NothingPends();
    assert [] + Stream(a) == b;
    hide Drain, ErrorAt, Parse, Serve;
    q, more := ErrorSwallows([], a, max);
  }

  lemma BytewiseIsResult(b: Bytes, a: seq<Bytes>)
    requires Cuts(a, b, 1)
    ensures Serve([], a) == Result(b)
  {
    BytewiseUnique([], a);
  }

  /** One byte after the other, a stream is served error by error. */
  lemma ResultStep(b: Bytes)
    requires ErrorAt(b) < |b|
    ensures Result(b) == After(Drain(b[..ErrorAt(b)]).events, Result(b[ErrorAt(b)..]))
  {
    hide *;
    BytewiseServes(b, 1);
    var q, more := StreamSwallows(b, Bytewise(b), 1);
    BytewiseIsResult(b[q..], more);
  }

  /** A read completing the first error of `b` ends at `q`. */
  ghost predicate EndsAt(b: Bytes, q: nat, u: Bytes, w: Bytes) {
    && q <= |b| && u + w == b[..q] && Clean(Drain(u).events) && !Clean(Drain(u + w).events)
    && Drain(u + w).events == Drain(b[..ErrorAt(b)]).events
  }

  lemma EndsAtIs(b: Bytes, q: nat, u: Bytes, w: Bytes)
    requires q <= |b| && u + w == b[..q] && Clean(Drain(u).events) && !Clean(Drain(b[..q]).events)
    requires Drain(b[..q]).events == Drain(b[..ErrorAt(b)]).events
    ensures EndsAt(b, q, u, w)
  {
    hide Drain, Clean, ErrorAt;
  }

  lemma ErrorEndsAt(b: Bytes, q: nat) returns (u: Bytes, w: Bytes)
    requires ErrorAt(b) < |b| && ErrorAt(b) <= q <= |b|
    ensures EndsAt(b, q, u, w) && |u| + 1 == ErrorAt(b)
  {
    hide *;
    ErrorAtFacts(b);
    var p := ErrorAt(b);
    u, w := b[..p - 1], b[p - 1..q];
    assert b[..q][..p] == b[..p] && u + w == b[..q];
    PrefixFails(b[..q], p);
    EndsAtIs(b, q, u, w);
  }

  lemma AfterCancels(events: seq<Event>, d: Drained, d': Drained)
    requires After(events, d) == After(events, d')
    ensures d == d'
  {
    assert d.events == (events + d.events)[|events|..];
    assert d'.events == (events + d'.events)[|events|..];
  }

  /** Reads with the first error completed at `q`, then `more`. */
  lemma CuttingAt(b: Bytes, q: nat, u: Bytes, w: Bytes, more: seq<Bytes>, max: nat)
    requires q <= |b| && EndsAt(b, q, u, w) && 0 < |w| <= max && Cuts(more, b[q..], max)
    ensures Cuts(Cutting(u, w, more), b, max)
    ensures Serve([], Cutting(u, w, more)) == After(Drain(b[..ErrorAt(b)]).events, Serve([], more))
  {
    CuttingServes(u, w, more, max);
    assert b == b[..q] + b[q..];
  }

  lemma FreeApplies(b: Bytes, max: nat, a: seq<Bytes>, a': seq<Bytes>)
    requires ChunkingFree(b, max) && Cuts(a, b, max) && Cuts(a', b, max)
    ensures Serve([], a) == Serve([], a')
  {
  }

  lemma SizeOf(b: Bytes, q: nat, u: Bytes, w: Bytes)
    requires q <= |b| && EndsAt(b, q, u, w)
    ensures |u| + |w| == q
  {
    assert |u + w| == q;
  }

  /** If a stream is free, so is all that a read completing its first error may leave. */
  lemma FreeDown(b: Bytes, max: nat, q: nat)
    requires ChunkingFree(b, max) && ErrorAt(b) < |b| && ErrorAt(b) <= q <= |b| && q < ErrorAt(b) + max
    ensures ChunkingFree(b[q..], max) && Result(b[q..]) == Result(b[ErrorAt(b)..])
  {
    var p := ErrorAt(b);
    var u, w := ErrorEndsAt(b, q);
    var u0, w0 := ErrorEndsAt(b, p);
    SizeOf(b, q, u, w);
    SizeOf(b, p, u0, w0);
    var first := Drain(b[..p]).events;
    hide Drain, Clean, ErrorAt, Cutting, Cuts, EndsAt, Serve, Result, Bytewise;
    forall a, a' | Cuts(a, b[q..], max) && Cuts(a', b[q..], max) ensures Serve([], a) == Serve([], a') {
      CuttingAt(b, q, u, w, a, max);
      CuttingAt(b, q, u, w, a', max);
      FreeApplies(b, max, Cutting(u, w, a), Cutting(u, w, a'));
      AfterCancels(first, Serve([], a), Serve([], a'));
    }
    BytewiseServes(b[q..], max);
    BytewiseServes(b[p..], max);
    CuttingAt(b, q, u, w, Bytewise(b[q..]), max);
    CuttingAt(b, p, u0, w0, Bytewise(b[p..]), max);
    FreeApplies(b, max, Cutting(u, w, Bytewise(b[q..])), Cutting(u0, w0, Bytewise(b[p..])));
    AfterCancels(first, Result(b[q..]), Result(b[p..]));
  }

  /** Whatever a read completing the first error may leave is free and served like the rest. */
  ghost predicate SameAfterError(b: Bytes, max: nat) {
    var p := ErrorAt(b);
    forall q | p <= q <= |b| && q < p + max :: ChunkingFree(b[q..], max) && Result(b[q..]) == Result(b[p..])
  }

  lemma FreeByOne(b: Bytes, max: nat, d: Drained)
    requires forall a | Cuts(a, b, max) :: Serve([], a) == d
    ensures ChunkingFree(b, max)
  {
  }

  lemma FreeUp(b: Bytes, max: nat)
    requires max > 0 && ErrorAt(b) < |b| && SameAfterError(b, max)
    ensures ChunkingFree(b, max)
  {
    var p := ErrorAt(b);
    var d := After(Drain(b[..p]).events, Result(b[p..]));
    hide Drain, ErrorAt, ChunkingFree, Result, Cuts;
    forall a | Cuts(a, b, max) ensures Serve([], a) == d {
      var q, more := StreamSwallows(b, a, max);
      FreeIsResult(b[q..], max);
    }
    FreeByOne(b, max, d);
  }

  lemma WholeFront(b: Bytes)
    requires ErrorAt(b) == |b|
    ensures b == [] || Clean(Drain(Front(b)).events)
  {
  }

  /** Without an error before the last byte a stream is free, and served as one drain. */
  lemma WholeIsFree(b: Bytes, max: nat)
    requires ErrorAt(b) == |b|
    ensures ChunkingFree(b, max) && Result(b) == Drain(b)
  {
    WholeFront(b);
    NothingPends();
    BytewiseCuts(b, 1);
    hide Drain, ErrorAt, Parse, Clean;
    assert [] + b == b;
    forall a | Stream(a) == b ensures Serve([], a) == Drain(b) {
      ServeIsWholeDrain([], a);
    }
  }

  lemma DrainGarbage(b: Bytes)
    requires b != [] && !IsTag(b[0])
    ensures Drain(b) == Drained([Reject(UnknownType(b[0]))], [])
  {
  }

  // ---- what a result shows ----

  lemma FirstOfCut(events: seq<Event>)
    ensures UpToReject(events) != [] ==> events != [] && events[0] == UpToReject(events)[0]
  {
  }

  /** The first event of a result is the first outcome of the parser. */
  lemma FirstEvent(x: Bytes)
    ensures var r := Parse(x);
            var events := Result(x).events;
            if r.NeedMore? then Result(x) == Drained([], x)
            else events != [] && events[0] == (if r.Parsed? then Dispatch(r.value) else Reject(r.error))
  {
    NothingPends();
    BytewiseCuts(x, 1);
    CleanCases();
    ServeIsDrain([], Bytewise(x));
    DrainStep(x);
    assert [] + x == x;
    var d := Drain(x);
    hide Drain, Clean, Parse, Serve;
    if Parse(x).Parsed? {
      AfterParts([Dispatch(Parse(x).value)], Drain(x[Parse(x).consumed..]));
    }
    FirstOfCut(Result(x).events);
  }

  lemma ResultOfNothing()
    ensures Result([]) == Drained([], [])
  {
  }

  lemma ResultShows(x: Bytes)
    requires x != []
    ensures Result(x) != Drained([], [])
  {
    FirstEvent(x);
  }

  // ---- the first line ----

  /** End of the first line, its CRLF included. */
  function LineEnd(x: Bytes): (n: nat)
    requires FindCrlf(x).Some?
    ensures 2 <= n <= |x|
  {
    FindCrlf(x).value + 2
  }

  lemma LineCut(x: Bytes, n: nat)
    requires n <= |x| && FindCrlf(x).Some?
    ensures if n < LineEnd(x) then FindCrlf(x[..n]).None? else FindCrlf(x[..n]) == FindCrlf(x)
  {
    var y := x[..n];
    var p := FindCrlf(x).value;
    var r := FindCrlf(y);
    assert r.Some? ==> x[r.value] == CR && x[r.value + 1] == LF;
    if n >= p + 2 {
      assert y[p] == CR && y[p + 1] == LF;
    }
  }

  lemma LineShown(x: Bytes)
    requires x != [] && IsTag(x[0]) && FindCrlf(x).Some? && ParseHead(x).Stop? && ParseHead(x).outcome.Fail?
    ensures Parse(x[..LineEnd(x)]).Fail?
  {
    var n := LineEnd(x);
    LineCut(x, n);
    assert x[..n][1..n - 2] == x[1..n - 2];
    assert ParseLine(x[..n]) == ParseLine(x);
  }

  lemma LineHidden(x: Bytes)
    requires x != [] && IsTag(x[0]) && FindCrlf(x).Some?
    ensures Parse(x[..LineEnd(x) - 1]).NeedMore?
  {
    LineCut(x, LineEnd(x) - 1);
  }

  lemma CleanOrNot(b: Bytes)
    ensures Parse(b).NeedMore? ==> Clean(Drain(b).events)
    ensures Parse(b).Fail? ==> !Clean(Drain(b).events)
  {
    hide Parse;
    DrainStep(b);
    CleanCases();
  }

  /** An error in the first line shows when the line is complete. */
  lemma LineErrorAt(x: Bytes)
    requires x != [] && IsTag(x[0]) && FindCrlf(x).Some? && ParseHead(x).Stop? && ParseHead(x).outcome.Fail?
    ensures ErrorAt(x) == LineEnd(x)
  {
    hide *;
    LineShown(x);
    LineHidden(x);
    CleanOrNot(x[..LineEnd(x)]);
    CleanOrNot(x[..LineEnd(x) - 1]);
    ErrorAtIs(x, LineEnd(x));
  }

  /** A byte that is no type byte is an error at once. */
  lemma GarbageErrorAt(x: Bytes)
    requires x != [] && !IsTag(x[0])
    ensures ErrorAt(x) == 1 && Parse(x) == Fail(UnknownType(x[0]))
    ensures Drain(x[..1]).events == [Reject(UnknownType(x[0]))]
  {
    CleanCases();
    DrainGarbage(x[..1]);
    EmptyIsClean();
    assert x[..0] == [];
    hide Drain, Clean;
    ErrorAtIs(x, 1);
  }

  /** The first line after leaving out one type byte more. */
  lemma NextLine(x: Bytes)
    requires |x| > 1 && x[0] != CR && x[1] != CR && FindCrlf(x).Some?
    ensures FindCrlf(x[1..]) == Some(FindCrlf(x).value - 1) && FindCrlf(x).value > 1
  {
    var p, y := FindCrlf(x).value, x[1..];
    assert y[p - 1] == CR && y[p] == LF;
    var r := FindCrlf(y);
    assert x[r.value + 1] == y[r.value] && x[r.value + 2] == y[r.value + 1];
  }

  lemma Utf8Tail(s: Bytes)
    requires s != [] && s[0] < 0x80
    ensures Utf8.Valid(s) <==> Utf8.Valid(s[1..])
  {
  }

  /** Both `x` and `x[1..]` begin with a type byte: their first lines end together. */
  lemma TwoTags(x: Bytes)
    requires |x| > 1 && IsTag(x[0]) && IsTag(x[1])
    ensures ParseLine(x).LineMore? <==> ParseLine(x[1..]).LineMore?
    ensures ParseLine(x).LineFail? <==> ParseLine(x[1..]).LineFail?
    ensures ParseLine(x).Line? ==>
              var l := ParseLine(x);
              l.text != [] && l.text[0] == x[1] && ParseLine(x[1..]) == Line(l.text[1..], l.next - 1)
  {
    var y := x[1..];
    if FindCrlf(x).Some? {
      NextLine(x);
      var p := FindCrlf(x).value;
      assert y[1..p - 1] == x[1..p][1..];
      Utf8Tail(x[1..p]);
    } else {
      assert forall i | 0 <= i < |y| :: y[i] == x[i + 1];
    }
  }

  /** A number starts with a sign or a digit, and after a digit there are only digits. */
  lemma NumberStart(s: Bytes)
    requires ParseI64(s).Some?
    ensures s != [] && (s[0] == PLUS || s[0] == MINUS || IsDigit(s[0]))
    ensures IsDigit(s[0]) && |s| > 1 ==> IsDigit(s[1])
  {
  }

  predicate IsText(v: RespValue) { v.SimpleString? || v.Error? }

  /** The value at the front of `x` by its type byte: the line itself, or something with a number in it. */
  lemma ValueKind(x: Bytes)
    requires Parse(x).Parsed?
    ensures x != [] && IsTag(x[0]) && ParseLine(x).Line?
    ensures var v, l := Parse(x).value, ParseLine(x).text;
            if x[0] == T_SIMPLE then v == SimpleString(l)
            else if x[0] == T_ERROR then v == Error(l)
            else !IsText(v) && ParseI64(l).Some?
  {
  }

  /** Two readings that start one byte apart never yield the same value. */
  lemma ValuesDiffer(x: Bytes)
    requires |x| > 1 && Parse(x).Parsed? && Parse(x[1..]).Parsed?
    ensures Parse(x).value != Parse(x[1..]).value
  {
    ValueKind(x);
    ValueKind(x[1..]);
    TwoTags(x);
    var l := ParseLine(x).text;
    if ParseI64(l).Some? {
      NumberStart(l);
    }
    hide Parse, ParseLine, ParseI64;
    assert |l[1..]| < |l|;
  }

  /** The error at the front of `x` by its type byte. */
  lemma ErrorKind(x: Bytes)
    requires x != [] && IsTag(x[0]) && Parse(x).Fail?
    ensures var e, r := Parse(x).error, ParseLine(x);
            && !r.LineMore?
            && (r.LineFail? ==> e == NonUtf8Line)
            && (r.Line? && ParseI64(r.text).None? ==>
                  && ParseHead(x) == Stop(Fail(e)) && (x[0] == T_INTEGER || x[0] == T_BULK || x[0] == T_ARRAY)
                  && e == (if x[0] == T_INTEGER then InvalidInteger(r.text)
                           else if x[0] == T_BULK then InvalidBulkLength(r.text) else InvalidArrayLength(r.text)))
            && (r.Line? && ParseI64(r.text).Some? ==>
                  x[0] == T_ARRAY && ParseI64(r.text).value > 0 && r.next <= |x| && Parse(x[r.next..]) != NeedMore
                  && (Parse(x[r.next..]).Fail? ==> Parse(x[r.next..]).error == e))
  {
    var r := ParseLine(x);
    if r.Line? && ParseI64(r.text).Some? && x[0] == T_ARRAY && ParseI64(r.text).value >= 0 {
      ItemsStep(x[r.next..], ParseI64(r.text).value);
    }
  }

  // ---- when dropping one more byte makes no difference ----

  /** `x` and `x` without its first byte are both free and served with the same result. */
  ghost predicate Slides(x: Bytes, max: nat) {
    x != [] && ChunkingFree(x, max) && ChunkingFree(x[1..], max) && Result(x) == Result(x[1..])
  }

  /** A type byte and a first line that is complete but not text. */
  predicate BadFirstLine(x: Bytes) { x != [] && IsTag(x[0]) && ParseLine(x).LineFail? }

  /** ... which itself starts with a type byte. */
  predicate BadLine(x: Bytes) { |x| > 1 && IsTag(x[1]) && BadFirstLine(x) }

  /** Of a free stream that fails at `p` with more to come, the rest slides. */
  lemma FreeSlides(x: Bytes, max: nat)
    requires max > 1 && ChunkingFree(x, max) && ErrorAt(x) < |x|
    ensures var z := x[ErrorAt(x)..];
            && Slides(z, max) && ErrorAt(x) + max <= |x|
  {
    var p := ErrorAt(x);
    hide ChunkingFree, ErrorAt, Result;
    FreeDown(x, max, p);
    FreeDown(x, max, p + 1);
    assert x[p + 1..] == x[p..][1..];
    if |x| < p + max {
      FreeDown(x, max, |x|);
      assert x[|x|..] == [];
      ResultOfNothing();
      ResultShows(x[p..]);
    }
  }

  lemma LastByteShows(x: Bytes)
    requires x != []
    ensures |x| == 1 ==> Result(x) != Result(x[1..])
  {
    ResultOfNothing();
    ResultShows(x);
    if |x| == 1 {
      assert x[1..] == [];
    }
  }

  lemma SlideOutcomes(x: Bytes)
    requires x != [] && Result(x) == Result(x[1..])
    ensures |x| > 1 && Parse(x).Fail? && Parse(x[1..]) == Fail(Parse(x).error)
  {
    FirstEvent(x);
    FirstEvent(x[1..]);
    LastByteShows(x);
    if Parse(x).Parsed? && Parse(x[1..]).Parsed? {
      ValuesDiffer(x);
    }
  }

  /** A byte that is no type byte costs one more error. */
  lemma GarbageDoesNotSlide(x: Bytes)
    requires x != [] && !IsTag(x[0])
    ensures Result(x) != Result(x[1..])
  {
    GarbageErrorAt(x);
    if |x| == 1 {
      assert x[1..] == [];
      ResultOfNothing();
      ResultShows(x);
    } else {
      ResultStep(x);
      assert |Result(x).events| == 1 + |Result(x[1..]).events|;
    }
  }

  lemma BadLineFails(x: Bytes)
    requires BadLine(x)
    ensures Parse(x) == Fail(NonUtf8Line)
  {
  }

  /** A first line that starts with a type byte other than a sign is no number. */
  lemma NoNumberAfterTag(x: Bytes)
    requires |x| > 1 && IsTag(x[0]) && IsTag(x[1]) && ParseLine(x).Line? && Parse(x[1..]).Fail?
    ensures ParseI64(ParseLine(x).text).None?
  {
    TwoTags(x);
    ErrorKind(x[1..]);
    var l := ParseLine(x).text;
    if ParseI64(l).Some? {
      NumberStart(l);
    }
  }

  /** A count starts with a sign or a digit, and what follows the digit is no type byte. */
  lemma CountLine(x: Bytes)
    requires |x| > 1 && IsTag(x[0]) && !IsTag(x[1]) && ParseLine(x).Line? && ParseI64(ParseLine(x).text).Some?
    ensures |x| > 2 && !IsTag(x[2])
  {
    var l := ParseLine(x);
    NumberStart(l.text);
    assert l.text[0] == x[1];
    assert |l.text| > 1 ==> l.text[1] == x[2];
  }

  lemma LineEndIs(x: Bytes)
    requires x != [] && IsTag(x[0]) && ParseLine(x).Line?
    ensures FindCrlf(x).Some? && LineEnd(x) == ParseLine(x).next
  {
  }

  lemma AtEnd(x: Bytes)
    ensures Parse(x[|x|..]).NeedMore?
  {
  }

  lemma BadLineIs(x: Bytes)
    requires |x| > 1 && IsTag(x[0]) && IsTag(x[1]) && ParseLine(x).LineFail?
    ensures BadLine(x)
  {
  }

  lemma BadLineTags(x: Bytes)
    requires BadLine(x)
    ensures x != [] && IsTag(x[0])
  {
  }

  /** Only a stream with a bad first line can lose its first byte unnoticed. */
  lemma {:induction false} SlidesIsBadLine(x: Bytes, max: nat)
    requires max > 1 && Slides(x, max)
    ensures BadLine(x)
    decreases |x|
  {
    SlideOutcomes(x);
    var y, e := x[1..], Parse(x).error;
    var free, free' := ChunkingFree(x, max), ChunkingFree(y, max);
    if !IsTag(x[0]) {
      GarbageDoesNotSlide(x);
    }
    ErrorKind(x);
    hide Parse, ParseLine, ParseI64, ParseHead, ErrorAt, ChunkingFree, Result, Slides, BadLine;
    var l := ParseLine(x);
    if IsTag(x[1]) {
      ErrorKind(y);
      TwoTags(x);
      if l.Line? {
        NoNumberAfterTag(x);
        assert y[l.next - 1..] == x[l.next..];
        assert |l.text[1..]| < |l.text|;
        LineEndIs(x);
        LineErrorAt(x);
        AtEnd(x);
        FreeSlides(x, max);
        SlidesIsBadLine(x[l.next..], max);
        BadLineFails(x[l.next..]);
        assert false;
      } else {
        BadLineIs(x);
      }
    } else {
      GarbageErrorAt(y);
      CountLine(x);
      FreeSlides(y, max);
      SlidesIsBadLine(y[1..], max);
      BadLineTags(y[1..]);
      assert false;
    }
  }

  // ---- exactly when chunking does not matter ----

  /**
   * No error shows before the last byte; or the first error is followed by as many type bytes as a
   * read could take with it, these begin a line that is complete but not text, so that wherever
   * the next read starts the same error follows, and the same holds of the rest.
   */
  predicate Forgiving(b: Bytes, max: nat)
    decreases |b|
  {
    var p := ErrorAt(b);
    p == |b|
    || (&& p > 0 && p + max <= |b| && (forall i | p <= i < p + max :: IsTag(b[i]))
        && BadFirstLine(b[p..]) && Forgiving(b[p..], max))
  }

  lemma BadLineEvents(x: Bytes)
    requires BadFirstLine(x)
    ensures Drain(x[..LineEnd(x)]).events == [Reject(NonUtf8Line)]
  {
    var n := LineEnd(x);
    LineCut(x, n);
    assert x[..n][1..n - 2] == x[1..n - 2];
    assert Parse(x[..n]) == Fail(NonUtf8Line);
    DrainStep(x[..n]);
  }

  /** A bad line behind type bytes is the same bad line wherever among them reading starts. */
  lemma {:induction false} BadLineSlides(c: Bytes, i: nat)
    requires i < |c| && (forall j | 0 <= j <= i :: IsTag(c[j])) && BadFirstLine(c)
    ensures var y := c[i..];
            && BadFirstLine(y) && ErrorAt(c) == ErrorAt(y) + i && 0 < ErrorAt(y)
            && Drain(y[..ErrorAt(y)]).events == [Reject(NonUtf8Line)]
  {
    if i == 0 {
      assert c[0..] == c;
      LineErrorAt(c);
      BadLineEvents(c);
    } else {
      assert c[1..][i - 1..] == c[i..];
      TwoTags(c);
      NextLine(c);
      LineErrorAt(c);
      LineErrorAt(c[1..]);
      BadLineSlides(c[1..], i - 1);
    }
  }

  lemma FailsWhole(b: Bytes)
    requires ErrorAt(b) == |b| && Drain(b[..ErrorAt(b)]).events == [Reject(NonUtf8Line)]
    ensures Result(b) == Drained([Reject(NonUtf8Line)], [])
  {
    CleanCases();
    assert b[..|b|] == b;
    FailureDropsRest(b);
    WholeIsFree(b, 1);
  }

  lemma TailAt(c: Bytes, y: Bytes, max: nat, t: nat)
    requires ChunkingFree(c, max) && ErrorAt(c) < |c| && c[ErrorAt(c)..] == y[ErrorAt(y)..]
    requires ErrorAt(y) <= t <= |y| && t < ErrorAt(y) + max
    ensures ChunkingFree(y[t..], max) && Result(y[t..]) == Result(y[ErrorAt(y)..])
  {
    hide *;
    var q := ErrorAt(c) + (t - ErrorAt(y));
    assert |c[ErrorAt(c)..]| == |y[ErrorAt(y)..]|;
    assert y[t..] == y[ErrorAt(y)..][t - ErrorAt(y)..] == c[q..];
    FreeDown(c, max, q);
  }

  /** Two streams that fail alike, with the same bytes after the error, are equally free. */
  lemma SameTail(c: Bytes, y: Bytes, max: nat)
    requires max > 0 && ChunkingFree(c, max) && ErrorAt(c) < |c| && ErrorAt(y) < |y|
    requires c[ErrorAt(c)..] == y[ErrorAt(y)..]
    requires Drain(c[..ErrorAt(c)]).events == Drain(y[..ErrorAt(y)]).events
    ensures ChunkingFree(y, max) && Result(y) == Result(c)
  {
    hide ChunkingFree, ErrorAt, Drain, Result;
    ResultStep(y);
    ResultStep(c);
    forall t | ErrorAt(y) <= t <= |y| && t < ErrorAt(y) + max
      ensures ChunkingFree(y[t..], max) && Result(y[t..]) == Result(y[ErrorAt(y)..])
    {
      TailAt(c, y, max, t);
    }
    FreeUp(y, max);
  }

  /** So all these starting points are equally free and served alike. */
  lemma BadLineFree(c: Bytes, max: nat, i: nat)
    requires max > 0 && ChunkingFree(c, max)
    requires i < |c| && (forall j | 0 <= j <= i :: IsTag(c[j])) && BadFirstLine(c)
    ensures ChunkingFree(c[i..], max) && Result(c[i..]) == Result(c)
  {
    var y := c[i..];
    BadLineSlides(c, i);
    BadLineSlides(c, 0);
    assert c[0..] == c;
    hide *;
    if ErrorAt(y) == |y| {
      WholeIsFree(y, max);
      FailsWhole(y);
      FailsWhole(c);
    } else {
      assert y[ErrorAt(y)..] == c[ErrorAt(c)..];
      SameTail(c, y, max);
    }
  }

  lemma {:induction false} ForgivingIsFree(b: Bytes, max: nat)
    requires max > 0 && Forgiving(b, max)
    ensures ChunkingFree(b, max)
    decreases |b|
  {
    var p := ErrorAt(b);
    hide ChunkingFree, ErrorAt, BadFirstLine;
    if p == |b| {
      WholeIsFree(b, max);
    } else {
      var c := b[p..];
      ForgivingIsFree(c, max);
      forall q | p <= q <= |b| && q < p + max ensures ChunkingFree(b[q..], max) && Result(b[q..]) == Result(c) {
        assert b[q..] == c[q - p..];
        BadLineFree(c, max, q - p);
      }
      FreeUp(b, max);
    }
  }

  lemma SlidesOn(b: Bytes, max: nat, q: nat)
    requires max > 1 && ChunkingFree(b, max) && ErrorAt(b) < |b| && ErrorAt(b) <= q && q + 1 < ErrorAt(b) + max
    requires ErrorAt(b) + max <= |b|
    ensures IsTag(b[q]) && IsTag(b[q + 1]) && BadFirstLine(b[q..])
  {
    hide ChunkingFree, ErrorAt, Result;
    FreeDown(b, max, q);
    FreeDown(b, max, q + 1);
    assert b[q + 1..] == b[q..][1..];
    SlidesIsBadLine(b[q..], max);
  }

  lemma {:induction false} FreeIsForgiving(b: Bytes, max: nat)
    requires max > 1 && ChunkingFree(b, max)
    ensures Forgiving(b, max)
    decreases |b|
  {
    var p := ErrorAt(b);
    if p < |b| {
      ErrorAtFacts(b);
      hide ChunkingFree, ErrorAt, Result, BadFirstLine;
      FreeSlides(b, max);
      FreeDown(b, max, p);
      forall i | p <= i < p + max ensures IsTag(b[i]) {
        SlidesOn(b, max, if i == p then p else i - 1);
      }
      SlidesOn(b, max, p);
      FreeIsForgiving(b[p..], max);
    }
  }

  /**
   * However a stream is cut into reads of at most `max` bytes, errors included, it is served alike
   * if and only if it is forgiving (or there is only one way to cut it).
   */
  lemma {:induction false} ChunkingFreeIff(b: Bytes, max: nat)
    requires max > 0
    ensures ChunkingFree(b, max) <==> max == 1 || Forgiving(b, max)
  {
    if max == 1 {
      forall a | Cuts(a, b, 1) ensures Serve([], a) == Result(b) {
        BytewiseUnique([], a);
      }
      FreeByOne(b, 1, Result(b));
    } else if Forgiving(b, max) {
      ForgivingIsFree(b, max);
    } else if ChunkingFree(b, max) {
      FreeIsForgiving(b, max);
    }
  }

  /** For the server's read buffer. */
  lemma {:induction false} ServerChunkingIff(b: Bytes)
    ensures ChunkingFree(b, READ_BUF_SIZE) <==> Forgiving(b, READ_BUF_SIZE)
  {
    ChunkingFreeIff(b, READ_BUF_SIZE);
  }

  /**
   * For a stream that fits one read the condition is plain: the parser shows no error before it
   * has seen the last byte. For a longer stream this is still sufficient.
   */
  lemma {:induction false} ShortStreamIff(b: Bytes, max: nat)
    requires max > 0
    ensures b == [] || Clean(Drain(Front(b)).events) ==> ChunkingFree(b, max)
    ensures |b| <= max ==> (ChunkingFree(b, max) <==> b == [] || Clean(Drain(Front(b)).events))
  {
    ChunkingFreeIff(b, max);
    if ErrorAt(b) == |b| {
      WholeIsFree(b, max);
      WholeFront(b);
    }
    hide ChunkingFree, Drain, Clean;
    if max == 1 && |b| == 1 {
      assert Front(b) == [];
      EmptyIsClean();
    }
  }

  /** A stray byte, `max` type bytes and a line end that make a bad line. */
  function Masked(max: nat): Bytes { [63] + seq(max, _ => T_SIMPLE) + [0xFF, CR, LF] }

  lemma {:induction false} NotText(n: nat)
    ensures !Utf8.Valid(seq(n, _ => T_SIMPLE) + [0xFF])
  {
    var s := seq(n, _ => T_SIMPLE) + [0xFF];
    if n > 0 {
      assert s[1..] == seq(n - 1, _ => T_SIMPLE) + [0xFF];
      NotText(n - 1);
    }
  }

  /** A longer stream may show an error early and still be served alike however it is cut. */
  lemma {:induction false} EarlyErrorMayNotMatter(max: nat)
    requires max > 0
    ensures ChunkingFree(Masked(max), max) && !Clean(Drain(Front(Masked(max))).events)
  {
    var b := Masked(max);
    var c := b[1..];
    GarbageErrorAt(b);
    assert c[|c| - 2] == CR && c[|c| - 1] == LF;
    FirstCrlf(c, max + 1);
    assert c[1..max + 1] == seq(max - 1, _ => T_SIMPLE) + [0xFF];
    NotText(max - 1);
    LineErrorAt(c);
    ForgivingIsFree(b, max);
    CleanCases();
    DrainStep(Front(b));
  }

  lemma EncodeEmptyArray()
    ensures Encode(Array([])) == [42, 48, 13, 10]
  {
  }

  lemma DrainEmptyArray(b: Bytes)
    requires b == [42, 48, 13, 10]
    ensures Drain(b) == Drained([Dispatch(Array([]))], [])
  {
    EncodeEmptyArray();
    assert b + [] == b;
    RoundTrip(Array([]), []);
    DrainStep(b);
    assert b[4..] == [];
    DrainStep([]);
  }

  /** After a protocol error chunking does matter: the discarded tail depends on the read. */
  lemma {:induction false} ChunkingMattersAfterError()
    ensures Stream([[0, 42, 48, 13, 10]]) == Stream([[0], [42, 48, 13, 10]])
    ensures Serve([], [[0, 42, 48, 13, 10]]).events == [Reject(UnknownType(0))]
    ensures Serve([], [[0], [42, 48, 13, 10]]).events == [Reject(UnknownType(0)), Dispatch(Array([]))]
  {
    var tail: Bytes := [42, 48, 13, 10];
    DrainEmptyArray(tail);
    DrainGarbage([0, 42, 48, 13, 10]);
    DrainGarbage([0]);
    StreamOfOne([0, 42, 48, 13, 10]);
    StreamOfTwo([0], tail);
    StreamOfOne(tail);
    assert [0] + tail == [0, 42, 48, 13, 10];
  }
}

/** The invariant over whole runs for any hash function, and the law `used_count` really obeys. */
module Accounting {
  import opened Bytes
  import opened SlotLayout
  import opened Table
  import opened TableProofs
  import opened Refinement
  import C = ClientModel
  import opened ClientModel

  lemma GetOccupancy(h: Hash, s: Store, key: Bytes, now: u64)
    requires Inv(h, s.cells)
    ensures var s' := C.Get(h, s, key, now).1;
            Inv(h, s'.cells) && s'.used == s.used
            && Occupancy(s'.cells) + GetWork(h, s, key, now).evictions == Occupancy(s.cells)
  {
    var c := s.cells;
    GetMeans(h, c, key, now);
    var (r, c') := Table.Get(h, c, key, now);
    if r.Expired? {
      var i :| 0 <= i < |c| && Stale(c[i], h(key), now) && c' == c[i := Tombstone];
      OccupancyUpdate(c, i, Tombstone);
    }
  }

  lemma TableSetOccupancy(h: Hash, c: seq<Cell>, key: Bytes, value: Bytes, ttl: u64, now: u64)
    requires Inv(h, c) && |key| <= MAX_KEY_LEN && |value| <= MAX_VAL_LEN
    ensures var o := Table.Set(h, c, key, value, ttl, now);
            && Occupancy(o.cells) + o.evicted == Occupancy(c) + (if o.result == Inserted then 1 else 0)
            && (o.fallback <==> o.result == Inserted && forall i | 0 <= i < |c| :: !c[i].Empty?)
  {
    var s := ScanFacts(h, c, key, now);
    SetWritesTarget(h, c, key, value, ttl, now, s);
    if Target(s).Some? {
      OccupancyUpdate(s.cells, Target(s).value, Occupied(h(key), key, value, TtlToExpiry(ttl, now)));
    }
  }

  lemma SetOccupancy(h: Hash, s: Store, key: Bytes, value: Bytes, ttl: u64, now: u64)
    requires Inv(h, s.cells)
    ensures var (r, s') := C.Set(h, s, key, value, ttl, now);
            var t := SetWork(h, s, key, value, ttl, now);
            && Inv(h, s'.cells)
            && Occupancy(s'.cells) + t.evictions == Occupancy(s.cells) + (if r == Ok(true) then 1 else 0)
            && s'.used == Wrap(s.used + (if r == Ok(true) then 1 else 0) - t.fallbacks)
  {
    if |key| <= MAX_KEY_LEN && |value| <= MAX_VAL_LEN {
      SetKeepsInv(h, s.cells, key, value, ttl, now);
      TableSetOccupancy(h, s.cells, key, value, ttl, now);
    }
  }

  lemma DelOccupancy(h: Hash, s: Store, key: Bytes)
    requires Inv(h, s.cells)
    ensures var (r, s') := C.Del(h, s, key);
            && Inv(h, s'.cells)
            && Occupancy(s'.cells) == Occupancy(s.cells) - (if r == Ok(true) then 1 else 0)
            && s'.used == Wrap(s.used - (if r == Ok(true) then 1 else 0))
  {
    var c := s.cells;
    DelMeans(h, c, key);
    var (r, c') := Table.Del(h, c, key);
    if r.Deleted? {
      var i :| 0 <= i < |c| && c[i].Occupied? && c[i].key == key && c' == c[i := Tombstone];
      OccupancyUpdate(c, i, Tombstone);
    }
  }

  /** `used_count` is the number of occupied slots plus evictions minus fallback inserts, mod 2^64. */
  ghost predicate Balanced(s: Store, t: Tally) {
    s.used == Wrap(Occupancy(s.cells) + t.evictions - t.fallbacks)
  }

  /** The tally restarts with every flush. */
  function Accumulate(t: Tally, h: Hash, s: Store, call: Call): Tally
    requires |s.cells| > 0
  {
    if call.op.OpFlush? then Tally(0, 0) else
    var w := Work(h, s, call);
    Tally(t.evictions + w.evictions, t.fallbacks + w.fallbacks)
  }

  lemma WrapStep(y: int, d: int)
    ensures Wrap(Wrap(y) + d) == Wrap(y + d)
  {
  }

  /** A call that moves counter and occupancy together keeps the balance. */
  lemma BalanceMoves(s: Store, s': Store, t: Tally, w: Tally, delta: int)
    requires Balanced(s, t)
    requires Occupancy(s'.cells) + w.evictions == Occupancy(s.cells) + delta
    requires s'.used == Wrap(s.used + delta - w.fallbacks)
    ensures Balanced(s', Tally(t.evictions + w.evictions, t.fallbacks + w.fallbacks))
  {
    WrapStep(Occupancy(s.cells) + t.evictions - t.fallbacks, delta - w.fallbacks);
  }

  /** How many entries a call added (or removed), going by its answer alone. */
  function Net(op: Op, a: Answer): int {
    if a != Flag(Ok(true)) then 0 else if op.OpSet? then 1 else if op.OpDel? then -1 else 0
  }

  lemma StepMoves(h: Hash, s: Store, call: Call)
    requires Inv(h, s.cells) && !call.op.OpFlush?
    ensures var (a, s') := Step(h, s, call);
            var w := Work(h, s, call);
            && Inv(h, s'.cells)
            && Occupancy(s'.cells) + w.evictions == Occupancy(s.cells) + Net(call.op, a)
            && s'.used == Wrap(s.used + Net(call.op, a) - w.fallbacks)
  {
    if call.op.OpGet? || call.op.OpExists? {
      GetOccupancy(h, s, call.op.key, call.now);
    } else if call.op.OpSet? {
      SetOccupancy(h, s, call.op.key, call.op.value, call.op.ttl, call.now);
    } else {
      DelOccupancy(h, s, call.op.key);
    }
  }

  lemma StepBalances(h: Hash, s: Store, t: Tally, call: Call)
    requires Inv(h, s.cells) && Balanced(s, t)
    ensures var s' := Step(h, s, call).1;
            Inv(h, s'.cells) && Balanced(s', Accumulate(t, h, s, call))
  {
    var (a, s') := Step(h, s, call);
    if call.op.OpFlush? {
      FreshIsEmptyMap(h, |s.cells|);
    } else {
      StepMoves(h, s, call);
      BalanceMoves(s, s', t, Work(h, s, call), Net(call.op, a));
    }
  }

  function RunTally(h: Hash, s: Store, t: Tally, calls: seq<Call>): Tally
    requires |s.cells| > 0
    decreases calls
  {
    if calls == [] then t else RunTally(h, Step(h, s, calls[0]).1, Accumulate(t, h, s, calls[0]), calls[1..])
  }

  /** For every hash function, every run keeps the table invariant and obeys the accounting law. */
  lemma {:induction false} RunKeepsInvAndBalance(h: Hash, s: Store, t: Tally, calls: seq<Call>)
    requires Inv(h, s.cells) && Balanced(s, t)
    ensures var s' := Run(h, s, calls).1;
            Inv(h, s'.cells) && Balanced(s', RunTally(h, s, t, calls))
    decreases calls
  {
    if calls != [] {
      StepBalances(h, s, t, calls[0]);
      RunKeepsInvAndBalance(h, Step(h, s, calls[0]).1, Accumulate(t, h, s, calls[0]), calls[1..]);
    }
  }

  /** Every SET of the run meets a table that still has an EMPTY slot. */
  ghost predicate RoomThroughout(h: Hash, s: Store, calls: seq<Call>)
    requires |s.cells| > 0
    decreases calls
  {
    calls == [] ||
    (&& (calls[0].op.OpSet? ==> exists i :: 0 <= i < |s.cells| && s.cells[i].Empty?)
     && RoomThroughout(h, Step(h, s, calls[0]).1, calls[1..]))
  }

  lemma {:induction false} RoomMeansNoFallback(h: Hash, s: Store, t: Tally, calls: seq<Call>)
    requires Inv(h, s.cells) && t.fallbacks == 0 && RoomThroughout(h, s, calls)
    ensures RunTally(h, s, t, calls).fallbacks == 0
    decreases calls
  {
    if calls != [] {
      var call := calls[0];
      if !call.op.OpFlush? {
        StepMoves(h, s, call);
      } else {
        FreshIsEmptyMap(h, |s.cells|);
      }
      if call.op.OpSet? && |call.op.key| <= MAX_KEY_LEN && |call.op.value| <= MAX_VAL_LEN {
        TableSetOccupancy(h, s.cells, call.op.key, call.op.value, call.op.ttl, call.now);
      }
      RoomMeansNoFallback(h, Step(h, s, call).1, Accumulate(t, h, s, call), calls[1..]);
    }
  }

  /** A run without evictions that never SETs into a table without EMPTY slots counts exactly. */
  lemma {:induction false} UsedCountExact(h: Hash, s: Store, calls: seq<Call>)
    requires Inv(h, s.cells) && |s.cells| < TWO64 && s.used == Occupancy(s.cells)
    requires RoomThroughout(h, s, calls) && RunTally(h, s, Tally(0, 0), calls).evictions == 0
    ensures var s' := Run(h, s, calls).1;
            s'.used == Occupancy(s'.cells) == |Contents(s'.cells)|
  {
    hide Run, RunTally, RoomThroughout, Inv, Contents;
    OccupancyBound(s.cells);
    RoomMeansNoFallback(h, s, Tally(0, 0), calls);
    RunKeepsInvAndBalance(h, s, Tally(0, 0), calls);
    ContentsSize(Run(h, s, calls).1.cells);
  }

  lemma DriftIff(n: nat, d: int)
    requires n < TWO64
    ensures Wrap(n + d) == n <==> d % TWO64 == 0
  {
  }

  /**
   * The counter agrees with the number of stored entries after a run if and only if the evictions
   * of the run and its fallback inserts cancel out modulo 2^64.
   */
  lemma {:induction false} UsedCountExactIff(h: Hash, s: Store, calls: seq<Call>)
    requires Inv(h, s.cells) && |s.cells| < TWO64 && s.used == Occupancy(s.cells)
    ensures var s' := Run(h, s, calls).1;
            var t := RunTally(h, s, Tally(0, 0), calls);
            s'.used == |Contents(s'.cells)| <==> (t.evictions - t.fallbacks) % TWO64 == 0
  {
    hide Run, RunTally, Inv, Contents;
    OccupancyBound(s.cells);
    RunKeepsInvAndBalance(h, s, Tally(0, 0), calls);
    var s' := Run(h, s, calls).1;
    ContentsSize(s'.cells);
    var t := RunTally(h, s, Tally(0, 0), calls);
    DriftIff(Occupancy(s'.cells), t.evictions - t.fallbacks);
  }

  lemma TwoCalls(h: Hash, s: Store, one: Call, two: Call)
    requires |s.cells| > 0
    ensures Run(h, s, [one, two]).1 == Step(h, Step(h, s, one).1, two).1
  {
    hide Step;
    assert [one, two][1..] == [two] && [two][1..] == [];
    var s1 := Step(h, s, one).1;
    assert Run(h, s1, [two]).1 == Run(h, Step(h, s1, two).1, []).1;
  }

  /** One eviction: a new table where an expired key was looked up counts an entry it does not hold. */
  lemma {:induction false} EvictionLeavesCountHigh(h: Hash, n: nat, key: Bytes, t: u64)
    requires n > 0 && t + 1000 < TWO64 && |key| <= MAX_KEY_LEN
    ensures var s' := Run(h, Store(Fresh(n), 0), [Call(OpSet(key, [], 1), t), Call(OpGet(key), t + 1000)]).1;
            s'.used == 1 && Occupancy(s'.cells) == 0
  {
    var p := Home(h, key, n);
    var s0 := Store(Fresh(n), 0);
    var s1 := Store(Fresh(n)[p := Claimed(h(key), key, [], t + 1000)], 1);
    var s2 := Store(Fresh(n)[p := Tombstone], 1);
    SetAtHome(h, s0.cells, key, [], 1, t);
    assert Step(h, s0, Call(OpSet(key, [], 1), t)).1 == s1;
    assert s1.cells[p := Tombstone] == s2.cells;
    assert Table.Get(h, s1.cells, key, t + 1000) == (Expired, s2.cells);
    assert Step(h, s1, Call(OpGet(key), t + 1000)).1 == s2;
    hide Step, Fresh, Claimed, Home;
    TwoCalls(h, s0, Call(OpSet(key, [], 1), t), Call(OpGet(key), t + 1000));
    FreshIsEmptyMap(h, n);
    OccupancyUpdate(s0.cells, p, Tombstone);
  }

  /** One fallback insert: a one-slot table that was filled, emptied and filled again counts nothing. */
  lemma {:induction false} FallbackLeavesCountLow(h: Hash, key: Bytes, t: u64)
    requires |key| <= MAX_KEY_LEN
    ensures var calls := [Call(OpSet(key, [], 0), t), Call(OpDel(key), t), Call(OpSet(key, [], 0), t)];
            var s' := Run(h, Store(Fresh(1), 0), calls).1;
            s'.used == 0 && Occupancy(s'.cells) == 1
  {
    var put, cut := Call(OpSet(key, [], 0), t), Call(OpDel(key), t);
    var entry := Claimed(h(key), key, [], 0);
    var s0, s1, s2, s3 := Store(Fresh(1), 0), Store([entry], 1), Store([Tombstone], 0), Store([entry], 0);
    SetAtHome(h, s0.cells, key, [], 0, t);
    assert s0.cells[0 := entry] == s1.cells;
    assert Step(h, s0, put).1 == s1;
    assert Step(h, s1, cut).1 == s2;
    SetScanStep(s2.cells, h(key), key, 0, 0, None, 0, t);
    SetScanStep(s2.cells, h(key), key, 0, 1, Some(0), 0, t);
    assert Step(h, s2, put).1 == s3;
    hide Step, Fresh, Claimed, Home;
    assert [put, cut, put][1..] == [cut, put];
    TwoCalls(h, s1, cut, put);
    OccupancyUpdate([Tombstone], 0, entry);
  }
}

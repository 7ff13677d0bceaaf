/** The table behind the client is a plain map, over whole runs. */
module Refinement {
  import opened Bytes
  import opened Probe
  import opened SlotLayout
  import opened Table
  import opened TableProofs
  import C = ClientModel
  import opened ClientModel

  ghost function Keys(c: seq<Cell>): set<Bytes> {
    set i | 0 <= i < |c| && c[i].Occupied? :: c[i].key
  }

  /** The stored entries, expired ones included. */
  ghost function Contents(c: seq<Cell>): Dict {
    map k | k in Keys(c) :: var i :| 0 <= i < |c| && c[i].Occupied? && c[i].key == k; Entry(c[i].value, c[i].expiry)
  }

  /** `Contents` and `Holds` say the same when no key is stored twice. */
  lemma ContentsIsHolds(c: seq<Cell>)
    requires NoDuplicates(c)
    ensures forall k, v, x :: Holds(c, k, v, x) <==> k in Contents(c) && Contents(c)[k] == Entry(v, x)
    ensures forall k :: Stored(c, k) <==> k in Contents(c)
  {
    forall k, v, x ensures Holds(c, k, v, x) <==> k in Contents(c) && Contents(c)[k] == Entry(v, x) {
      if k in Contents(c) {
        var i :| 0 <= i < |c| && c[i].Occupied? && c[i].key == k && Contents(c)[k] == Entry(c[i].value, c[i].expiry);
      }
    }
    forall k ensures Stored(c, k) <==> k in Contents(c) {
      assert k in Contents(c) <==> k in Keys(c);
    }
  }

  lemma ContentsFrom(c: seq<Cell>, m: Dict)
    requires NoDuplicates(c)
    requires forall k, v, x :: Holds(c, k, v, x) <==> k in m && m[k] == Entry(v, x)
    ensures Contents(c) == m
  {
    ContentsIsHolds(c);
    forall k ensures k in Contents(c) <==> k in m {
      if k in m { assert Holds(c, k, m[k].value, m[k].expiry); }
      if k in Contents(c) { assert Holds(c, k, Contents(c)[k].value, Contents(c)[k].expiry); }
    }
    forall k | k in m ensures Contents(c)[k] == m[k] {
      assert Holds(c, k, m[k].value, m[k].expiry);
    }
  }

  lemma ContentsAfterBury(c: seq<Cell>, idx: nat)
    requires NoDuplicates(c) && idx < |c| && c[idx].Occupied?
    ensures NoDuplicates(c[idx := Tombstone]) && Contents(c[idx := Tombstone]) == Contents(c) - {c[idx].key}
  {
    var c', key := c[idx := Tombstone], c[idx].key;
    ContentsIsHolds(c);
    var m := Contents(c) - {key};
    forall k, v, x ensures Holds(c', k, v, x) <==> k in m && m[k] == Entry(v, x) {
      if Holds(c', k, v, x) {
        var i :| 0 <= i < |c'| && c'[i].Occupied? && c'[i].key == k && c'[i].value == v && c'[i].expiry == x;
        assert c[i] == c'[i];
        assert Holds(c, k, v, x);
      }
      if k in m && m[k] == Entry(v, x) {
        assert Holds(c, k, v, x);
        var i :| 0 <= i < |c| && c[i].Occupied? && c[i].key == k && c[i].value == v && c[i].expiry == x;
        assert c[i] == c'[i];
      }
    }
    ContentsFrom(c', m);
  }

  // ---- counting entries ----

  lemma KeysStep(c: seq<Cell>)
    requires c != []
    ensures var p := c[..|c| - 1];
            Keys(c) == if c[|c| - 1].Occupied? then Keys(p) + {c[|c| - 1].key} else Keys(p)
  {
    var m := |c| - 1;
    var p := c[..m];
    forall k | k in Keys(p) ensures k in Keys(c) {
      var i :| 0 <= i < |p| && p[i].Occupied? && p[i].key == k;
      assert c[i].key == k;
    }
    forall k | k in Keys(c) ensures k in Keys(p) || (c[m].Occupied? && k == c[m].key) {
      var i :| 0 <= i < |c| && c[i].Occupied? && c[i].key == k;
      if i < m { assert p[i].key == k; }
    }
  }

  lemma {:induction false} KeysCount(c: seq<Cell>)
    requires NoDuplicates(c)
    ensures |Keys(c)| == Occupancy(c)
  {
    if c != [] {
      var m := |c| - 1;
      KeysCount(c[..m]);
      KeysStep(c);
      if c[m].Occupied? {
        assert c[m].key !in Keys(c[..m]);
      }
    }
  }

  lemma {:induction false} OccupancyBound(c: seq<Cell>)
    ensures Occupancy(c) <= |c|
    ensures Occupancy(c) == |c| <==> forall i | 0 <= i < |c| :: c[i].Occupied?
  {
    if c != [] {
      var p := c[..|c| - 1];
      OccupancyBound(p);
      assert forall i | 0 <= i < |p| :: p[i] == c[i];
    }
  }

  /** The map holds one entry per occupied slot, so it is full exactly when the table is. */
  lemma {:induction false} ContentsSize(c: seq<Cell>)
    requires NoDuplicates(c)
    ensures |Contents(c)| == Occupancy(c) <= |c|
    ensures |Contents(c)| == |c| <==> forall i | 0 <= i < |c| :: c[i].Occupied?
  {
    KeysCount(c);
    OccupancyBound(c);
    assert Contents(c).Keys == Keys(c);
  }

  // ---- one call ----

  /** No two distinct keys of `ks` share a fingerprint. */
  ghost predicate Separated(h: Hash, ks: set<Bytes>) {
    forall a, b :: a in ks && b in ks && h(a) == h(b) ==> a == b
  }

  ghost predicate Good(h: Hash, s: Store, ks: set<Bytes>) {
    Inv(h, s.cells) && Contents(s.cells).Keys <= ks && Separated(h, ks)
  }

  /** The key is one of `ks`, or too long and refused before the table is touched. */
  predicate Uses(key: Bytes, ks: set<Bytes>) { key in ks || |key| > MAX_KEY_LEN }

  predicate UsesAll(keys: seq<Bytes>, ks: set<Bytes>) { forall i | 0 <= i < |keys| :: Uses(keys[i], ks) }

  lemma StaleIsOwn(h: Hash, s: Store, ks: set<Bytes>, key: Bytes, now: u64, i: nat)
    requires Good(h, s, ks) && key in ks && i < |s.cells| && Stale(s.cells[i], h(key), now)
    ensures s.cells[i].key == key && key in Contents(s.cells)
    ensures Contents(s.cells)[key] == Entry(s.cells[i].value, s.cells[i].expiry)
  {
    var k := s.cells[i].key;
    ContentsIsHolds(s.cells);
    assert Holds(s.cells, k, s.cells[i].value, s.cells[i].expiry);
    assert h(k) == h(key);
  }

  lemma {:induction false} GetRefines(h: Hash, s: Store, ks: set<Bytes>, key: Bytes, now: u64)
    requires Good(h, s, ks) && Uses(key, ks)
    ensures var (r, s') := C.Get(h, s, key, now);
            var (r', m') := MapGet(Contents(s.cells), key, now);
            Good(h, s', ks) && |s'.cells| == |s.cells| && r == r' && Contents(s'.cells) == m'
  {
    if |key| <= MAX_KEY_LEN {
      var c := s.cells;
      GetMeans(h, c, key, now);
      ContentsIsHolds(c);
      var (r, c') := Table.Get(h, c, key, now);
      if r.Expired? {
        var i :| 0 <= i < |c| && Stale(c[i], h(key), now) && c' == c[i := Tombstone];
        StaleIsOwn(h, s, ks, key, now, i);
        ContentsAfterBury(c, i);
      }
    }
  }

  lemma LiveIsInMap(c: seq<Cell>, key: Bytes, now: u64)
    requires NoDuplicates(c)
    ensures Live(c, key, now) <==> key in Drop(Contents(c), key, now)
  {
    ContentsIsHolds(c);
    if Live(c, key, now) {
      var i :| 0 <= i < |c| && c[i].Occupied? && c[i].key == key && !IsExpired(c[i].expiry, now);
      assert Holds(c, key, c[i].value, c[i].expiry);
    }
    if key in Drop(Contents(c), key, now) {
      var e := Contents(c)[key];
      assert Holds(c, key, e.value, e.expiry);
    }
  }

  lemma SetFullRefines(h: Hash, s: Store, ks: set<Bytes>, key: Bytes, now: u64)
    requires Good(h, s, ks) && key in ks
    ensures (forall i | 0 <= i < |s.cells| :: Foreign(s.cells[i], key) && !Stale(s.cells[i], h(key), now))
       <==> (|Contents(s.cells)| == |s.cells| && key !in Contents(s.cells))
  {
    var c := s.cells;
    ContentsSize(c);
    ContentsIsHolds(c);
    assert key in Contents(c) <==> Stored(c, key);
    forall i: nat | i < |c| && Stale(c[i], h(key), now) ensures c[i].key == key {
      StaleIsOwn(h, s, ks, key, now, i);
    }
  }

  lemma SetContentsRefine(h: Hash, s: Store, ks: set<Bytes>, key: Bytes, value: Bytes, ttl: u64, now: u64)
    requires Good(h, s, ks) && key in ks && |key| <= MAX_KEY_LEN && |value| <= MAX_VAL_LEN
    requires Table.Set(h, s.cells, key, value, ttl, now).result != Full
    ensures Contents(Table.Set(h, s.cells, key, value, ttl, now).cells)
         == Contents(s.cells)[key := Entry(value, TtlToExpiry(ttl, now))]
  {
    var c := s.cells;
    var c' := Table.Set(h, c, key, value, ttl, now).cells;
    var e := TtlToExpiry(ttl, now);
    var m := Contents(c)[key := Entry(value, e)];
    SetKeepsInv(h, c, key, value, ttl, now);
    SetContents(h, c, key, value, ttl, now);
    ContentsIsHolds(c);
    ContentsIsHolds(c');
    forall k, v, x ensures Holds(c', k, v, x) <==> k in m && m[k] == Entry(v, x) {
      assert Holds(c', key, value, e);
      if k != key && Holds(c, k, v, x) {
        assert k in Contents(c);
        assert h(k) != h(key);
      }
    }
    ContentsFrom(c', m);
  }

  lemma {:induction false} SetRefines(h: Hash, s: Store, ks: set<Bytes>, key: Bytes, value: Bytes, ttl: u64, now: u64)
    requires Good(h, s, ks) && Uses(key, ks)
    ensures var (r, s') := C.Set(h, s, key, value, ttl, now);
            var (r', m') := MapSet(|s.cells|, Contents(s.cells), key, value, ttl, now);
            Good(h, s', ks) && |s'.cells| == |s.cells| && r == r' && Contents(s'.cells) == m'
  {
    if |key| <= MAX_KEY_LEN && |value| <= MAX_VAL_LEN {
      var c := s.cells;
      SetKeepsInv(h, c, key, value, ttl, now);
      SetResultMeaning(h, c, key, value, ttl, now);
      ContentsIsHolds(c);
      SetFullRefines(h, s, ks, key, now);
      LiveIsInMap(c, key, now);
      var o := Table.Set(h, c, key, value, ttl, now);
      if o.result != Full {
        SetContentsRefine(h, s, ks, key, value, ttl, now);
      }
    }
  }

  lemma {:induction false} DelRefines(h: Hash, s: Store, ks: set<Bytes>, key: Bytes)
    requires Good(h, s, ks)
    ensures var (r, s') := C.Del(h, s, key);
            var (r', m') := MapDel(Contents(s.cells), key);
            Good(h, s', ks) && |s'.cells| == |s.cells| && r == r' && Contents(s'.cells) == m'
  {
    if |key| <= MAX_KEY_LEN {
      var c := s.cells;
      DelMeans(h, c, key);
      ContentsIsHolds(c);
      var (r, c') := Table.Del(h, c, key);
      if r.Deleted? {
        var i :| 0 <= i < |c| && c[i].Occupied? && c[i].key == key && c' == c[i := Tombstone];
        ContentsAfterBury(c, i);
        assert Stored(c, key);
      } else {
        assert Contents(c) - {key} == Contents(c);
      }
    }
  }

  lemma {:induction false} OccupancyFresh(n: nat)
    ensures Occupancy(Fresh(n)) == 0
  {
    if n > 0 {
      assert Fresh(n)[..n - 1] == Fresh(n - 1);
      OccupancyFresh(n - 1);
    }
  }

  lemma FreshIsEmptyMap(h: Hash, n: nat)
    requires n > 0
    ensures Inv(h, Fresh(n)) && Contents(Fresh(n)) == map[] && Occupancy(Fresh(n)) == 0
  {
    OccupancyFresh(n);
    assert forall i: nat, j: nat :: !ProbedBefore(h, Fresh(n), i, j);
  }

  predicate UsesKeys(call: Call, ks: set<Bytes>) { call.op.OpFlush? || Uses(call.op.key, ks) }

  predicate RunUses(calls: seq<Call>, ks: set<Bytes>) { forall i | 0 <= i < |calls| :: UsesKeys(calls[i], ks) }

  lemma StepRefines(h: Hash, s: Store, ks: set<Bytes>, call: Call)
    requires Good(h, s, ks) && UsesKeys(call, ks)
    ensures var (a, s') := Step(h, s, call);
            var (a', m') := MapStep(|s.cells|, Contents(s.cells), call);
            Good(h, s', ks) && |s'.cells| == |s.cells| && a == a' && Contents(s'.cells) == m'
  {
    match call.op
    case OpGet(k) => GetRefines(h, s, ks, k, call.now);
    case OpExists(k) => GetRefines(h, s, ks, k, call.now);
    case OpSet(k, v, ttl) => SetRefines(h, s, ks, k, v, ttl, call.now);
    case OpDel(k) => DelRefines(h, s, ks, k);
    case OpFlush => FreshIsEmptyMap(h, |s.cells|);
  }

  // ---- whole runs ----

  function Run(h: Hash, s: Store, calls: seq<Call>): (r: (seq<Answer>, Store))
    requires |s.cells| > 0
    ensures |r.1.cells| == |s.cells|
    decreases calls
  {
    if calls == [] then ([], s) else
    var (a, s') := Step(h, s, calls[0]);
    var (rest, s'') := Run(h, s', calls[1..]);
    ([a] + rest, s'')
  }

  function MapRun(n: nat, m: Dict, calls: seq<Call>): (seq<Answer>, Dict)
    decreases calls
  {
    if calls == [] then ([], m) else
    var (a, m') := MapStep(n, m, calls[0]);
    var (rest, m'') := MapRun(n, m', calls[1..]);
    ([a] + rest, m'')
  }

  /**
   * Whole-run refinement: from any well-formed store, every run of client calls at any clock
   * readings gives exactly the answers of a plain map of capacity |cells|, provided distinct keys
   * in use have distinct fingerprints.
   */
  lemma {:induction false} RunRefinesMap(h: Hash, s: Store, ks: set<Bytes>, calls: seq<Call>)
    requires Good(h, s, ks) && RunUses(calls, ks)
    ensures var (answers, s') := Run(h, s, calls);
            var (answers', m') := MapRun(|s.cells|, Contents(s.cells), calls);
            answers == answers' && Good(h, s', ks) && Contents(s'.cells) == m'
    decreases calls
  {
    if calls != [] {
      StepRefines(h, s, ks, calls[0]);
      RunRefinesMap(h, Step(h, s, calls[0]).1, ks, calls[1..]);
    }
  }

  // ---- exactly when the table is a plain map ----

  /** The keys that fit a slot. */
  function Storable(ks: set<Bytes>): set<Bytes> { set k | k in ks && |k| <= MAX_KEY_LEN }

  /** SET into a table whose first probed slot is empty. */
  lemma SetAtHome(h: Hash, c: seq<Cell>, key: Bytes, value: Bytes, ttl: u64, now: u64)
    requires |c| > 0 && c[Home(h, key, |c|)].Empty?
    ensures var entry := Claimed(h(key), key, value, TtlToExpiry(ttl, now));
            Table.Set(h, c, key, value, ttl, now) == SetOutcome(Inserted, c[Home(h, key, |c|) := entry], 0, false)
  {
    SetScanStep(c, h(key), key, Home(h, key, |c|), 0, None, 0, now);
  }

  /** SET into a table whose first probed slot holds a live entry and whose second one is empty. */
  lemma SetBesideHome(h: Hash, c: seq<Cell>, key: Bytes, value: Bytes, ttl: u64, now: u64)
    requires |c| > 1
    requires var x := c[Home(h, key, |c|)]; x.Occupied? && x.key != key && !IsExpired(x.expiry, now)
    requires c[At(Home(h, key, |c|), 1, |c|)].Empty?
    ensures var idx := At(Home(h, key, |c|), 1, |c|);
            var entry := Claimed(h(key), key, value, TtlToExpiry(ttl, now));
            Table.Set(h, c, key, value, ttl, now) == SetOutcome(Inserted, c[idx := entry], 0, false)
  {
    SetScanStep(c, h(key), key, Home(h, key, |c|), 0, None, 0, now);
    SetScanStep(c, h(key), key, Home(h, key, |c|), 1, None, 0, now);
  }

  lemma RunStep(h: Hash, s: Store, call: Call, calls: seq<Call>)
    requires |s.cells| > 0
    ensures var (a, s') := Step(h, s, call); Run(h, s, [call] + calls).0 == [a] + Run(h, s', calls).0
  {
    hide Step;
    assert ([call] + calls)[1..] == calls;
  }

  lemma MapRunStep(n: nat, m: Dict, call: Call, calls: seq<Call>)
    ensures var (a, m') := MapStep(n, m, call); MapRun(n, m, [call] + calls).0 == [a] + MapRun(n, m', calls).0
  {
    hide MapStep;
    assert ([call] + calls)[1..] == calls;
  }

  /** SET `a` for one second, SET `b` beside it, look `b` up when `a` has expired. */
  function HidingRun(a: Bytes, b: Bytes, t: u64): seq<Call>
    requires t + 1000 < TWO64
  {
    [Call(OpSet(a, [], 1), t)] + ([Call(OpSet(b, [], 0), t)] + ([Call(OpGet(b), t + 1000)] + []))
  }

  lemma MapOfHidingRun(n: nat, a: Bytes, b: Bytes, t: u64)
    requires n > 1 && t + 1000 < TWO64 && a != b && |a| <= MAX_KEY_LEN && |b| <= MAX_KEY_LEN
    ensures MapRun(n, map[], HidingRun(a, b, t)).0 == [Flag(Ok(true)), Flag(Ok(true)), Value(Ok(Some([])))]
  {
    var s0, c0 := Call(OpSet(a, [], 1), t), Call(OpSet(b, [], 0), t);
    var g := Call(OpGet(b), t + 1000);
    var m0: Dict := map[];
    var m1: Dict := map[a := Entry([], t + 1000)];
    var m2 := m1[b := Entry([], 0)];
    assert MapStep(n, m0, s0) == (Flag(Ok(true)), m1);
    assert MapStep(n, m1, c0) == (Flag(Ok(true)), m2);
    assert MapStep(n, m2, g).0 == Value(Ok(Some([])));
    hide MapStep;
    MapRunStep(n, m0, s0, [c0] + ([g] + []));
    MapRunStep(n, m1, c0, [g] + []);
    MapRunStep(n, m2, g, []);
  }

  /** Two colliding keys, the first one expired: GET misses the live second key. */
  lemma {:induction false} CollisionHidesLiveKey(h: Hash, n: nat, a: Bytes, b: Bytes, t: u64)
    requires n > 1 && t + 1000 < TWO64 && a != b && h(a) == h(b) && |a| <= MAX_KEY_LEN && |b| <= MAX_KEY_LEN
    ensures Run(h, Store(Fresh(n), 0), HidingRun(a, b, t)).0 == [Flag(Ok(true)), Flag(Ok(true)), Value(Ok(None))]
    ensures MapRun(n, map[], HidingRun(a, b, t)).0 == [Flag(Ok(true)), Flag(Ok(true)), Value(Ok(Some([])))]
  {
    var p := Home(h, a, n);
    var s0, c0 := Call(OpSet(a, [], 1), t), Call(OpSet(b, [], 0), t);
    var g := Call(OpGet(b), t + 1000);
    var t0 := Store(Fresh(n), 0);
    var t1 := Store(t0.cells[p := Claimed(h(a), a, [], t + 1000)], 1);
    var t2 := Store(t1.cells[At(p, 1, n) := Claimed(h(b), b, [], 0)], 2);
    SetAtHome(h, t0.cells, a, [], 1, t);
    assert Step(h, t0, s0) == (Flag(Ok(true)), t1);
    SetBesideHome(h, t1.cells, b, [], 0, t);
    assert Step(h, t1, c0) == (Flag(Ok(true)), t2);
    assert Table.Get(h, t2.cells, b, t + 1000).0 == Expired;
    assert Step(h, t2, g).0 == Value(Ok(None));
    hide Step, Fresh, Claimed, Home, MapStep;
    RunStep(h, t0, s0, [c0] + ([g] + []));
    RunStep(h, t1, c0, [g] + []);
    RunStep(h, t2, g, []);
    MapOfHidingRun(n, a, b, t);
  }

  /** SET `a` for one second, then SET `b` when `a` has expired. */
  function OustingRun(a: Bytes, b: Bytes, t: u64): seq<Call>
    requires t + 1000 < TWO64
  {
    [Call(OpSet(a, [], 1), t)] + ([Call(OpSet(b, [], 0), t + 1000)] + [])
  }

  /** In a one-slot table SET evicts the expired entry of a colliding key, where the map is full. */
  lemma {:induction false} CollisionMakesRoom(h: Hash, a: Bytes, b: Bytes, t: u64)
    requires t + 1000 < TWO64 && a != b && h(a) == h(b) && |a| <= MAX_KEY_LEN && |b| <= MAX_KEY_LEN
    ensures Run(h, Store(Fresh(1), 0), OustingRun(a, b, t)).0 == [Flag(Ok(true)), Flag(Ok(true))]
    ensures MapRun(1, map[], OustingRun(a, b, t)).0 == [Flag(Ok(true)), Flag(Err(ArenaFull(1)))]
  {
    var s0, c0 := Call(OpSet(a, [], 1), t), Call(OpSet(b, [], 0), t + 1000);
    var t0 := Store(Fresh(1), 0);
    var t1 := Store([Claimed(h(a), a, [], t + 1000)], 1);
    SetAtHome(h, t0.cells, a, [], 1, t);
    assert t0.cells[0 := t1.cells[0]] == t1.cells;
    assert Step(h, t0, s0) == (Flag(Ok(true)), t1);
    SetScanStep(t1.cells, h(b), b, 0, 0, None, 0, t + 1000);
    SetScanStep(t1.cells[0 := Tombstone], h(b), b, 0, 1, Some(0), 1, t + 1000);
    assert Step(h, t1, c0).0 == Flag(Ok(true));
    var m0: Dict := map[];
    var m1: Dict := map[a := Entry([], t + 1000)];
    assert MapStep(1, m0, s0) == (Flag(Ok(true)), m1);
    assert MapStep(1, m1, c0).0 == Flag(Err(ArenaFull(1)));
    hide Step, Fresh, Claimed, Home, MapStep;
    RunStep(h, t0, s0, [c0] + []);
    RunStep(h, t1, c0, []);
    MapRunStep(1, m0, s0, [c0] + []);
    MapRunStep(1, m1, c0, []);
  }

  /** The readings of the run do not go back, and none is before `t`. */
  predicate Ordered(calls: seq<Call>, t: u64) {
    && (forall i | 0 <= i < |calls| :: t <= calls[i].now)
    && (forall i, j | 0 <= i <= j < |calls| :: calls[i].now <= calls[j].now)
  }

  /** Every run over keys of `ks` on a new table, with a clock that starts at `t`, answers as the plain map. */
  ghost predicate ActsAsMap(h: Hash, n: nat, ks: set<Bytes>, t: u64)
    requires n > 0
  {
    forall calls | RunUses(calls, ks) && Ordered(calls, t) ::
      Run(h, Store(Fresh(n), 0), calls).0 == MapRun(n, map[], calls).0
  }

  lemma FreshIsGood(h: Hash, n: nat, ks: set<Bytes>)
    requires n > 0 && Separated(h, ks)
    ensures Good(h, Store(Fresh(n), 0), ks) && Contents(Fresh(n)) == map[]
  {
    FreshIsEmptyMap(h, n);
  }

  /**
   * A new table of any size acts as a plain map on all runs over the keys `ks` if and only if no
   * two distinct storable keys of `ks` share a fingerprint. The runs have a clock that does not go
   * back and starts anywhere; separated keys are enough at arbitrary readings (`RunRefinesMap`).
   */
  lemma {:induction false} ActsAsMapIff(h: Hash, n: nat, ks: set<Bytes>, t: u64)
    requires n > 0 && t + 1000 < TWO64
    ensures ActsAsMap(h, n, ks, t) <==> Separated(h, Storable(ks))
  {
    var s := Store(Fresh(n), 0);
    if Separated(h, Storable(ks)) {
      FreshIsGood(h, n, Storable(ks));
      forall calls | RunUses(calls, ks) ensures Run(h, s, calls).0 == MapRun(n, map[], calls).0 {
        assert RunUses(calls, Storable(ks));
        RunRefinesMap(h, s, Storable(ks), calls);
      }
    } else {
      var a, b :| a in Storable(ks) && b in Storable(ks) && h(a) == h(b) && a != b;
      assert RunUses(HidingRun(a, b, t), ks) && RunUses(OustingRun(a, b, t), ks);
      assert Ordered(HidingRun(a, b, t), t) && Ordered(OustingRun(a, b, t), t);
      if n > 1 {
        CollisionHidesLiveKey(h, n, a, b, t);
        assert Run(h, s, HidingRun(a, b, t)).0[2] != MapRun(n, map[], HidingRun(a, b, t)).0[2];
      } else {
        CollisionMakesRoom(h, a, b, t);
        assert Run(h, s, OustingRun(a, b, t)).0[1] != MapRun(n, map[], OustingRun(a, b, t)).0[1];
      }
    }
  }
}

/**
 * The table invariant and what GET, SET and DEL mean for the stored entries, for every hash
 * function, collisions included.
 */
module TableProofs {
  import opened Bytes
  import opened Probe
  import opened SlotLayout
  import opened Table

  /** Every stored fingerprint is the hash of the stored key. */
  ghost predicate Consistent(h: Hash, c: seq<Cell>) {
    forall i :: 0 <= i < |c| && c[i].Occupied? ==> c[i].fp == h(c[i].key)
  }

  ghost predicate NoDuplicates(c: seq<Cell>) {
    forall i, j :: 0 <= i < |c| && 0 <= j < |c| && c[i].Occupied? && c[j].Occupied? && c[i].key == c[j].key ==> i == j
  }

  /** Slot `j` is probed before slot `i` on the way to the key stored in slot `i`. */
  ghost predicate ProbedBefore(h: Hash, c: seq<Cell>, i: nat, j: nat) {
    && i < |c| && j < |c| && c[i].Occupied?
    && Dist(Home(h, c[i].key, |c|), j, |c|) < Dist(Home(h, c[i].key, |c|), i, |c|)
  }

  /** No EMPTY slot lies between the home of a stored key and the slot that stores it. */
  ghost predicate NoHoles(h: Hash, c: seq<Cell>) {
    forall i: nat, j: nat :: ProbedBefore(h, c, i, j) ==> !c[j].Empty?
  }

  ghost predicate Inv(h: Hash, c: seq<Cell>) {
    |c| > 0 && Consistent(h, c) && NoDuplicates(c) && NoHoles(h, c)
  }

  /** The entry (value, expiry) is stored for `key`, expired or not. */
  ghost predicate Holds(c: seq<Cell>, key: Bytes, value: Bytes, expiry: u64) {
    exists i :: 0 <= i < |c| && c[i].Occupied? && c[i].key == key && c[i].value == value && c[i].expiry == expiry
  }

  ghost predicate Stored(c: seq<Cell>, key: Bytes) {
    exists i :: 0 <= i < |c| && c[i].Occupied? && c[i].key == key
  }

  ghost predicate Live(c: seq<Cell>, key: Bytes, now: u64) {
    exists i :: 0 <= i < |c| && c[i].Occupied? && c[i].key == key && !IsExpired(c[i].expiry, now)
  }

  /** The first `d` probed slots are non-empty and none of them stores `key`. */
  ghost predicate Passed(c: seq<Cell>, key: Bytes, start: nat, d: nat)
    requires start < |c|
  {
    forall j :: 0 <= j < |c| && Dist(start, j, |c|) < d ==> !c[j].Empty? && !(c[j].Occupied? && c[j].key == key)
  }

  /** A key not stored before the first empty slot of its probe path is stored nowhere. */
  lemma EmptyEndsSearch(h: Hash, c: seq<Cell>, key: Bytes, d: nat)
    requires Inv(h, c) && d <= |c| && Passed(c, key, Home(h, key, |c|), d)
    requires d < |c| ==> c[At(Home(h, key, |c|), d, |c|)].Empty?
    ensures !Stored(c, key)
  {
    var start := Home(h, key, |c|);
    if d < |c| {
      var e := At(start, d, |c|);
      forall i | 0 <= i < |c| && c[i].Occupied? && c[i].key == key ensures Dist(start, i, |c|) <= Dist(start, e, |c|) {
        assert !ProbedBefore(h, c, i, e);
      }
      assert forall i | 0 <= i < |c| && Dist(start, i, |c|) == d :: i == e;
    }
  }

  lemma PassedStep(c: seq<Cell>, key: Bytes, start: nat, d: nat)
    requires start < |c| && d < |c| && Passed(c, key, start, d)
    requires var x := c[At(start, d, |c|)]; !x.Empty? && !(x.Occupied? && x.key == key)
    ensures Passed(c, key, start, d + 1)
  {
    forall j | 0 <= j < |c| && Dist(start, j, |c|) < d + 1
      ensures !c[j].Empty? && !(c[j].Occupied? && c[j].key == key)
    {
      if Dist(start, j, |c|) == d {
        assert j == At(start, d, |c|);
      }
    }
  }

  /** Turning an occupied slot into a tombstone keeps the invariant. */
  lemma BuryKeepsInv(h: Hash, c: seq<Cell>, idx: nat)
    requires Inv(h, c) && idx < |c| && c[idx].Occupied?
    ensures Inv(h, c[idx := Tombstone])
  {
    var c' := c[idx := Tombstone];
    forall i: nat, j: nat | ProbedBefore(h, c', i, j) ensures !c'[j].Empty? {
      assert ProbedBefore(h, c, i, j);
    }
  }

  /** Writing a new key into a slot reached without crossing an empty one keeps the invariant. */
  lemma ClaimKeepsInv(h: Hash, c: seq<Cell>, idx: nat, key: Bytes, value: Bytes, expiry: u64)
    requires Inv(h, c) && idx < |c| && !c[idx].Occupied? && !Stored(c, key)
    requires Passed(c, key, Home(h, key, |c|), Dist(Home(h, key, |c|), idx, |c|))
    ensures Inv(h, c[idx := Occupied(h(key), key, value, expiry)])
  {
    var c' := c[idx := Occupied(h(key), key, value, expiry)];
    forall i, j | 0 <= i < |c'| && 0 <= j < |c'| && c'[i].Occupied? && c'[j].Occupied? && c'[i].key == c'[j].key
      ensures i == j
    {
      if i != idx { assert c[i] == c'[i]; }
      if j != idx { assert c[j] == c'[j]; }
    }
    forall i: nat, j: nat | ProbedBefore(h, c', i, j) ensures !c'[j].Empty? {
      if i != idx { assert ProbedBefore(h, c, i, j); }
    }
  }

  // ---- GET ----

  /** What GET found out: the answer, and the table it leaves behind. */
  ghost predicate GetMeaning(c: seq<Cell>, fp: u64, key: Bytes, now: u64, r: GetResult, c': seq<Cell>) {
    match r
    case Found(v) => c' == c && Live(c, key, now) && exists e :: Holds(c, key, v, e) && !IsExpired(e, now)
    case NotFound => c' == c && !Stored(c, key)
    case Expired => exists i :: 0 <= i < |c| && Stale(c[i], fp, now) && c' == c[i := Tombstone]
  }

  lemma {:induction false} GetFromMeaning(h: Hash, c: seq<Cell>, key: Bytes, d: nat, now: u64)
    requires Inv(h, c) && d <= |c| && Passed(c, key, Home(h, key, |c|), d)
    ensures var (r, c') := GetFrom(c, h(key), key, Home(h, key, |c|), d, now);
            GetMeaning(c, h(key), key, now, r, c')
    decreases |c| - d
  {
    var start := Home(h, key, |c|);
    if d == |c| || c[At(start, d, |c|)].Empty? {
      EmptyEndsSearch(h, c, key, d);
    } else {
      var idx := At(start, d, |c|);
      if Stale(c[idx], h(key), now) {
      } else if c[idx].Occupied? && c[idx].key == key {
        assert Holds(c, key, c[idx].value, c[idx].expiry);
      } else {
        PassedStep(c, key, start, d);
        GetFromMeaning(h, c, key, d + 1, now);
      }
    }
  }

  // ---- SET ----

  /** Between two tables some expired entries with fingerprint `fp` were buried, nothing else. */
  ghost predicate OnlyEvicted(c: seq<Cell>, c': seq<Cell>, fp: u64, now: u64) {
    && |c'| == |c|
    && forall i :: 0 <= i < |c| ==> c'[i] == c[i] || (Stale(c[i], fp, now) && c'[i] == Tombstone)
  }

  /** `grave` is the first tombstone among the first `d` probed slots, if there is one. */
  ghost predicate FirstGrave(c: seq<Cell>, start: nat, d: nat, grave: Option<nat>)
    requires start < |c|
  {
    && (grave.Some? ==> grave.value < |c| && c[grave.value] == Tombstone && Dist(start, grave.value, |c|) < d)
    && forall j :: 0 <= j < |c| && Dist(start, j, |c|) < (if grave.Some? then Dist(start, grave.value, |c|) else d)
                   ==> c[j] != Tombstone
  }

  ghost function StopDistance(s: Scan, start: nat): nat
    requires start < |s.cells| && (!s.stop.Exhausted? ==> s.stop.idx < |s.cells|)
  {
    if s.stop.Exhausted? then |s.cells| else Dist(start, s.stop.idx, |s.cells|)
  }

  /** No expired entry with fingerprint `fp` is left among the first `d` probed slots. */
  ghost predicate Swept(c: seq<Cell>, fp: u64, start: nat, d: nat, now: u64)
    requires start < |c|
  {
    forall j :: 0 <= j < |c| && Dist(start, j, |c|) < d ==> !Stale(c[j], fp, now)
  }

  /** How far the SET probe got and what it knows about the slots it passed. */
  ghost predicate Scanned(s: Scan, key: Bytes, start: nat, now: u64)
    requires start < |s.cells| && (!s.stop.Exhausted? ==> s.stop.idx < |s.cells|)
  {
    && Passed(s.cells, key, start, StopDistance(s, start))
    && FirstGrave(s.cells, start, StopDistance(s, start), s.grave)
    && match s.stop
       case AtEmpty(idx) => s.cells[idx].Empty?
       case AtMatch(idx) => s.cells[idx].Occupied? && s.cells[idx].key == key && !IsExpired(s.cells[idx].expiry, now)
       case Exhausted => true
  }

  /** What the SET probe knows after `d` slots: none of them ends the search. */
  ghost predicate Ready(h: Hash, c: seq<Cell>, key: Bytes, start: nat, d: nat, grave: Option<nat>) {
    start < |c| && d <= |c| && Consistent(h, c) && Passed(c, key, start, d) && FirstGrave(c, start, d, grave)
  }

  lemma ReadyStep(h: Hash, c: seq<Cell>, c': seq<Cell>, key: Bytes, start: nat, d: nat, grave: Option<nat>, idx: nat)
    requires Ready(h, c, key, start, d, grave) && d < |c| && idx == At(start, d, |c|)
    requires c' == c || (c[idx].Occupied? && c' == c[idx := Tombstone])
    requires !c'[idx].Empty? && !(c'[idx].Occupied? && c'[idx].key == key)
    ensures Ready(h, c', key, start, d + 1, if grave.None? && c'[idx].Tombstone? then Some(idx) else grave)
  {
    assert forall j | 0 <= j < |c| && Dist(start, j, |c|) == d :: j == idx;
    PassedStep(c', key, start, d);
  }

  /** One iteration of the SET probe. */
  lemma SetScanStep(c: seq<Cell>, fp: u64, key: Bytes, start: nat, d: nat, grave: Option<nat>, evicted: nat, now: u64)
    requires start < |c| && d <= |c| && (grave.Some? ==> grave.value < |c|)
    ensures var s := SetScan(c, fp, key, start, d, grave, evicted, now);
            if d == |c| then s == Scan(c, Exhausted, grave, evicted)
            else
              var idx := At(start, d, |c|);
              var x := c[idx];
              if x.Empty? then s == Scan(c, AtEmpty(idx), grave, evicted)
              else if Stale(x, fp, now) then
                s == SetScan(c[idx := Tombstone], fp, key, start, d + 1,
                             if grave.None? then Some(idx) else grave, evicted + 1, now)
              else if Matches(x, fp, key) then s == Scan(c, AtMatch(idx), grave, evicted)
              else
                s == SetScan(c, fp, key, start, d + 1,
                             if grave.None? && x.Tombstone? then Some(idx) else grave, evicted, now)
  {
  }

  lemma ReadyBounds(h: Hash, c: seq<Cell>, key: Bytes, start: nat, d: nat, grave: Option<nat>)
    requires Ready(h, c, key, start, d, grave)
    ensures start < |c| && d <= |c| && (grave.Some? ==> grave.value < |c|)
  {
  }

  /** Where the probe may stop after `d` slots. */
  lemma ReadyStops(h: Hash, c: seq<Cell>, key: Bytes, start: nat, d: nat, s: Scan, now: u64)
    requires Ready(h, c, key, start, d, s.grave) && s.cells == c
    requires if s.stop.Exhausted? then d == |c| else d < |c| && s.stop.idx == At(start, d, |c|)
    requires s.stop.AtEmpty? ==> c[s.stop.idx].Empty?
    requires s.stop.AtMatch? ==>
               var x := c[s.stop.idx]; Matches(x, h(key), key) && !Stale(x, h(key), now)
    ensures Scanned(s, key, start, now)
  {
  }

  /** An examined slot that is neither empty nor a match does not hold the key. */
  lemma PassedSlot(h: Hash, c: seq<Cell>, key: Bytes, start: nat, d: nat, grave: Option<nat>, idx: nat, now: u64)
    requires Ready(h, c, key, start, d, grave) && idx < |c|
    ensures Stale(c[idx], h(key), now) ==> c[idx].Occupied?
    ensures !Matches(c[idx], h(key), key) ==> !(c[idx].Occupied? && c[idx].key == key)
  {
  }

  /** The SET probe stops where it should, having passed nothing that matters. */
  lemma {:induction false} SetScanStops(h: Hash, c: seq<Cell>, key: Bytes, start: nat, d: nat, grave: Option<nat>,
                                        evicted: nat, now: u64)
    requires Ready(h, c, key, start, d, grave)
    ensures Scanned(SetScan(c, h(key), key, start, d, grave, evicted, now), key, start, now)
    decreases |c| - d
  {
    hide *;
    ReadyBounds(h, c, key, start, d, grave);
    var fp := h(key);
    SetScanStep(c, fp, key, start, d, grave, evicted, now);
    var s := SetScan(c, fp, key, start, d, grave, evicted, now);
    if d == |c| {
      ReadyStops(h, c, key, start, d, s, now);
    } else {
      var idx := At(start, d, |c|);
      var x := c[idx];
      var here := if grave.None? then Some(idx) else grave;
      PassedSlot(h, c, key, start, d, grave, idx, now);
      if x.Empty? || (!Stale(x, fp, now) && Matches(x, fp, key)) {
        ReadyStops(h, c, key, start, d, s, now);
      } else if Stale(x, fp, now) {
        ReadyStep(h, c, c[idx := Tombstone], key, start, d, grave, idx);
        SetScanStops(h, c[idx := Tombstone], key, start, d + 1, here, evicted + 1, now);
      } else {
        ReadyStep(h, c, c, key, start, d, grave, idx);
        SetScanStops(h, c, key, start, d + 1, if x.Tombstone? then here else grave, evicted, now);
      }
    }
  }

  lemma {:induction false} OccupancyUpdate(c: seq<Cell>, idx: nat, x: Cell)
    requires idx < |c|
    ensures Occupancy(c[idx := x])
            == Occupancy(c) - (if c[idx].Occupied? then 1 else 0) + (if x.Occupied? then 1 else 0)
  {
    var m := |c| - 1;
    if idx < m {
      assert c[idx := x][..m] == c[..m][idx := x];
      OccupancyUpdate(c[..m], idx, x);
    } else {
      assert c[idx := x][..m] == c[..m];
    }
  }

  lemma EvictedFirst(c: seq<Cell>, idx: nat, c': seq<Cell>, fp: u64, now: u64)
    requires idx < |c| && Stale(c[idx], fp, now) && OnlyEvicted(c[idx := Tombstone], c', fp, now)
    ensures OnlyEvicted(c, c', fp, now)
  {
  }

  lemma EvictedNone(c: seq<Cell>, fp: u64, now: u64)
    ensures OnlyEvicted(c, c, fp, now)
  {
  }

  lemma StaleIsOccupied(x: Cell, fp: u64, now: u64)
    ensures Stale(x, fp, now) ==> x.Occupied?
  {
  }

  /** The only effect of the SET probe is to bury expired entries, and it counts them. */
  lemma {:induction false} SetScanEvicts(c: seq<Cell>, fp: u64, key: Bytes, start: nat, d: nat, grave: Option<nat>,
                                         evicted: nat, now: u64)
    requires start < |c| && d <= |c| && (grave.Some? ==> grave.value < |c|)
    ensures var s := SetScan(c, fp, key, start, d, grave, evicted, now);
            OnlyEvicted(c, s.cells, fp, now) && s.evicted + Occupancy(s.cells) == evicted + Occupancy(c)
    decreases |c| - d
  {
    hide *;
    SetScanStep(c, fp, key, start, d, grave, evicted, now);
    EvictedNone(c, fp, now);
    if d < |c| {
      var idx := At(start, d, |c|);
      var x := c[idx];
      var here := if grave.None? then Some(idx) else grave;
      StaleIsOccupied(x, fp, now);
      if Stale(x, fp, now) {
        var c' := c[idx := Tombstone];
        OccupancyUpdate(c, idx, Tombstone);
        SetScanEvicts(c', fp, key, start, d + 1, here, evicted + 1, now);
        EvictedFirst(c, idx, SetScan(c', fp, key, start, d + 1, here, evicted + 1, now).cells, fp, now);
      } else if !x.Empty? && !Matches(x, fp, key) {
        SetScanEvicts(c, fp, key, start, d + 1, if x.Tombstone? then here else grave, evicted, now);
      }
    }
  }

  lemma SweptOn(c: seq<Cell>, c': seq<Cell>, fp: u64, start: nat, d: nat, now: u64)
    requires start < |c| && d < |c| && Swept(c, fp, start, d, now)
    requires var idx := At(start, d, |c|);
             c' == if Stale(c[idx], fp, now) then c[idx := Tombstone] else c
    ensures Swept(c', fp, start, d + 1, now)
  {
    assert forall j | 0 <= j < |c| && Dist(start, j, |c|) == d :: j == At(start, d, |c|);
  }

  lemma StopDistanceIs(s: Scan, start: nat)
    requires start < |s.cells| && (!s.stop.Exhausted? ==> s.stop.idx < |s.cells|)
    ensures StopDistance(s, start) == if s.stop.Exhausted? then |s.cells| else Dist(start, s.stop.idx, |s.cells|)
  {
  }

  /** Every expired entry with the key's fingerprint on the probed path is evicted. */
  lemma {:induction false} SetScanSweeps(c: seq<Cell>, fp: u64, key: Bytes, start: nat, d: nat, grave: Option<nat>,
                                         evicted: nat, now: u64)
    requires start < |c| && d <= |c| && (grave.Some? ==> grave.value < |c|) && Swept(c, fp, start, d, now)
    ensures var s := SetScan(c, fp, key, start, d, grave, evicted, now);
            Swept(s.cells, fp, start, StopDistance(s, start), now)
    decreases |c| - d
  {
    hide *;
    SetScanStep(c, fp, key, start, d, grave, evicted, now);
    StopDistanceIs(SetScan(c, fp, key, start, d, grave, evicted, now), start);
    if d < |c| {
      var idx := At(start, d, |c|);
      var x := c[idx];
      var here := if grave.None? then Some(idx) else grave;
      StaleIsOccupied(x, fp, now);
      SweptOn(c, if Stale(x, fp, now) then c[idx := Tombstone] else c, fp, start, d, now);
      if Stale(x, fp, now) {
        SetScanSweeps(c[idx := Tombstone], fp, key, start, d + 1, here, evicted + 1, now);
      } else if !x.Empty? && !Matches(x, fp, key) {
        SetScanSweeps(c, fp, key, start, d + 1, if x.Tombstone? then here else grave, evicted, now);
      }
    }
  }

  lemma EvictionKeepsInv(h: Hash, c: seq<Cell>, c': seq<Cell>, fp: u64, now: u64)
    requires Inv(h, c) && OnlyEvicted(c, c', fp, now)
    ensures Inv(h, c')
  {
    forall i: nat, j: nat | ProbedBefore(h, c', i, j) ensures !c'[j].Empty? {
      assert ProbedBefore(h, c, i, j);
    }
  }

  /** Everything later lemmas use about the SET probe. */
  lemma ScanFacts(h: Hash, c: seq<Cell>, key: Bytes, now: u64) returns (s: Scan)
    requires Inv(h, c)
    ensures s == SetScan(c, h(key), key, Home(h, key, |c|), 0, None, 0, now)
    ensures |s.cells| == |c| && Inv(h, s.cells) && OnlyEvicted(c, s.cells, h(key), now)
    ensures s.evicted + Occupancy(s.cells) == Occupancy(c)
    ensures Scanned(s, key, Home(h, key, |c|), now)
            && Swept(s.cells, h(key), Home(h, key, |c|), StopDistance(s, Home(h, key, |c|)), now)
    ensures !s.stop.AtMatch? ==> !Stored(s.cells, key)
  {
    var start := Home(h, key, |c|);
    s := SetScan(c, h(key), key, start, 0, None, 0, now);
    SetScanStops(h, c, key, start, 0, None, 0, now);
    SetScanSweeps(c, h(key), key, start, 0, None, 0, now);
    SetScanEvicts(c, h(key), key, start, 0, None, 0, now);
    EvictionKeepsInv(h, c, s.cells, h(key), now);
    if !s.stop.AtMatch? {
      EmptyEndsSearch(h, s.cells, key, StopDistance(s, start));
    }
  }

  /** Slot the entry of `key` is written to, if any. */
  ghost function Target(s: Scan): Option<nat> {
    if s.stop.AtMatch? then Some(s.stop.idx)
    else if s.grave.Some? then s.grave
    else if s.stop.AtEmpty? then Some(s.stop.idx)
    else None
  }

  /** SET changes the swept table in one slot only, and that slot then holds the new entry. */
  lemma SetWritesTarget(h: Hash, c: seq<Cell>, key: Bytes, value: Bytes, ttl: u64, now: u64, s: Scan)
    requires Inv(h, c) && |key| <= MAX_KEY_LEN && |value| <= MAX_VAL_LEN
    requires s == SetScan(c, h(key), key, Home(h, key, |c|), 0, None, 0, now)
    ensures var o := Set(h, c, key, value, ttl, now);
            var t := Target(s);
            && (o.result == Full <==> t.None?)
            && (o.result == Updated <==> s.stop.AtMatch?)
            && o.evicted == s.evicted
            && (t.None? ==> o.cells == s.cells)
            && (t.Some? ==>
                  && t.value < |c|
                  && o.cells == s.cells[t.value := Occupied(h(key), key, value, TtlToExpiry(ttl, now))])
            && (t.Some? && !s.stop.AtMatch? ==> !s.cells[t.value].Occupied?)
            && (s.stop.AtMatch? ==> s.cells[t.value].Occupied? && s.cells[t.value].key == key)
  {
    var s' := ScanFacts(h, c, key, now);
  }

  lemma RewriteKeepsInv(h: Hash, c: seq<Cell>, idx: nat, value: Bytes, expiry: u64)
    requires Inv(h, c) && idx < |c| && c[idx].Occupied?
    ensures Inv(h, c[idx := Occupied(h(c[idx].key), c[idx].key, value, expiry)])
  {
    var c' := c[idx := Occupied(h(c[idx].key), c[idx].key, value, expiry)];
    forall i, j | 0 <= i < |c'| && 0 <= j < |c'| && c'[i].Occupied? && c'[j].Occupied? && c'[i].key == c'[j].key
      ensures i == j
    {
      assert c[i].key == c'[i].key && c[j].key == c'[j].key;
    }
    forall i: nat, j: nat | ProbedBefore(h, c', i, j) ensures !c'[j].Empty? {
      assert ProbedBefore(h, c, i, j);
    }
  }

  /** SET keeps the table invariant, also when it evicts and then reuses an earlier tombstone. */
  lemma {:induction false} SetKeepsInv(h: Hash, c: seq<Cell>, key: Bytes, value: Bytes, ttl: u64, now: u64)
    requires Inv(h, c) && |key| <= MAX_KEY_LEN && |value| <= MAX_VAL_LEN
    ensures Inv(h, Set(h, c, key, value, ttl, now).cells)
  {
    var s := ScanFacts(h, c, key, now);
    SetWritesTarget(h, c, key, value, ttl, now, s);
    var e := TtlToExpiry(ttl, now);
    if s.stop.AtMatch? {
      RewriteKeepsInv(h, s.cells, s.stop.idx, value, e);
    } else if Target(s).Some? {
      ClaimKeepsInv(h, s.cells, Target(s).value, key, value, e);
    }
  }

  /**
   * SET for any hash function, collisions included. On success the key holds exactly the new
   * entry; every other entry survives unless it is expired and shares the key's fingerprint, and
   * nothing else appears.
   */
  lemma {:induction false} SetContents(h: Hash, c: seq<Cell>, key: Bytes, value: Bytes, ttl: u64, now: u64)
    requires Inv(h, c) && |key| <= MAX_KEY_LEN && |value| <= MAX_VAL_LEN
    ensures var o := Set(h, c, key, value, ttl, now);
            && (o.result != Full ==> Holds(o.cells, key, value, TtlToExpiry(ttl, now)))
            && (forall k, v, x | k != key && Holds(c, k, v, x) && !(h(k) == h(key) && IsExpired(x, now)) ::
                  Holds(o.cells, k, v, x))
            && (forall k, v, x | k != key && Holds(o.cells, k, v, x) :: Holds(c, k, v, x))
  {
    var s := ScanFacts(h, c, key, now);
    SetWritesTarget(h, c, key, value, ttl, now, s);
    var o := Set(h, c, key, value, ttl, now);
    var t := Target(s);
    if t.Some? {
      assert o.cells[t.value] == Occupied(h(key), key, value, TtlToExpiry(ttl, now));
    }
    forall k, v, x | k != key && Holds(c, k, v, x) && !(h(k) == h(key) && IsExpired(x, now))
      ensures Holds(o.cells, k, v, x)
    {
      var i :| 0 <= i < |c| && c[i].Occupied? && c[i].key == k && c[i].value == v && c[i].expiry == x;
      assert s.cells[i] == c[i];
      assert o.cells[i] == c[i];
    }
    forall k, v, x | k != key && Holds(o.cells, k, v, x) ensures Holds(c, k, v, x) {
      var i :| 0 <= i < |o.cells| && o.cells[i].Occupied? && o.cells[i].key == k && o.cells[i].value == v
          && o.cells[i].expiry == x;
      assert s.cells[i] == o.cells[i];
      assert c[i] == s.cells[i];
    }
  }

  /** The slot is taken by another key. */
  ghost predicate Foreign(x: Cell, key: Bytes) { x.Occupied? && x.key != key }

  lemma FullIff(h: Hash, c: seq<Cell>, key: Bytes, now: u64, s: Scan)
    requires Inv(h, c) && s == SetScan(c, h(key), key, Home(h, key, |c|), 0, None, 0, now)
    ensures Target(s).None? <==>
            forall i | 0 <= i < |c| :: Foreign(c[i], key) && !Stale(c[i], h(key), now)
    ensures Target(s).None? ==> s.cells == c
  {
    var s' := ScanFacts(h, c, key, now);
    if Target(s).None? {
      forall i | 0 <= i < |c|
        ensures Foreign(s.cells[i], key) && s.cells[i] == c[i] && !Stale(c[i], h(key), now)
      {
        assert Dist(Home(h, key, |c|), i, |c|) < |c|;
      }
    }
    if forall i | 0 <= i < |c| :: Foreign(c[i], key) && !Stale(c[i], h(key), now) {
      assert forall i | 0 <= i < |c| :: s.cells[i] == c[i];
    }
  }

  /**
   * The three results of SET, each exactly characterised by the table before the call. In
   * particular SET is refused only when no slot could take the key: all slots are occupied, by
   * other keys, and none of them is an expired entry this SET would evict.
   */
  lemma {:induction false} SetResultMeaning(h: Hash, c: seq<Cell>, key: Bytes, value: Bytes, ttl: u64, now: u64)
    requires Inv(h, c) && |key| <= MAX_KEY_LEN && |value| <= MAX_VAL_LEN
    ensures var o := Set(h, c, key, value, ttl, now);
            && (o.result == Updated <==> Live(c, key, now))
            && (o.result == Full <==>
                  forall i | 0 <= i < |c| :: Foreign(c[i], key) && !Stale(c[i], h(key), now))
            && (o.result == Full ==> o.cells == c)
  {
    var s := ScanFacts(h, c, key, now);
    SetWritesTarget(h, c, key, value, ttl, now, s);
    if Live(c, key, now) {
      var i :| 0 <= i < |c| && c[i].Occupied? && c[i].key == key && !IsExpired(c[i].expiry, now);
      assert s.cells[i] == c[i];
    }
    if s.stop.AtMatch? {
      assert c[s.stop.idx] == s.cells[s.stop.idx];
    }
    FullIff(h, c, key, now, s);
  }

  // ---- GET and DEL from the top ----

  /** GET: `Found` is the live value, `NotFound` means stored nowhere, `Expired` buries one dead entry. */
  lemma {:induction false} GetMeans(h: Hash, c: seq<Cell>, key: Bytes, now: u64)
    requires Inv(h, c)
    ensures var (r, c') := Get(h, c, key, now);
            GetMeaning(c, h(key), key, now, r, c') && Inv(h, c')
  {
    GetFromMeaning(h, c, key, 0, now);
    var (r, c') := Get(h, c, key, now);
    if r.Expired? {
      var i :| 0 <= i < |c| && Stale(c[i], h(key), now) && c' == c[i := Tombstone];
      BuryKeepsInv(h, c, i);
    }
  }

  lemma {:induction false} GetFromFoundIff(h: Hash, c: seq<Cell>, key: Bytes, i: nat, d: nat, now: u64)
    requires Inv(h, c) && i < |c| && c[i].Occupied? && c[i].key == key && !IsExpired(c[i].expiry, now)
    requires d <= Dist(Home(h, key, |c|), i, |c|) && Swept(c, h(key), Home(h, key, |c|), d, now)
    ensures var start := Home(h, key, |c|);
            var r := GetFrom(c, h(key), key, start, d, now).0;
            if exists j :: 0 <= j < |c| && Stale(c[j], h(key), now) && Dist(start, j, |c|) < Dist(start, i, |c|)
            then r == Expired else r == Found(c[i].value)
    decreases |c| - d
  {
    var start := Home(h, key, |c|);
    var idx := At(start, d, |c|);
    assert forall j | 0 <= j < |c| && Dist(start, j, |c|) == d :: j == idx;
    if idx != i {
      assert ProbedBefore(h, c, i, idx);
      if !Stale(c[idx], h(key), now) {
        assert !Matches(c[idx], h(key), key);
        GetFromFoundIff(h, c, key, i, d + 1, now);
      }
    }
  }

  /**
   * When GET misses a live key: exactly when an expired entry with the same fingerprint is probed
   * before it, because expiry is tested before the full key is compared.
   */
  lemma {:induction false} GetFoundIff(h: Hash, c: seq<Cell>, key: Bytes, i: nat, now: u64)
    requires Inv(h, c) && i < |c| && c[i].Occupied? && c[i].key == key && !IsExpired(c[i].expiry, now)
    ensures var start := Home(h, key, |c|);
            var r := Get(h, c, key, now).0;
            if exists j :: 0 <= j < |c| && Stale(c[j], h(key), now) && Dist(start, j, |c|) < Dist(start, i, |c|)
            then r == Expired else r == Found(c[i].value)
  {
    GetFromFoundIff(h, c, key, i, 0, now);
  }

  /** An expired entry with fingerprint `fp` is stored somewhere. */
  ghost predicate AnyStale(c: seq<Cell>, fp: u64, now: u64) { exists i :: 0 <= i < |c| && Stale(c[i], fp, now) }

  lemma {:induction false} GetFromMissIff(h: Hash, c: seq<Cell>, key: Bytes, d: nat, now: u64)
    requires Inv(h, c) && !Live(c, key, now) && d <= |c| && Swept(c, h(key), Home(h, key, |c|), d, now)
    ensures GetFrom(c, h(key), key, Home(h, key, |c|), d, now).0
            == if AnyStale(c, h(key), now) then Expired else NotFound
    decreases |c| - d
  {
    var start := Home(h, key, |c|);
    if d < |c| {
      var idx := At(start, d, |c|);
      assert forall j | 0 <= j < |c| && Dist(start, j, |c|) == d :: j == idx;
      if c[idx].Empty? {
        forall i | 0 <= i < |c| ensures !Stale(c[i], h(key), now) {
          assert !ProbedBefore(h, c, i, idx);
        }
      } else if !Stale(c[idx], h(key), now) {
        GetFromMissIff(h, c, key, d + 1, now);
      }
    }
  }

  /** GET of a key that is not live answers `Expired` exactly when any expired entry shares its fingerprint. */
  lemma {:induction false} GetMissIff(h: Hash, c: seq<Cell>, key: Bytes, now: u64)
    requires Inv(h, c) && !Live(c, key, now)
    ensures Get(h, c, key, now).0 == if AnyStale(c, h(key), now) then Expired else NotFound
  {
    GetFromMissIff(h, c, key, 0, now);
  }

  /** Number of slots with an expired entry of fingerprint `fp`. */
  function StaleCount(c: seq<Cell>, fp: u64, now: u64): nat {
    if c == [] then 0 else StaleCount(c[..|c| - 1], fp, now) + (if Stale(c[|c| - 1], fp, now) then 1 else 0)
  }

  lemma {:induction false} StaleCountUpdate(c: seq<Cell>, idx: nat, fp: u64, now: u64)
    requires idx < |c| && Stale(c[idx], fp, now)
    ensures StaleCount(c[idx := Tombstone], fp, now) == StaleCount(c, fp, now) - 1
  {
    var m := |c| - 1;
    if idx < m {
      assert c[idx := Tombstone][..m] == c[..m][idx := Tombstone];
      StaleCountUpdate(c[..m], idx, fp, now);
    } else {
      assert c[idx := Tombstone][..m] == c[..m];
    }
  }

  /** GET repeated at one instant until it stops answering `Expired`, at most `tries` more times. */
  function GetRetrying(h: Hash, c: seq<Cell>, key: Bytes, now: u64, tries: nat): (r: (GetResult, seq<Cell>))
    requires |c| > 0
    ensures |r.1| == |c|
    decreases tries
  {
    var (r, c') := Get(h, c, key, now);
    if r.Expired? && tries > 0 then GetRetrying(h, c', key, now, tries - 1) else (r, c')
  }

  /** Entries that are live at `now` are the same in both tables. */
  ghost predicate SameLive(c: seq<Cell>, c': seq<Cell>, now: u64) {
    forall k, v, x | !IsExpired(x, now) :: Holds(c, k, v, x) <==> Holds(c', k, v, x)
  }

  lemma BuryKeepsLive(c: seq<Cell>, idx: nat, fp: u64, now: u64)
    requires idx < |c| && Stale(c[idx], fp, now)
    ensures SameLive(c, c[idx := Tombstone], now)
  {
    var c' := c[idx := Tombstone];
    forall k, v, x | !IsExpired(x, now) ensures Holds(c, k, v, x) <==> Holds(c', k, v, x) {
      if Holds(c, k, v, x) {
        var i :| 0 <= i < |c| && c[i].Occupied? && c[i].key == k && c[i].value == v && c[i].expiry == x;
        assert c'[i] == c[i];
      }
      if Holds(c', k, v, x) {
        var i :| 0 <= i < |c'| && c'[i].Occupied? && c'[i].key == k && c'[i].value == v && c'[i].expiry == x;
        assert c'[i] == c[i];
      }
    }
  }

  /**
   * Each `Expired` removes one entry, so with as many retries as there are expired slots sharing
   * the fingerprint GET reaches the truth: `Found(v)` exactly for the live value, else `NotFound`.
   */
  lemma {:induction false} RetryingGetIsExact(h: Hash, c: seq<Cell>, key: Bytes, now: u64, tries: nat)
    requires Inv(h, c) && tries >= StaleCount(c, h(key), now)
    ensures var (r, c') := GetRetrying(h, c, key, now, tries);
            && Inv(h, c') && SameLive(c, c', now) && r != Expired
            && (r.Found? ==> exists x :: Holds(c, key, r.value, x) && !IsExpired(x, now))
            && (r == NotFound ==> forall v, x | !IsExpired(x, now) :: !Holds(c, key, v, x))
    decreases tries
  {
    GetMeans(h, c, key, now);
    var (r, c') := Get(h, c, key, now);
    if r.Expired? {
      var i :| 0 <= i < |c| && Stale(c[i], h(key), now) && c' == c[i := Tombstone];
      StaleCountUpdate(c, i, h(key), now);
      BuryKeepsLive(c, i, h(key), now);
      RetryingGetIsExact(h, c', key, now, tries - 1);
    }
  }

  /** DEL: the key's one entry, expired or not, becomes a tombstone; a missing key changes nothing. */
  ghost predicate DelMeaning(c: seq<Cell>, key: Bytes, r: DelResult, c': seq<Cell>) {
    match r
    case Deleted => exists i :: 0 <= i < |c| && c[i].Occupied? && c[i].key == key && c' == c[i := Tombstone]
    case Missing => c' == c && !Stored(c, key)
  }

  lemma {:induction false} DelFromMeaning(h: Hash, c: seq<Cell>, key: Bytes, d: nat)
    requires Inv(h, c) && d <= |c| && Passed(c, key, Home(h, key, |c|), d)
    ensures var (r, c') := DelFrom(c, h(key), key, Home(h, key, |c|), d);
            DelMeaning(c, key, r, c')
    decreases |c| - d
  {
    var start := Home(h, key, |c|);
    if d == |c| || c[At(start, d, |c|)].Empty? {
      EmptyEndsSearch(h, c, key, d);
    } else if !Matches(c[At(start, d, |c|)], h(key), key) {
      PassedStep(c, key, start, d);
      DelFromMeaning(h, c, key, d + 1);
    }
  }

  lemma {:induction false} DelMeans(h: Hash, c: seq<Cell>, key: Bytes)
    requires Inv(h, c)
    ensures var (r, c') := Del(h, c, key);
            DelMeaning(c, key, r, c') && Inv(h, c') && !Stored(c', key)
  {
    DelFromMeaning(h, c, key, 0);
    var (r, c') := Del(h, c, key);
    if r.Deleted? {
      var i :| 0 <= i < |c| && c[i].Occupied? && c[i].key == key && c' == c[i := Tombstone];
      BuryKeepsInv(h, c, i);
    }
  }
}

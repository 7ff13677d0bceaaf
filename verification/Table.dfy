/**
 * The open-addressing table as a value: what GET, SET, DEL and FLUSH compute from a sequence of
 * cells. A cell is a slot with its buffers already read; the residue of an empty or deleted slot
 * is not observable and is dropped.
 */
module Table {
  import opened Bytes
  import opened Probe
  import opened SlotLayout

  datatype Cell = Empty | Tombstone | Occupied(fp: u64, key: Bytes, value: Bytes, expiry: u64)

  datatype GetResult = Found(value: Bytes) | NotFound | Expired
  datatype SetResult = Inserted | Updated | Full
  datatype DelResult = Deleted | Missing

  /** The arena: its cells and the header's approximate `used_count`. */
  datatype Store = Store(cells: seq<Cell>, used: u64)

  type Hash = Bytes -> u64

  /** The clock reading at each of a sequence of table operations; nothing is assumed about them. */
  type Clock = nat -> u64

  /** Absolute expiry for a relative TTL; 0 stands for "never". Wraps as unsigned 64-bit. */
  function TtlToExpiry(ttl: u64, now: u64): u64 {
    if ttl == 0 then 0 else Wrap(now + ttl * 1000)
  }

  predicate IsExpired(expiry: u64, now: u64) { expiry != 0 && now >= expiry }

  predicate Stale(x: Cell, fp: u64, now: u64) {
    x.Occupied? && x.fp == fp && IsExpired(x.expiry, now)
  }

  predicate Matches(x: Cell, fp: u64, key: Bytes) {
    x.Occupied? && x.fp == fp && x.key == key
  }

  function Home(h: Hash, key: Bytes, n: nat): (r: nat)
    requires n > 0
    ensures r < n
  {
    h(key) % n
  }

  // ---- GET ----

  function GetFrom(c: seq<Cell>, fp: u64, key: Bytes, start: nat, d: nat, now: u64): (r: (GetResult, seq<Cell>))
    requires start < |c| && d <= |c|
    ensures |r.1| == |c|
    decreases |c| - d
  {
    if d == |c| then (NotFound, c) else
    var idx := At(start, d, |c|);
    if c[idx].Empty? then (NotFound, c)
    else if Stale(c[idx], fp, now) then (Expired, c[idx := Tombstone])
    else if Matches(c[idx], fp, key) then (Found(c[idx].value), c)
    else GetFrom(c, fp, key, start, d + 1, now)
  }

  function Get(h: Hash, c: seq<Cell>, key: Bytes, now: u64): (r: (GetResult, seq<Cell>))
    requires |c| > 0
    ensures |r.1| == |c|
  {
    GetFrom(c, h(key), key, Home(h, key, |c|), 0, now)
  }

  // ---- SET ----

  /** Where the SET probe stopped: at an empty slot, at a live entry of the key, or nowhere. */
  datatype Stop = AtEmpty(idx: nat) | AtMatch(idx: nat) | Exhausted

  /** State of the SET probe when it stops; `evicted` counts the expired entries it removed. */
  datatype Scan = Scan(cells: seq<Cell>, stop: Stop, grave: Option<nat>, evicted: nat)

  function SetScan(c: seq<Cell>, fp: u64, key: Bytes, start: nat, d: nat, grave: Option<nat>, evicted: nat,
                   now: u64): (s: Scan)
    requires start < |c| && d <= |c|
    requires grave.Some? ==> grave.value < |c|
    ensures |s.cells| == |c|
    ensures s.grave.Some? ==> s.grave.value < |c|
    ensures !s.stop.Exhausted? ==> s.stop.idx < |c|
    ensures s.stop.AtMatch? ==> s.cells[s.stop.idx].Occupied?
    decreases |c| - d
  {
    if d == |c| then Scan(c, Exhausted, grave, evicted) else
    var idx := At(start, d, |c|);
    if c[idx].Empty? then Scan(c, AtEmpty(idx), grave, evicted)
    else if !Stale(c[idx], fp, now) && Matches(c[idx], fp, key) then Scan(c, AtMatch(idx), grave, evicted)
    else
      var c' := if Stale(c[idx], fp, now) then c[idx := Tombstone] else c;
      var grave' := if grave.None? && c'[idx].Tombstone? then Some(idx) else grave;
      SetScan(c', fp, key, start, d + 1, grave', if Stale(c[idx], fp, now) then evicted + 1 else evicted, now)
  }

  /** A claimed cell: buffers hold at most their capacity, the fingerprint is of the full key. */
  function Claimed(fp: u64, key: Bytes, value: Bytes, expiry: u64): Cell {
    Occupied(fp, Clip(key, MAX_KEY_LEN), Clip(value, MAX_VAL_LEN), expiry)
  }

  /**
   * Outcome of SET. `fallback` says that the insert reused a tombstone after a full scan, the one
   * insert that leaves `used_count` alone.
   */
  datatype SetOutcome = SetOutcome(result: SetResult, cells: seq<Cell>, evicted: nat, fallback: bool)

  function Conclude(s: Scan, fp: u64, key: Bytes, value: Bytes, expiry: u64): (o: SetOutcome)
    requires s.grave.Some? ==> s.grave.value < |s.cells|
    requires !s.stop.Exhausted? ==> s.stop.idx < |s.cells|
    requires s.stop.AtMatch? ==> s.cells[s.stop.idx].Occupied?
    ensures |o.cells| == |s.cells|
  {
    var entry := Claimed(fp, key, value, expiry);
    match s.stop
    case AtEmpty(idx) =>
      var target := if s.grave.Some? then s.grave.value else idx;
      SetOutcome(Inserted, s.cells[target := entry], s.evicted, false)
    case AtMatch(idx) =>
      SetOutcome(Updated, s.cells[idx := s.cells[idx].(value := Clip(value, MAX_VAL_LEN), expiry := expiry)],
          s.evicted, false)
    case Exhausted =>
      if s.grave.Some? then SetOutcome(Inserted, s.cells[s.grave.value := entry], s.evicted, true)
      else SetOutcome(Full, s.cells, s.evicted, false)
  }

  function Set(h: Hash, c: seq<Cell>, key: Bytes, value: Bytes, ttl: u64, now: u64): (o: SetOutcome)
    requires |c| > 0
    ensures |o.cells| == |c|
  {
    var s := SetScan(c, h(key), key, Home(h, key, |c|), 0, None, 0, now);
    Conclude(s, h(key), key, value, TtlToExpiry(ttl, now))
  }

  // ---- DEL ----

  /** DEL looks only at fingerprint and key: an expired entry is deleted like any other. */
  function DelFrom(c: seq<Cell>, fp: u64, key: Bytes, start: nat, d: nat): (r: (DelResult, seq<Cell>))
    requires start < |c| && d <= |c|
    ensures |r.1| == |c|
    decreases |c| - d
  {
    if d == |c| then (Missing, c) else
    var idx := At(start, d, |c|);
    if c[idx].Empty? then (Missing, c)
    else if Matches(c[idx], fp, key) then (Deleted, c[idx := Tombstone])
    else DelFrom(c, fp, key, start, d + 1)
  }

  function Del(h: Hash, c: seq<Cell>, key: Bytes): (r: (DelResult, seq<Cell>))
    requires |c| > 0
    ensures |r.1| == |c|
  {
    DelFrom(c, h(key), key, Home(h, key, |c|), 0)
  }

  // ---- FLUSH ----

  function Fresh(n: nat): seq<Cell> { seq(n, _ => Empty) }

  function Occupancy(c: seq<Cell>): nat {
    if c == [] then 0 else Occupancy(c[..|c| - 1]) + (if c[|c| - 1].Occupied? then 1 else 0)
  }
}

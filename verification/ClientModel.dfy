/**
 * The client operations as functions on the store, and the plain map they are meant to be.
 * Keys and values that do not fit a slot are refused before the table is touched.
 */
module ClientModel {
  import opened Bytes
  import opened SlotLayout
  import opened Table
  import opened Decimal
  import Utf8

  datatype ClientError = ArenaFull(slots: nat) | KeyTooLong(len: nat) | ValueTooLong(len: nat)
  datatype Result<+T> = Ok(value: T) | Err(error: ClientError)

  /** What one call did behind the scenes: lazy evictions and inserts that skipped the counter. */
  datatype Tally = Tally(evictions: nat, fallbacks: nat)

  function GetWork(h: Hash, s: Store, key: Bytes, now: u64): Tally
    requires |s.cells| > 0
  {
    Tally(if |key| <= MAX_KEY_LEN && Table.Get(h, s.cells, key, now).0.Expired? then 1 else 0, 0)
  }

  function Get(h: Hash, s: Store, key: Bytes, now: u64): (r: (Result<Option<Bytes>>, Store))
    requires |s.cells| > 0
    ensures |r.1.cells| == |s.cells|
  {
    if |key| > MAX_KEY_LEN then (Err(KeyTooLong(|key|)), s) else
    var (r, c) := Table.Get(h, s.cells, key, now);
    (Ok(if r.Found? then Some(r.value) else None), s.(cells := c))
  }

  function SetWork(h: Hash, s: Store, key: Bytes, value: Bytes, ttl: u64, now: u64): Tally
    requires |s.cells| > 0
  {
    if |key| > MAX_KEY_LEN || |value| > MAX_VAL_LEN then Tally(0, 0) else
    var o := Table.Set(h, s.cells, key, value, ttl, now);
    Tally(o.evicted, if o.fallback then 1 else 0)
  }

  function Set(h: Hash, s: Store, key: Bytes, value: Bytes, ttl: u64, now: u64): (r: (Result<bool>, Store))
    requires |s.cells| > 0
    ensures |r.1.cells| == |s.cells|
  {
    if |key| > MAX_KEY_LEN then (Err(KeyTooLong(|key|)), s)
    else if |value| > MAX_VAL_LEN then (Err(ValueTooLong(|value|)), s) else
    var o := Table.Set(h, s.cells, key, value, ttl, now);
    var used := if o.result == Inserted && !o.fallback then Wrap(s.used + 1) else s.used;
    (match o.result case Inserted => Ok(true) case Updated => Ok(false) case Full => Err(ArenaFull(|s.cells|)),
     Store(o.cells, used))
  }

  function Del(h: Hash, s: Store, key: Bytes): (r: (Result<bool>, Store))
    requires |s.cells| > 0
    ensures |r.1.cells| == |s.cells|
  {
    if |key| > MAX_KEY_LEN then (Err(KeyTooLong(|key|)), s) else
    var (r, c) := Table.Del(h, s.cells, key);
    (Ok(r == Deleted), Store(c, if r == Deleted then Wrap(s.used - 1) else s.used))
  }

  function Exists(h: Hash, s: Store, key: Bytes, now: u64): (r: (Result<bool>, Store))
    requires |s.cells| > 0
    ensures |r.1.cells| == |s.cells|
  {
    var (r, s') := Get(h, s, key, now);
    (match r case Ok(v) => Ok(v.Some?) case Err(e) => Err(e), s')
  }

  function Flush(s: Store): Store { Store(Fresh(|s.cells|), 0) }

  // ---- batches and counters ----

  /** MGET: one GET per key, in order, the i-th at reading k + i; each may evict. Stops at the first error. */
  function Mget(h: Hash, s: Store, keys: seq<Bytes>, clock: Clock, k: nat): (r: (Result<seq<Option<Bytes>>>, Store))
    requires |s.cells| > 0
    ensures |r.1.cells| == |s.cells|
    decreases keys
  {
    if keys == [] then (Ok([]), s) else
    var (a, s1) := Get(h, s, keys[0], clock(k));
    if a.Err? then (Err(a.error), s1) else
    var (rest, s2) := Mget(h, s1, keys[1..], clock, k + 1);
    (if rest.Err? then Err(rest.error) else Ok([a.value] + rest.value), s2)
  }

  /** MSET: one SET per pair, in order; the first error ends it and keeps the earlier writes. */
  function Mset(h: Hash, s: Store, pairs: seq<(Bytes, Bytes)>, ttl: u64,
                clock: Clock, k: nat): (r: (Result<nat>, Store))
    requires |s.cells| > 0
    ensures |r.1.cells| == |s.cells|
    decreases pairs
  {
    if pairs == [] then (Ok(0), s) else
    var (a, s1) := Set(h, s, pairs[0].0, pairs[0].1, ttl, clock(k));
    if a.Err? then (Err(a.error), s1) else
    var (rest, s2) := Mset(h, s1, pairs[1..], ttl, clock, k + 1);
    (if rest.Err? then Err(rest.error) else Ok(rest.value + 1), s2)
  }

  /** The number a stored text stands for; anything that is not a u64 counts as 0. */
  function Number(text: Option<Bytes>): u64 {
    if text.None? || !Utf8.Valid(text.value) then 0 else
    match ParseU64(text.value) case Some(n) => n case None => 0
  }

  /** Read, change, print, write back without expiry. Two table accesses, two clock readings. */
  function Bump(h: Hash, s: Store, key: Bytes, next: u64 -> u64, nowGet: u64, nowSet: u64): (r: (Result<u64>, Store))
    requires |s.cells| > 0
    ensures |r.1.cells| == |s.cells|
  {
    var (current, s1) := Get(h, s, key, nowGet);
    if current.Err? then (Err(current.error), s1) else
    var n := next(Number(current.value));
    var (written, s2) := Set(h, s1, key, PrintNat(n), 0, nowSet);
    (if written.Err? then Err(written.error) else Ok(n), s2)
  }

  function Increment(n: u64): u64 { Wrap(n + 1) }

  function Decrement(n: u64): u64 { if n == 0 then 0 else n - 1 }

  function Incr(h: Hash, s: Store, key: Bytes, nowGet: u64, nowSet: u64): (r: (Result<u64>, Store))
    requires |s.cells| > 0
    ensures |r.1.cells| == |s.cells|
  {
    Bump(h, s, key, Increment, nowGet, nowSet)
  }

  function Decr(h: Hash, s: Store, key: Bytes, nowGet: u64, nowSet: u64): (r: (Result<u64>, Store))
    requires |s.cells| > 0
    ensures |r.1.cells| == |s.cells|
  {
    Bump(h, s, key, Decrement, nowGet, nowSet)
  }

  // ---- the plain map ----

  datatype Entry = Entry(value: Bytes, expiry: u64)
  type Dict = map<Bytes, Entry>

  /** GET and SET drop an expired entry of their own key before anything else. */
  function Drop(m: Dict, key: Bytes, now: u64): Dict {
    if key in m && IsExpired(m[key].expiry, now) then m - {key} else m
  }

  function MapGet(m: Dict, key: Bytes, now: u64): (Result<Option<Bytes>>, Dict) {
    if |key| > MAX_KEY_LEN then (Err(KeyTooLong(|key|)), m) else
    var m' := Drop(m, key, now);
    (Ok(if key in m' then Some(m'[key].value) else None), m')
  }

  function MapSet(n: nat, m: Dict, key: Bytes, value: Bytes, ttl: u64, now: u64): (Result<bool>, Dict) {
    if |key| > MAX_KEY_LEN then (Err(KeyTooLong(|key|)), m)
    else if |value| > MAX_VAL_LEN then (Err(ValueTooLong(|value|)), m)
    else if |m| == n && key !in m then (Err(ArenaFull(n)), m)
    else (Ok(key !in Drop(m, key, now)), m[key := Entry(value, TtlToExpiry(ttl, now))])
  }

  function MapDel(m: Dict, key: Bytes): (Result<bool>, Dict) {
    if |key| > MAX_KEY_LEN then (Err(KeyTooLong(|key|)), m) else (Ok(key in m), m - {key})
  }

  function MapExists(m: Dict, key: Bytes, now: u64): (Result<bool>, Dict) {
    var (r, m') := MapGet(m, key, now);
    (match r case Ok(v) => Ok(v.Some?) case Err(e) => Err(e), m')
  }

  // ---- runs ----

  datatype Op =
    | OpGet(key: Bytes)
    | OpSet(key: Bytes, value: Bytes, ttl: u64)
    | OpDel(key: Bytes)
    | OpExists(key: Bytes)
    | OpFlush

  datatype Answer = Value(result: Result<Option<Bytes>>) | Flag(outcome: Result<bool>) | Done

  /** One client call at one clock reading. */
  datatype Call = Call(op: Op, now: u64)

  function Step(h: Hash, s: Store, call: Call): (r: (Answer, Store))
    requires |s.cells| > 0
    ensures |r.1.cells| == |s.cells|
  {
    match call.op
    case OpGet(k) => var (r, s') := Get(h, s, k, call.now); (Value(r), s')
    case OpSet(k, v, ttl) => var (r, s') := Set(h, s, k, v, ttl, call.now); (Flag(r), s')
    case OpDel(k) => var (r, s') := Del(h, s, k); (Flag(r), s')
    case OpExists(k) => var (r, s') := Exists(h, s, k, call.now); (Flag(r), s')
    case OpFlush => (Done, Flush(s))
  }

  function MapStep(n: nat, m: Dict, call: Call): (Answer, Dict) {
    match call.op
    case OpGet(k) => var (r, m') := MapGet(m, k, call.now); (Value(r), m')
    case OpSet(k, v, ttl) => var (r, m') := MapSet(n, m, k, v, ttl, call.now); (Flag(r), m')
    case OpDel(k) => var (r, m') := MapDel(m, k); (Flag(r), m')
    case OpExists(k) => var (r, m') := MapExists(m, k, call.now); (Flag(r), m')
    case OpFlush => (Done, map[])
  }

  function Work(h: Hash, s: Store, call: Call): Tally
    requires |s.cells| > 0
  {
    match call.op
    case OpGet(k) => GetWork(h, s, k, call.now)
    case OpExists(k) => GetWork(h, s, k, call.now)
    case OpSet(k, v, ttl) => SetWork(h, s, k, v, ttl, call.now)
    case OpDel(_) => Tally(0, 0)
    case OpFlush => Tally(0, 0)
  }
}

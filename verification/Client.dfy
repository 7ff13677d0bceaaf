/** The client object: length guards in front of one shared arena. */
module Client {
  import opened Bytes
  import opened Decimal
  import opened SlotLayout
  import opened Table
  import opened ClientModel
  import A = Arena
  import M = ClientModel
  import T = Table
  import opened Probe
  import SipHash

  const SLOT_COUNT: nat := 65536

  lemma SlotCountIsPowerOfTwo()
    ensures Pow2(16) == SLOT_COUNT
  {
    assert Pow2(4) == 16;
    assert Pow2(8) == 16 * Pow2(4);
    assert Pow2(12) == 16 * Pow2(8);
    assert Pow2(16) == 16 * Pow2(12);
  }

  class Client {
    const arena: A.Arena

    ghost predicate Valid() { arena.Valid() }

    ghost function Store(): (s: T.Store)
      reads arena, arena.slots
      ensures Valid() ==> |s.cells| > 0
    {
      arena.Contents()
    }

    constructor (arena: A.Arena)
      requires arena.Valid()
      ensures Valid() && this.arena == arena
    {
      this.arena := arena;
    }

    method Get(key: Bytes, now: u64) returns (r: Result<Option<Bytes>>)
      requires Valid()
      modifies arena, arena.slots
      ensures (r, Store()) == M.Get(arena.hash, old(Store()), key, now)
    {
      if |key| > MAX_KEY_LEN {
        return Err(KeyTooLong(|key|));
      }
      var found := arena.Get(key, now);
      match found {
        case Found(v) => r := Ok(Some(v));
        case NotFound => r := Ok(None);
        case Expired => r := Ok(None);
      }
    }

    method Set(key: Bytes, value: Bytes, ttl: u64, now: u64) returns (r: Result<bool>)
      requires Valid()
      modifies arena, arena.slots
      ensures (r, Store()) == M.Set(arena.hash, old(Store()), key, value, ttl, now)
    {
      if |key| > MAX_KEY_LEN {
        return Err(KeyTooLong(|key|));
      }
      if |value| > MAX_VAL_LEN {
        return Err(ValueTooLong(|value|));
      }
      var done := arena.Set(key, value, ttl, now);
      match done {
        case Inserted => r := Ok(true);
        case Updated => r := Ok(false);
        case Full => r := Err(ArenaFull(arena.slots.Length));
      }
    }

    method Del(key: Bytes) returns (r: Result<bool>)
      requires Valid()
      modifies arena, arena.slots
      ensures (r, Store()) == M.Del(arena.hash, old(Store()), key)
    {
      if |key| > MAX_KEY_LEN {
        return Err(KeyTooLong(|key|));
      }
      var done := arena.Del(key);
      r := Ok(done == Deleted);
    }

    method Exists(key: Bytes, now: u64) returns (r: Result<bool>)
      requires Valid()
      modifies arena, arena.slots
      ensures (r, Store()) == M.Exists(arena.hash, old(Store()), key, now)
    {
      if |key| > MAX_KEY_LEN {
        return Err(KeyTooLong(|key|));
      }
      var found := arena.Get(key, now);
      r := Ok(found.Found?);
    }

    method FlushAll()
      requires Valid()
      modifies arena, arena.slots
      ensures Store() == M.Flush(old(Store()))
    {
      arena.FlushAll();
    }

    method Mget(keys: seq<Bytes>, clock: Clock) returns (r: Result<seq<Option<Bytes>>>)
      requires Valid()
      modifies arena, arena.slots
      ensures (r, Store()) == M.Mget(arena.hash, old(Store()), keys, clock, 0)
    {
      hide M.Get;
      var values: seq<Option<Bytes>> := [];
      var i := 0;
      ghost var all := M.Mget(arena.hash, Store(), keys, clock, 0);
      assert keys[0..] == keys;
      assert all.0.Ok? ==> values + all.0.value == all.0.value;
      while i < |keys|
        invariant 0 <= i <= |keys|
        invariant var rest := M.Mget(arena.hash, Store(), keys[i..], clock, i);
                  all == (if rest.0.Err? then Err(rest.0.error) else Ok(values + rest.0.value), rest.1)
      {
        assert keys[i..][1..] == keys[i + 1..];
        ghost var rest := M.Mget(arena.hash, Store(), keys[i..], clock, i);
        var one := Get(keys[i], clock(i));
        if one.Err? {
          return Err(one.error);
        }
        if rest.0.Ok? {
          assert values + rest.0.value == (values + [one.value]) + rest.0.value[1..];
        }
        values := values + [one.value];
        i := i + 1;
      }
      assert values + [] == values;
      r := Ok(values);
    }

    method Mset(pairs: seq<(Bytes, Bytes)>, ttl: u64, clock: Clock) returns (r: Result<nat>)
      requires Valid()
      modifies arena, arena.slots
      ensures (r, Store()) == M.Mset(arena.hash, old(Store()), pairs, ttl, clock, 0)
    {
      hide M.Set;
      var count := 0;
      ghost var all := M.Mset(arena.hash, Store(), pairs, ttl, clock, 0);
      while count < |pairs|
        invariant 0 <= count <= |pairs|
        invariant var rest := M.Mset(arena.hash, Store(), pairs[count..], ttl, clock, count);
                  all == (if rest.0.Err? then Err(rest.0.error) else Ok(count + rest.0.value), rest.1)
      {
        assert pairs[count..][1..] == pairs[count + 1..];
        var one := Set(pairs[count].0, pairs[count].1, ttl, clock(count));
        if one.Err? {
          return Err(one.error);
        }
        count := count + 1;
      }
      r := Ok(count);
    }

    /** Read-modify-write of a decimal counter, upwards; the sum wraps at 2^64. */
    method Incr(key: Bytes, nowGet: u64, nowSet: u64) returns (r: Result<u64>)
      requires Valid()
      modifies arena, arena.slots
      ensures (r, Store()) == M.Incr(arena.hash, old(Store()), key, nowGet, nowSet)
    {
      hide M.Get, M.Set, Number, PrintNat;
      var current := Get(key, nowGet);
      if current.Err? {
        return Err(current.error);
      }
      var next := Wrap(Number(current.value) + 1);
      var written := Set(key, PrintNat(next), 0, nowSet);
      r := if written.Err? then Err(written.error) else Ok(next);
    }

    /** Downwards, stopping at zero. */
    method Decr(key: Bytes, nowGet: u64, nowSet: u64) returns (r: Result<u64>)
      requires Valid()
      modifies arena, arena.slots
      ensures (r, Store()) == M.Decr(arena.hash, old(Store()), key, nowGet, nowSet)
    {
      hide M.Get, M.Set, Number, PrintNat;
      var current := Get(key, nowGet);
      if current.Err? {
        return Err(current.error);
      }
      var n := Number(current.value);
      var next := if n == 0 then 0 else n - 1;
      var written := Set(key, PrintNat(next), 0, nowSet);
      r := if written.Err? then Err(written.error) else Ok(next);
    }
  }

  /** A client on a new arena of the fixed size, fingerprinting with SipHash-1-3. */
  method Create() returns (c: Client)
    ensures c.Valid() && fresh(c.arena) && fresh(c.arena.slots)
    ensures c.Store() == T.Store(Fresh(SLOT_COUNT), 0)
    ensures forall key :: c.arena.hash(key) == SipHash.Fingerprint(key)
  {
    SlotCountIsPowerOfTwo();
    var arena := new A.Arena(16, SipHash.Fingerprint);
    c := new Client(arena);
  }
}

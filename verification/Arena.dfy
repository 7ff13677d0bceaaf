/**
 * The shared arena: a fixed array of slot records, updated in place, and the `used_count` header
 * field. Each operation is proved to compute the corresponding function of `Table`.
 */
module Arena {
  import opened Bytes
  import opened Probe
  import opened SlotLayout
  import opened Table
  import TableProofs

  /** What a slot means to a probe. */
  function View(s: Slot): Cell {
    match s.state
    case EMPTY => Empty
    case TOMBSTONE => Tombstone
    case OCCUPIED => Occupied(s.fingerprint, ReadKey(s), ReadValue(s), s.expiresAt)
  }

  function Views(s: seq<Slot>): (c: seq<Cell>)
    ensures |c| == |s| && forall i :: 0 <= i < |s| ==> c[i] == View(s[i])
  {
    seq(|s|, i requires 0 <= i < |s| => View(s[i]))
  }

  const BLANK_SLOT: Slot := Slot(EMPTY, 0, 0, 0, 0, seq(MAX_KEY_LEN, _ => 0), seq(MAX_VAL_LEN, _ => 0))

  class Arena {
    const bits: nat
    const hash: Hash
    const slots: array<Slot>
    var usedCount: u64

    ghost predicate Valid() { slots.Length == Pow2(bits) }

    ghost function Cells(): (c: seq<Cell>)
      reads slots
      ensures |c| == slots.Length
    {
      Views(slots[..])
    }

    ghost function Contents(): Store
      reads this, slots
    {
      Store(Cells(), usedCount)
    }

    /** A new arena: every slot empty, nothing counted. */
    constructor (bits: nat, hash: Hash)
      ensures Valid() && fresh(slots) && this.bits == bits && this.hash == hash
      ensures Contents() == Store(Fresh(Pow2(bits)), 0)
    {
      this.bits, this.hash := bits, hash;
      slots := new Slot[Pow2(bits)](_ => BLANK_SLOT);
      usedCount := 0;
    }

    /** Index of the first probe for a hash value. */
    method PrimaryIndex(fp: u64) returns (start: nat)
      requires Valid()
      ensures start == fp % slots.Length < slots.Length
    {
      MaskIsModulo(fp, bits);
      start := BitAnd(fp, slots.Length - 1);
    }

    /** Bury the slot if it has expired; the answer says whether it had. */
    method LazyEvictIfExpired(idx: nat, now: u64) returns (expired: bool)
      requires idx < slots.Length && slots[idx].state == OCCUPIED
      modifies slots
      ensures expired == IsExpired(old(slots[idx].expiresAt), now)
      ensures slots[..] == if expired
              then old(slots[..])[idx := old(slots[idx]).(state := TOMBSTONE)] else old(slots[..])
    {
      expired := IsExpired(slots[idx].expiresAt, now);
      if expired {
        slots[idx] := slots[idx].(state := TOMBSTONE);
      }
    }

    /** Fill the buffers and the metadata of a slot, then publish it. */
    method ClaimSlot(idx: nat, fp: u64, key: Bytes, value: Bytes, expiry: u64)
      requires idx < slots.Length
      modifies slots
      ensures Cells() == old(Cells())[idx := Claimed(fp, key, value, expiry)]
    {
      slots[idx] := WriteKey(slots[idx], key);
      slots[idx] := WriteValue(slots[idx], value);
      slots[idx] := slots[idx].(fingerprint := fp, expiresAt := expiry);
      slots[idx] := slots[idx].(state := OCCUPIED);
      assert View(slots[idx]) == Claimed(fp, key, value, expiry);
    }

    method Get(key: Bytes, now: u64) returns (r: GetResult)
      requires Valid()
      modifies slots
      ensures (r, Cells()) == Table.Get(hash, old(Cells()), key, now)
    {
      var fp := hash(key);
      var start := PrimaryIndex(fp);
      var i := 0;
      while i < slots.Length
        invariant 0 <= i <= slots.Length && Cells() == old(Cells())
        invariant Table.Get(hash, old(Cells()), key, now) == GetFrom(Cells(), fp, key, start, i, now)
      {
        MaskedIsAt(start, i, bits);
        var idx := Masked(start, i, slots.Length);
        var slot := slots[idx];
        assert Cells()[idx] == View(slot);
        match slot.state {
          case EMPTY =>
            return NotFound;
          case TOMBSTONE =>
          case OCCUPIED =>
            if slot.fingerprint == fp {
              var expired := LazyEvictIfExpired(idx, now);
              if expired {
                assert Cells() == old(Cells())[idx := Tombstone];
                return Expired;
              }
              if ReadKey(slot) == key {
                return Found(ReadValue(slot));
              }
            }
        }
        i := i + 1;
      }
      r := NotFound;
    }

    /**
     * The probe loop of SET: evicts expired entries with the key's fingerprint, remembers the
     * first tombstone, and stops at the slot that decides the outcome.
     */
    method ProbeForSet(fp: u64, key: Bytes, start: nat, now: u64)
      returns (stop: Stop, firstTombstone: Option<nat>, ghost evicted: nat)
      requires Valid() && start < slots.Length
      modifies slots
      ensures Scan(Cells(), stop, firstTombstone, evicted) == SetScan(old(Cells()), fp, key, start, 0, None, 0, now)
    {
      hide SetScan;
      firstTombstone, evicted := None, 0;
      ghost var scan := SetScan(Cells(), fp, key, start, 0, None, 0, now);
      var i := 0;
      while i < slots.Length
        invariant 0 <= i <= slots.Length
        invariant firstTombstone.Some? ==> firstTombstone.value < slots.Length
        invariant scan == SetScan(Cells(), fp, key, start, i, firstTombstone, evicted, now)
      {
        MaskedIsAt(start, i, bits);
        TableProofs.SetScanStep(Cells(), fp, key, start, i, firstTombstone, evicted, now);
        var idx := Masked(start, i, slots.Length);
        var slot := slots[idx];
        assert Cells()[idx] == View(slot);
        match slot.state {
          case EMPTY =>
            return AtEmpty(idx), firstTombstone, evicted;
          case TOMBSTONE =>
            if firstTombstone.None? {
              firstTombstone := Some(idx);
            }
          case OCCUPIED =>
            if slot.fingerprint == fp {
              ghost var before := Cells();
              var expired := LazyEvictIfExpired(idx, now);
              if expired {
                assert Cells() == before[idx := Tombstone];
                evicted := evicted + 1;
                if firstTombstone.None? {
                  firstTombstone := Some(idx);
                }
              } else if ReadKey(slot) == key {
                return AtMatch(idx), firstTombstone, evicted;
              }
            }
        }
        i := i + 1;
      }
      TableProofs.SetScanStep(Cells(), fp, key, start, i, firstTombstone, evicted, now);
      stop := Exhausted;
    }

    method Set(key: Bytes, value: Bytes, ttl: u64, now: u64) returns (r: SetResult)
      requires Valid()
      modifies this`usedCount, slots
      ensures var o := Table.Set(hash, old(Cells()), key, value, ttl, now);
              && r == o.result && Cells() == o.cells
              && usedCount == if r == Inserted && !o.fallback then Wrap(old(usedCount) + 1) else old(usedCount)
    {
      var fp := hash(key);
      var start := PrimaryIndex(fp);
      var expiry := TtlToExpiry(ttl, now);
      var stop, firstTombstone, evicted := ProbeForSet(fp, key, start, now);
      match stop {
        case AtEmpty(idx) =>
          var target := if firstTombstone.Some? then firstTombstone.value else idx;
          ClaimSlot(target, fp, key, value, expiry);
          usedCount := Wrap(usedCount + 1);
          r := Inserted;
        case AtMatch(idx) =>
          UpdateInPlace(idx, value, expiry);
          r := Updated;
        case Exhausted =>
          if firstTombstone.Some? {
            ClaimSlot(firstTombstone.value, fp, key, value, expiry);
            r := Inserted;
          } else {
            r := Full;
          }
      }
    }

    /** The in-place update of an existing entry: value first, then expiry. */
    method UpdateInPlace(idx: nat, value: Bytes, expiry: u64)
      requires idx < slots.Length && slots[idx].state == OCCUPIED
      modifies slots
      ensures Cells()
              == old(Cells())[idx := View(old(slots[idx])).(value := Clip(value, MAX_VAL_LEN), expiry := expiry)]
    {
      slots[idx] := WriteValue(slots[idx], value);
      slots[idx] := slots[idx].(expiresAt := expiry);
    }

    method Del(key: Bytes) returns (r: DelResult)
      requires Valid()
      modifies this`usedCount, slots
      ensures (r, Cells()) == Table.Del(hash, old(Cells()), key)
      ensures usedCount == if r == Deleted then Wrap(old(usedCount) - 1) else old(usedCount)
    {
      var fp := hash(key);
      var start := PrimaryIndex(fp);
      var i := 0;
      while i < slots.Length
        invariant 0 <= i <= slots.Length && Cells() == old(Cells()) && usedCount == old(usedCount)
        invariant Table.Del(hash, old(Cells()), key) == DelFrom(Cells(), fp, key, start, i)
      {
        MaskedIsAt(start, i, bits);
        var idx := Masked(start, i, slots.Length);
        var slot := slots[idx];
        assert Cells()[idx] == View(slot);
        match slot.state {
          case EMPTY =>
            return Missing;
          case TOMBSTONE =>
          case OCCUPIED =>
            if slot.fingerprint == fp && ReadKey(slot) == key {
              slots[idx] := slot.(state := TOMBSTONE);
              usedCount := Wrap(usedCount - 1);
              assert Cells() == old(Cells())[idx := Tombstone];
              return Deleted;
            }
        }
        i := i + 1;
      }
      r := Missing;
    }

    method FlushAll()
      modifies this`usedCount, slots
      ensures Contents() == Store(Fresh(slots.Length), 0)
      ensures forall j :: 0 <= j < slots.Length ==>
                slots[j] == old(slots[j]).(state := EMPTY, fingerprint := 0, expiresAt := 0, keyLen := 0, valLen := 0)
    {
      var i := 0;
      while i < slots.Length
        invariant 0 <= i <= slots.Length
        invariant forall j :: 0 <= j < i ==> slots[j] == Reset(old(slots[j]))
        invariant forall j :: i <= j < slots.Length ==> slots[j] == old(slots[j])
      {
        slots[i] := Reset(slots[i]);
        i := i + 1;
      }
      usedCount := 0;
    }
  }
}

/**
 * GET and DEL without SET: any number of threads that only look up and delete, at any clock
 * readings. Over every interleaving values are returned exactly as they were stored, and a key is
 * missed only when it is gone or an expired entry with its fingerprint was evicted.
 */
module Removal {
  import opened Bytes
  import opened Probe
  import opened SlotLayout
  import opened Table
  import opened TableProofs
  import opened Concurrent
  import opened Publication
  import A = Arena

  /** Every slot is as it was, or it was occupied and is now a tombstone with the same bytes. */
  ghost predicate Shrunk(a: seq<Slot>, b: seq<Slot>) {
    && |b| == |a|
    && forall i | 0 <= i < |a| :: b[i] == a[i] || (a[i].state == OCCUPIED && b[i] == a[i].(state := TOMBSTONE))
  }

  lemma ShrunkTwice(a: seq<Slot>, b: seq<Slot>, c: seq<Slot>)
    requires Shrunk(a, b) && Shrunk(b, c)
    ensures Shrunk(a, c)
  {
  }

  lemma BuriedShrinks(slots: seq<Slot>, idx: nat)
    requires idx < |slots|
    ensures Shrunk(slots, slots[idx := Cas(slots[idx])]) && slots[idx := Cas(slots[idx])][idx].state != OCCUPIED
  {
  }

  lemma GoneStaysGone(a: seq<Slot>, b: seq<Slot>, key: Bytes)
    requires Shrunk(a, b) && !KeyStored(a, key)
    ensures !KeyStored(b, key)
  {
    forall i | 0 <= i < |b| && b[i].state == OCCUPIED ensures ReadKey(b[i]) != key {
      assert b[i] == a[i];
    }
  }

  lemma AheadShrinks(h: Hash, a: seq<Slot>, b: seq<Slot>, key: Bytes, d: nat)
    requires |a| > 0 && Shrunk(a, b) && Ahead(h, a, key, d)
    ensures Ahead(h, b, key, d)
  {
  }

  ghost predicate Dead(h: Hash, slot: Slot, key: Bytes, t: u64) {
    slot.state == OCCUPIED && slot.fingerprint == h(key) && 0 < slot.expiresAt <= t
  }

  /** An entry with the key's fingerprint, expired by time `t`, was there and has been evicted. */
  ghost predicate Ousted(h: Hash, a: seq<Slot>, b: seq<Slot>, key: Bytes, t: u64) {
    exists i :: 0 <= i < |a| && i < |b| && Dead(h, a[i], key, t) && b[i].state == TOMBSTONE
  }

  lemma OustedStays(h: Hash, a: seq<Slot>, b: seq<Slot>, c: seq<Slot>, key: Bytes, t: u64)
    requires Ousted(h, a, b, key, t) && Shrunk(b, c)
    ensures Ousted(h, a, c, key, t)
  {
    var i :| 0 <= i < |a| && i < |b| && Dead(h, a[i], key, t) && b[i].state == TOMBSTONE;
    assert c[i].state == TOMBSTONE;
  }

  /** The thread examines the entry stored at distance `d`; its key cannot lie before it. */
  ghost predicate Examining(h: Hash, a: seq<Slot>, b: seq<Slot>, key: Bytes, d: nat)
    requires |b| == |a| > 0
  {
    Inside(h, a, key, d) && Ahead(h, b, key, d)
  }

  /** What an answer means, in terms of the slots at the start and now. */
  ghost predicate Answered(h: Hash, a: seq<Slot>, b: seq<Slot>, job: Job, r: Result, t: u64) {
    match r
    case Got(Found(v)) => job.JGet? && Keeps(a, job.key, v)
    case Got(NotFound) => job.JGet? && !KeyStored(b, job.key)
    case Got(Expired) => job.JGet? && Ousted(h, a, b, job.key, t)
    case Removed(Deleted) => job.JDel? && KeyStored(a, job.key) && !KeyStored(b, job.key)
    case Removed(Missing) => job.JDel? && !KeyStored(b, job.key)
    case Put(_) => false
  }

  /** What holds of a GET or DEL at each program point: `a` were the slots, `b` are the slots now. */
  ghost predicate SeekerAt(h: Hash, a: seq<Slot>, b: seq<Slot>, job: Job, pc: Pc, t: u64)
    requires |b| == |a| > 0
  {
    var key := job.key;
    match pc
    case Load(d) => d <= |b| && Ahead(h, b, key, d)
    case LoadFp(d) => Examining(h, a, b, key, d)
    case LoadExpiry(d) => job.JGet? && Examining(h, a, b, key, d) && SlotAt(h, a, key, d).fingerprint == h(key)
    case ReadClock(d, e) =>
      job.JGet? && Examining(h, a, b, key, d) && SlotAt(h, a, key, d).fingerprint == h(key)
      && 0 < e == SlotAt(h, a, key, d).expiresAt
    case Evict(d) => job.JGet? && d < |a| && Dead(h, SlotAt(h, a, key, d), key, t)
    case LoadKeyLen(d) => Examining(h, a, b, key, d)
    case CopyKey(d, len, got) => Examining(h, a, b, key, d) && KeyCopied(SlotAt(h, a, key, d), len, got)
    case LoadValLen(d) => job.JGet? && Inside(h, a, key, d) && ReadKey(SlotAt(h, a, key, d)) == key
    case CopyVal(d, len, got) =>
      job.JGet? && Inside(h, a, key, d) && ReadKey(SlotAt(h, a, key, d)) == key
      && ValCopied(SlotAt(h, a, key, d), len, got)
    case Bury(d) => job.JDel? && Examining(h, a, b, key, d) && ReadKey(SlotAt(h, a, key, d)) == key
    case Uncount => job.JDel? && KeyStored(a, key) && !KeyStored(b, key)
    case Done(r) => Answered(h, a, b, job, r, t)
    case _ => false
  }

  ghost predicate Seeker(h: Hash, a: seq<Slot>, b: seq<Slot>, th: Thread, t: u64) {
    |b| == |a| > 0 && (th.pc.Idle? || (!th.job.JSet? && SeekerAt(h, a, b, th.job, th.pc, t)))
  }

  lemma SameLength(a: seq<Slot>, b: seq<Slot>)
    requires Shrunk(a, b)
    ensures |b| == |a|
  {
  }

  /** Other threads' burials disturb no one. */
  lemma SeekerFrame(h: Hash, a: seq<Slot>, b: seq<Slot>, c: seq<Slot>, th: Thread, t: u64)
    requires Seeker(h, a, b, th, t) && Shrunk(b, c)
    ensures Seeker(h, a, c, th, t)
  {
    var key := th.job.key;
    hide Shrunk, KeyStored, Ousted, Ahead, Keeps, Dead, Inside;
    SameLength(b, c);
    forall d: nat | Ahead(h, b, key, d) ensures Ahead(h, c, key, d) {
      AheadShrinks(h, b, c, key, d);
    }
    if !KeyStored(b, key) {
      GoneStaysGone(b, c, key);
    }
    if Ousted(h, a, b, key, t) {
      OustedStays(h, a, b, c, key, t);
    }
  }

  // ---- one step ----

  /** At an empty slot, or after all slots, the key is stored nowhere. */
  lemma SearchOver(h: Hash, a: seq<Slot>, b: seq<Slot>, key: Bytes, d: nat)
    requires Inv(h, A.Views(a)) && Shrunk(a, b) && d <= |b| && Ahead(h, b, key, d)
    requires d < |b| ==> SlotAt(h, b, key, d).state == EMPTY
    ensures !KeyStored(b, key)
  {
    var c, n, start := A.Views(a), |a|, Home(h, key, |a|);
    forall i | 0 <= i < n && b[i].state == OCCUPIED ensures ReadKey(b[i]) != key {
      assert b[i] == a[i];
      if ReadKey(b[i]) == key {
        var idx := At(start, d, n);
        assert c[i].Occupied? && c[i].key == key;
        assert ProbedBefore(h, c, i, idx);
      }
    }
  }

  /** Everything but the state of a slot stays readable after its burial. */
  lemma SameBytes(h: Hash, a: seq<Slot>, b: seq<Slot>, key: Bytes, d: nat)
    requires Shrunk(a, b) && d < |a|
    ensures var x, y := SlotAt(h, a, key, d), SlotAt(h, b, key, d);
            && x == y.(state := x.state)
            && ReadKey(x) == ReadKey(y) && ReadValue(x) == ReadValue(y)
            && (y.state == OCCUPIED ==> x.state == OCCUPIED) && (x.state == OCCUPIED ==> y.state != EMPTY)
  {
  }

  lemma FpOf(h: Hash, a: seq<Slot>, i: nat)
    requires Inv(h, A.Views(a)) && i < |a| && a[i].state == OCCUPIED
    ensures a[i].fingerprint == h(ReadKey(a[i]))
  {
    assert A.Views(a)[i].Occupied?;
  }

  lemma SeekerLoad(h: Hash, a: seq<Slot>, mem: Memory, th: Thread, t: u64)
    requires Inv(h, A.Views(a)) && Shrunk(a, mem.slots) && Seeker(h, a, mem.slots, th, t) && th.pc.Load?
    ensures Seeker(h, a, mem.slots, StepLoad(h, mem, th, th.pc.d), t)
  {
    var b, key, d := mem.slots, th.job.key, th.pc.d;
    hide Inv, Shrunk, KeyStored, Ahead;
    if d >= |b| || SlotAt(h, b, key, d).state == EMPTY {
      SearchOver(h, a, b, key, d);
    } else {
      SameBytes(h, a, b, key, d);
      if SlotAt(h, b, key, d).state == TOMBSTONE {
        StillAhead(h, b, key, d);
      }
    }
  }

  lemma SeekerChecks(h: Hash, a: seq<Slot>, mem: Memory, th: Thread, now: u64, t: u64)
    requires Inv(h, A.Views(a)) && Shrunk(a, mem.slots) && Seeker(h, a, mem.slots, th, t) && now <= t
    requires th.pc.LoadFp? || th.pc.LoadExpiry? || th.pc.ReadClock? || th.pc.LoadKeyLen? || th.pc.LoadValLen?
    ensures Seeker(h, a, mem.slots, StepRead(h, mem, th, now), t)
  {
    var b, key, d := mem.slots, th.job.key, th.pc.d;
    hide Inv, Shrunk, KeyStored, Ahead, ReadKey, ReadValue;
    FpOf(h, a, At(Home(h, key, |a|), d, |a|));
    SameBytes(h, a, b, key, d);
    if th.pc.LoadFp? && SlotAt(h, b, key, d).fingerprint != h(key) {
      StillAhead(h, b, key, d);
    }
  }

  lemma SeekerCopiesKey(h: Hash, a: seq<Slot>, mem: Memory, th: Thread, now: u64, t: u64)
    requires Shrunk(a, mem.slots) && Seeker(h, a, mem.slots, th, t) && th.pc.CopyKey?
    ensures Seeker(h, a, mem.slots, StepRead(h, mem, th, now), t)
  {
    var b, key, d := mem.slots, th.job.key, th.pc.d;
    hide Shrunk, KeyStored, Ahead, ReadKey, ReadValue, KeyCopied;
    SameBytes(h, a, b, key, d);
    CopyStep(SlotAt(h, a, key, d), th.pc.len, th.pc.got);
    if ReadKey(SlotAt(h, b, key, d)) != key {
      StillAhead(h, b, key, d);
    }
  }

  lemma SeekerCopiesValue(h: Hash, a: seq<Slot>, mem: Memory, th: Thread, now: u64, t: u64)
    requires Shrunk(a, mem.slots) && Seeker(h, a, mem.slots, th, t) && th.pc.CopyVal?
    ensures Seeker(h, a, mem.slots, StepRead(h, mem, th, now), t)
  {
    var b, key, d := mem.slots, th.job.key, th.pc.d;
    hide Shrunk, KeyStored, Ahead, ReadKey, ReadValue, ValCopied;
    SameBytes(h, a, b, key, d);
    CopyStep(SlotAt(h, a, key, d), th.pc.len, th.pc.got);
    assert Keeps(a, key, ReadValue(SlotAt(h, a, key, d)));
  }

  /** Burying the one slot of a key leaves it stored nowhere. */
  lemma BuryRemoves(h: Hash, a: seq<Slot>, b: seq<Slot>, key: Bytes, idx: nat)
    requires Inv(h, A.Views(a)) && Shrunk(a, b) && idx < |a|
    requires a[idx].state == OCCUPIED && ReadKey(a[idx]) == key
    ensures KeyStored(a, key) && !KeyStored(b[idx := b[idx].(state := TOMBSTONE)], key)
  {
    var c, b' := A.Views(a), b[idx := b[idx].(state := TOMBSTONE)];
    forall i | 0 <= i < |b'| && b'[i].state == OCCUPIED ensures ReadKey(b'[i]) != key {
      assert b'[i] == a[i];
      assert c[i].Occupied? && c[idx].Occupied? && c[idx].key == key;
      assert c[i].key == key ==> i == idx;
    }
  }

  lemma EvictOusts(h: Hash, a: seq<Slot>, b: seq<Slot>, key: Bytes, t: u64, idx: nat)
    requires Shrunk(a, b) && idx < |a| && Dead(h, a[idx], key, t)
    ensures Ousted(h, a, b[idx := Cas(b[idx])], key, t)
  {
    assert b[idx := Cas(b[idx])][idx].state == TOMBSTONE;
  }

  /** What a compare-and-swap of a seeking thread does. */
  lemma CasStep(h: Hash, mem: Memory, th: Thread, now: u64)
    requires (th.pc.Evict? || th.pc.Bury?) && th.pc.d < |mem.slots|
    ensures var idx := At(Home(h, th.job.key, |mem.slots|), th.pc.d, |mem.slots|);
            StepThread(h, mem, th, now)
            == (mem.(slots := mem.slots[idx := Cas(mem.slots[idx])]), AfterWrite(th, idx, mem.slots[idx].state))
  {
    hide Cas, AfterWrite, StepRead;
  }

  lemma SeekerEvicts(h: Hash, a: seq<Slot>, b: seq<Slot>, th: Thread, t: u64)
    requires Shrunk(a, b) && Seeker(h, a, b, th, t) && th.pc.Evict?
    ensures var idx := At(Home(h, th.job.key, |a|), th.pc.d, |a|);
            Seeker(h, a, b[idx := Cas(b[idx])], AfterWrite(th, idx, b[idx].state), t)
  {
    hide Shrunk, Dead, Ousted, Cas;
    EvictOusts(h, a, b, th.job.key, t, At(Home(h, th.job.key, |a|), th.pc.d, |a|));
  }

  lemma SeekerBuries(h: Hash, a: seq<Slot>, b: seq<Slot>, th: Thread, t: u64)
    requires Inv(h, A.Views(a)) && Shrunk(a, b) && Seeker(h, a, b, th, t) && th.pc.Bury?
    ensures var idx := At(Home(h, th.job.key, |a|), th.pc.d, |a|);
            Seeker(h, a, b[idx := Cas(b[idx])], AfterWrite(th, idx, b[idx].state), t)
  {
    var key, d := th.job.key, th.pc.d;
    var idx := At(Home(h, key, |a|), d, |a|);
    hide Inv, Shrunk, KeyStored, Ahead, ReadKey, A.Views;
    if b[idx].state == OCCUPIED {
      BuryRemoves(h, a, b, key, idx);
    } else {
      assert b[idx := Cas(b[idx])] == b;
      StillAhead(h, b, key, d);
    }
  }

  lemma SeekerDistance(h: Hash, a: seq<Slot>, b: seq<Slot>, th: Thread, t: u64)
    requires Seeker(h, a, b, th, t) && (th.pc.Evict? || th.pc.Bury?)
    ensures |b| == |a| && th.pc.d < |b|
  {
  }

  /** The two compare-and-swaps. */
  lemma SeekerCas(h: Hash, a: seq<Slot>, mem: Memory, th: Thread, now: u64, t: u64)
    requires Inv(h, A.Views(a)) && Shrunk(a, mem.slots) && Seeker(h, a, mem.slots, th, t)
    requires th.pc.Evict? || th.pc.Bury?
    ensures var (mem', th') := StepThread(h, mem, th, now);
            Shrunk(mem.slots, mem'.slots) && Seeker(h, a, mem'.slots, th', t)
  {
    SeekerDistance(h, a, mem.slots, th, t);
    hide Inv, Shrunk, Seeker, Cas, StepThread, AfterWrite, A.Views;
    BuriedShrinks(mem.slots, At(Home(h, th.job.key, |mem.slots|), th.pc.d, |mem.slots|));
    CasStep(h, mem, th, now);
    if th.pc.Evict? {
      SeekerEvicts(h, a, mem.slots, th, t);
    } else {
      SeekerBuries(h, a, mem.slots, th, t);
    }
  }

  lemma ShrunkSame(a: seq<Slot>)
    ensures Shrunk(a, a)
  {
  }

  predicate ReadingPoint(pc: Pc) { ReadPoint(pc) || pc.ReadClock? || pc.Idle? }

  lemma ReadingOnlyReads(h: Hash, mem: Memory, th: Thread, now: u64)
    requires ReadingPoint(th.pc)
    ensures StepThread(h, mem, th, now) == (mem, StepRead(h, mem, th, now))
  {
    hide StepRead;
  }

  lemma UncountStep(h: Hash, mem: Memory, th: Thread, now: u64)
    requires th.pc.Uncount?
    ensures StepThread(h, mem, th, now) == (mem.(used := Wrap(mem.used - 1)), Goto(th, Done(Removed(Deleted))))
  {
  }

  lemma SeekerPoints(h: Hash, a: seq<Slot>, b: seq<Slot>, th: Thread, t: u64)
    requires Seeker(h, a, b, th, t)
    ensures ReadingPoint(th.pc) || th.pc.Evict? || th.pc.Bury? || th.pc.Uncount?
  {
  }

  lemma SeekerUncounts(h: Hash, a: seq<Slot>, b: seq<Slot>, th: Thread, t: u64)
    requires Seeker(h, a, b, th, t) && th.pc.Uncount?
    ensures Seeker(h, a, b, Goto(th, Done(Removed(Deleted))), t)
  {
  }

  /** Any step of a GET or DEL at most buries a slot, and keeps the thread on plan. */
  lemma SeekerStep(h: Hash, a: seq<Slot>, mem: Memory, th: Thread, now: u64, t: u64)
    requires Inv(h, A.Views(a)) && Shrunk(a, mem.slots) && Seeker(h, a, mem.slots, th, t) && now <= t
    ensures var (mem', th') := StepThread(h, mem, th, now);
            Shrunk(mem.slots, mem'.slots) && Seeker(h, a, mem'.slots, th', t)
  {
    SeekerPoints(h, a, mem.slots, th, t);
    ShrunkSame(mem.slots);
    ReadStays(h, mem, th, now);
    hide Inv, Shrunk, Seeker, StepThread, StepRead, StepLoad;
    if th.pc.Evict? || th.pc.Bury? {
      SeekerCas(h, a, mem, th, now, t);
    } else if th.pc.Uncount? {
      UncountStep(h, mem, th, now);
      SeekerUncounts(h, a, mem.slots, th, t);
    } else {
      ReadingOnlyReads(h, mem, th, now);
      match th.pc {
        case Load(_) => SeekerLoad(h, a, mem, th, t);
        case CopyKey(_, _, _) => SeekerCopiesKey(h, a, mem, th, now, t);
        case CopyVal(_, _, _) => SeekerCopiesValue(h, a, mem, th, now, t);
        case Idle =>
        case Done(_) =>
        case _ => SeekerChecks(h, a, mem, th, now, t);
      }
    }
  }

  // ---- the whole system ----

  /** All threads look up or delete in what is left of the well-formed slots `a`. */
  ghost predicate Emptying(h: Hash, a: seq<Slot>, s: Sys, t: u64) {
    && |a| > 0 && Inv(h, A.Views(a)) && Shrunk(a, s.mem.slots)
    && forall r | 0 <= r < |s.threads| :: Seeker(h, a, s.mem.slots, s.threads[r], t)
  }

  /** No thread is called with a SET, no clock reading is later than `t`. */
  predicate NoSets(events: seq<Event>, t: u64) {
    forall i | 0 <= i < |events| :: if events[i].Invoke? then !events[i].job.JSet? else events[i].now <= t
  }

  lemma StartsSeeking(h: Hash, a: seq<Slot>, b: seq<Slot>, job: Job, present: bool, t: u64)
    requires |b| == |a| > 0 && !job.JSet?
    ensures Seeker(h, a, b, Thread(job, Load(0), None, present), t)
  {
  }

  lemma EmptyingStep(h: Hash, a: seq<Slot>, s: Sys, e: Event, t: u64)
    requires Emptying(h, a, s, t) && if e.Invoke? then !e.job.JSet? else e.now <= t
    ensures Emptying(h, a, Next(h, s, e), t)
  {
    var b := s.mem.slots;
    SameLength(a, b);
    hide Inv, Shrunk, Seeker, KeyStored, StepThread;
    if e.tid < |s.threads| {
      if e.Invoke? {
        StartsSeeking(h, a, b, e.job, KeyStored(b, e.job.key), t);
      } else {
        SeekerStep(h, a, s.mem, s.threads[e.tid], e.now, t);
        var b' := StepThread(h, s.mem, s.threads[e.tid], e.now).0.slots;
        ShrunkTwice(a, b, b');
        forall r | 0 <= r < |s.threads| && r != e.tid ensures Seeker(h, a, b', s.threads[r], t) {
          SeekerFrame(h, a, b, b', s.threads[r], t);
        }
      }
    }
  }

  lemma {:induction false} EmptyingHolds(h: Hash, a: seq<Slot>, s: Sys, events: seq<Event>, t: u64)
    requires Emptying(h, a, s, t) && NoSets(events, t)
    ensures Emptying(h, a, Exec(h, s, events), t)
    decreases events
  {
    if events != [] {
      EmptyingStep(h, a, s, events[0], t);
      assert NoSets(events[1..], t);
      hide Emptying, Next;
      EmptyingHolds(h, a, Next(h, s, events[0]), events[1..], t);
    }
  }

  /** Idle threads on a well-formed table are such a system. */
  lemma IdleIsEmptying(h: Hash, s: Sys, t: u64)
    requires |s.mem.slots| > 0 && Inv(h, A.Views(s.mem.slots))
    requires forall r | 0 <= r < |s.threads| :: s.threads[r].pc.Idle?
    ensures Emptying(h, s.mem.slots, s, t)
  {
  }

  /**
   * Over every interleaving of GETs and DELs from a well-formed table: slots are only buried, and
   * every answer is honest. `Found` carries the bytes stored at the start; `NotFound`, `Deleted`
   * and `Missing` mean that the key is not stored any more; `Expired` means that an entry with the
   * key's fingerprint whose time had come was evicted.
   */
  lemma {:induction false} EveryAnswerIsHonest(h: Hash, s: Sys, events: seq<Event>, r: nat, t: u64)
    requires |s.mem.slots| > 0 && Inv(h, A.Views(s.mem.slots)) && NoSets(events, t)
    requires forall i | 0 <= i < |s.threads| :: s.threads[i].pc.Idle?
    requires r < |s.threads| && Exec(h, s, events).threads[r].pc.Done?
    ensures var after := Exec(h, s, events);
            var th := after.threads[r];
            && Shrunk(s.mem.slots, after.mem.slots)
            && Answered(h, s.mem.slots, after.mem.slots, th.job, th.pc.result, t)
            && (th.pc.result.Got? && th.pc.result.get.Found? ==>
                  forall v | Keeps(s.mem.slots, th.job.key, v) :: v == th.pc.result.get.value)
  {
    hide Exec, Inv, Shrunk, NoSets, Keeps, Ousted, KeyStored;
    var a := s.mem.slots;
    IdleIsEmptying(h, s, t);
    EmptyingHolds(h, a, s, events, t);
    var th := Exec(h, s, events).threads[r];
    assert Seeker(h, a, Exec(h, s, events).mem.slots, th, t);
    forall v, w | Keeps(a, th.job.key, v) && Keeps(a, th.job.key, w) ensures v == w {
      KeepsUnique(h, a, th.job.key, v, w);
    }
  }

  // ---- every key is deleted once ----

  predicate OnItsWay(th: Thread, key: Bytes) { th.pc.Uncount? && th.job.key == key }

  /** DELs of `key` that won their slot but have not returned yet. */
  function Returning(threads: seq<Thread>, key: Bytes): nat {
    if threads == [] then 0
    else Returning(threads[..|threads| - 1], key) + One(OnItsWay(threads[|threads| - 1], key))
  }

  lemma {:induction false} ReturningUpdate(threads: seq<Thread>, tid: nat, th: Thread, key: Bytes)
    requires tid < |threads|
    ensures Returning(threads[tid := th], key) + One(OnItsWay(threads[tid], key))
            == Returning(threads, key) + One(OnItsWay(th, key))
  {
    var m := |threads| - 1;
    if tid < m {
      assert threads[tid := th][..m] == threads[..m][tid := th];
      ReturningUpdate(threads[..m], tid, th, key);
    } else {
      assert threads[tid := th][..m] == threads[..m];
    }
  }

  lemma {:induction false} NoneReturning(threads: seq<Thread>, key: Bytes)
    requires forall i | 0 <= i < |threads| :: threads[i].pc.Idle?
    ensures Returning(threads, key) == 0
  {
    if threads != [] {
      NoneReturning(threads[..|threads| - 1], key);
    }
  }

  /** The event makes a DEL of `key` return `Deleted`. */
  predicate ReturnsDeletedOf(h: Hash, s: Sys, e: Event, key: Bytes) {
    ReturnsDeleted(h, s, e) && s.threads[e.tid].job.key == key
  }

  /** `Deleted` answers for `key` in a run. */
  function DeletionsOf(h: Hash, s: Sys, events: seq<Event>, key: Bytes): nat
    decreases events
  {
    if events == [] then 0
    else One(ReturnsDeletedOf(h, s, events[0], key)) + DeletionsOf(h, Next(h, s, events[0]), events[1..], key)
  }

  lemma StoredAt(slots: seq<Slot>, idx: nat)
    requires idx < |slots| && slots[idx].state == OCCUPIED
    ensures KeyStored(slots, ReadKey(slots[idx]))
  {
  }

  /** A winning DEL takes the key from stored to gone. */
  lemma WinTakesKey(h: Hash, a: seq<Slot>, mem: Memory, th: Thread, now: u64, t: u64)
    requires Inv(h, A.Views(a)) && Shrunk(a, mem.slots) && Seeker(h, a, mem.slots, th, t) && DelWins(h, mem, th)
    ensures KeyStored(mem.slots, th.job.key) && !KeyStored(StepThread(h, mem, th, now).0.slots, th.job.key)
  {
    var b, key, d := mem.slots, th.job.key, th.pc.d;
    var idx := At(Home(h, key, |a|), d, |a|);
    hide Inv, KeyStored, Ahead, ReadKey, StepRead, A.Views;
    SameBytes(h, a, b, key, d);
    CasStep(h, mem, th, now);
    BuryRemoves(h, a, b, key, idx);
    StoredAt(b, idx);
  }

  lemma DeletedOnceStep(h: Hash, a: seq<Slot>, s: Sys, e: Event, key: Bytes, t: u64)
    requires Emptying(h, a, s, t) && (if e.Invoke? then !e.job.JSet? else e.now <= t)
    ensures var s' := Next(h, s, e);
            One(ReturnsDeletedOf(h, s, e, key)) + Returning(s'.threads, key) + One(KeyStored(s'.mem.slots, key))
            <= Returning(s.threads, key) + One(KeyStored(s.mem.slots, key))
  {
    hide Inv, Shrunk, Seeker, KeyStored, StepThread, Returning, DelWins;
    if e.tid < |s.threads| {
      var th := s.threads[e.tid];
      var s' := Next(h, s, e);
      ReturningUpdate(s.threads, e.tid, s'.threads[e.tid], key);
      if e.Tick? {
        SeekerStep(h, a, s.mem, th, e.now, t);
        StepKeepsJob(h, s, e, e.tid);
        DeleteProgress(h, s.mem, th, e.now);
        if KeyStored(s'.mem.slots, key) && !KeyStored(s.mem.slots, key) {
          GoneStaysGone(s.mem.slots, s'.mem.slots, key);
        }
        if DelWins(h, s.mem, th) {
          WinTakesKey(h, a, s.mem, th, e.now, t);
        }
      }
    }
  }

  lemma {:induction false} DeletedOnceRun(h: Hash, a: seq<Slot>, s: Sys, events: seq<Event>, key: Bytes, t: u64)
    requires Emptying(h, a, s, t) && NoSets(events, t)
    ensures var s' := Exec(h, s, events);
            DeletionsOf(h, s, events, key) + Returning(s'.threads, key) + One(KeyStored(s'.mem.slots, key))
            <= Returning(s.threads, key) + One(KeyStored(s.mem.slots, key))
    decreases events
  {
    if events != [] {
      DeletedOnceStep(h, a, s, events[0], key, t);
      EmptyingStep(h, a, s, events[0], t);
      assert NoSets(events[1..], t);
      hide Emptying, Next, ReturnsDeletedOf, KeyStored;
      DeletedOnceRun(h, a, Next(h, s, events[0]), events[1..], key, t);
    }
  }

  /** Over every interleaving of GETs and DELs at most one DEL of a key answers `Deleted`, and only if it was stored. */
  lemma {:induction false} DeletedAtMostOnce(h: Hash, s: Sys, events: seq<Event>, key: Bytes, t: u64)
    requires |s.mem.slots| > 0 && Inv(h, A.Views(s.mem.slots)) && NoSets(events, t)
    requires forall i | 0 <= i < |s.threads| :: s.threads[i].pc.Idle?
    ensures DeletionsOf(h, s, events, key) + One(KeyStored(Exec(h, s, events).mem.slots, key))
            <= One(KeyStored(s.mem.slots, key))
  {
    hide Exec, Inv, NoSets, KeyStored;
    IdleIsEmptying(h, s, t);
    NoneReturning(s.threads, key);
    DeletedOnceRun(h, s.mem.slots, s, events, key, t);
  }
}

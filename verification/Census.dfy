/**
 * What `used_count` counts under concurrency: over every interleaving of GET, SET and DEL it is the
 * number of occupied slots, up to evictions, fallback inserts, publications into a slot that was
 * already taken, and counter updates still to come.
 */
module Census {
  import opened Bytes
  import opened SlotLayout
  import opened Table
  import TableProofs
  import opened Concurrent
  import A = Arena

  // ---- counter updates still to come ----

  /** A published SET that will count itself, a winning DEL that will uncount itself. */
  function Debt(pc: Pc): int { if pc.Count? then 1 else if pc.Uncount? then -1 else 0 }

  function Owed(threads: seq<Thread>): int {
    if threads == [] then 0 else Owed(threads[..|threads| - 1]) + Debt(threads[|threads| - 1].pc)
  }

  lemma {:induction false} OwedUpdate(threads: seq<Thread>, tid: nat, th: Thread)
    requires tid < |threads|
    ensures Owed(threads[tid := th]) == Owed(threads) - Debt(threads[tid].pc) + Debt(th.pc)
  {
    var m := |threads| - 1;
    if tid < m {
      assert threads[tid := th][..m] == threads[..m][tid := th];
      OwedUpdate(threads[..m], tid, th);
    } else {
      assert threads[tid := th][..m] == threads[..m];
    }
  }

  lemma {:induction false} NothingOwed(threads: seq<Thread>)
    requires forall i | 0 <= i < |threads| :: Free(threads[i])
    ensures Owed(threads) == 0
  {
    if threads != [] {
      NothingOwed(threads[..|threads| - 1]);
    }
  }

  // ---- the ledger ----

  function OccupiedSlots(slots: seq<Slot>): nat { Occupancy(A.Views(slots)) }

  function Ledger(s: Sys): int { s.mem.used + Owed(s.threads) - OccupiedSlots(s.mem.slots) }

  predicate PublishesInto(mem: Memory, th: Thread) { th.pc.Publish? && th.pc.idx < |mem.slots| }

  /** The event publishes into a slot, without a counter update to follow. */
  predicate FallbackPublishes(s: Sys, e: Event) {
    e.Tick? && e.tid < |s.threads| && PublishesInto(s.mem, s.threads[e.tid]) && !s.threads[e.tid].pc.count
  }

  /** The event publishes into a slot that is already occupied. */
  predicate Overwrites(s: Sys, e: Event) {
    e.Tick? && e.tid < |s.threads| && PublishesInto(s.mem, s.threads[e.tid])
    && s.mem.slots[s.threads[e.tid].pc.idx].state == OCCUPIED
  }

  /** What the event adds to the ledger. */
  function Drift(h: Hash, s: Sys, e: Event): int {
    One(EvictionWins(h, s, e)) - One(FallbackPublishes(s, e)) + One(Overwrites(s, e))
  }

  lemma OccupiedUpdate(slots: seq<Slot>, idx: nat, slot: Slot)
    requires idx < |slots|
    ensures OccupiedSlots(slots[idx := slot])
            == OccupiedSlots(slots) - One(slots[idx].state == OCCUPIED) + One(slot.state == OCCUPIED)
  {
    assert A.Views(slots[idx := slot]) == A.Views(slots)[idx := A.View(slot)];
    TableProofs.OccupancyUpdate(A.Views(slots), idx, A.View(slot));
  }

  /** How a step changes the number of occupied slots. */
  lemma StepOccupies(h: Hash, mem: Memory, th: Thread, now: u64)
    ensures OccupiedSlots(StepThread(h, mem, th, now).0.slots) == OccupiedSlots(mem.slots)
            - One(EvictWins(h, mem, th)) - One(DelWins(h, mem, th))
            + One(PublishesInto(mem, th) && mem.slots[th.pc.idx].state != OCCUPIED)
  {
    hide OccupiedSlots, StepRead, Here, Clip, AfterWrite;
    var t := Target(h, mem, th);
    if t.Some? {
      OccupiedUpdate(mem.slots, t.value, Written(h, th, mem.slots[t.value]));
    }
  }

  lemma ReadOwesNothing(h: Hash, mem: Memory, th: Thread, now: u64)
    ensures var th' := StepRead(h, mem, th, now);
            (th'.pc.Count? ==> th.pc.Count?) && (th'.pc.Uncount? ==> th.pc.Uncount?)
            && (th.pc.Publish? || th.pc.Bury? || th.pc.Count? || th.pc.Uncount? ==> th'.pc == th.pc)
  {
    hide Here;
  }

  /** How a step changes what its thread owes. */
  lemma StepOwes(h: Hash, mem: Memory, th: Thread, now: u64)
    ensures var (mem', th') := StepThread(h, mem, th, now);
            && Debt(th'.pc) - Debt(th.pc) == One(PublishesInto(mem, th) && th.pc.count) - One(DelWins(h, mem, th))
                                             - One(th.pc.Count?) + One(th.pc.Uncount?)
            && mem'.used == Wrap(mem.used + One(th.pc.Count?) - One(th.pc.Uncount?))
  {
    hide StepRead, Here, Clip, Written;
    ReadOwesNothing(h, mem, th, now);
  }

  lemma SameModulo(x: int, y: int, d: int)
    requires Wrap(x) == Wrap(y)
    ensures Wrap(x + d) == Wrap(y + d)
  {
  }

  /** Modulo 2^64 every event changes the ledger by its drift. */
  lemma LedgerStep(h: Hash, s: Sys, e: Event)
    ensures Wrap(Ledger(Next(h, s, e))) == Wrap(Ledger(s) + Drift(h, s, e))
  {
    hide StepThread, OccupiedSlots, Owed, KeyStored, EvictWins, DelWins;
    if e.tid < |s.threads| {
      var th := s.threads[e.tid];
      if e.Invoke? {
        if Free(th) {
          OwedUpdate(s.threads, e.tid, Next(h, s, e).threads[e.tid]);
        }
      } else {
        var (mem', th') := StepThread(h, s.mem, th, e.now);
        StepOccupies(h, s.mem, th, e.now);
        StepOwes(h, s.mem, th, e.now);
        OwedUpdate(s.threads, e.tid, th');
        var counted := s.mem.used + One(th.pc.Count?) - One(th.pc.Uncount?);
        SameModulo(mem'.used, counted, Owed(Next(h, s, e).threads) - OccupiedSlots(mem'.slots));
      }
    }
  }

  // ---- whole runs ----

  function Fallbacks(h: Hash, s: Sys, events: seq<Event>): nat
    decreases events
  {
    if events == [] then 0 else One(FallbackPublishes(s, events[0])) + Fallbacks(h, Next(h, s, events[0]), events[1..])
  }

  function Overwritten(h: Hash, s: Sys, events: seq<Event>): nat
    decreases events
  {
    if events == [] then 0 else One(Overwrites(s, events[0])) + Overwritten(h, Next(h, s, events[0]), events[1..])
  }

  /**
   * The accounting law over all interleavings, modulo 2^64: counter, plus updates still to come,
   * minus occupied slots, moves by one up for every winning eviction and every publication into an
   * occupied slot, and by one down for every fallback insert, and never otherwise.
   */
  lemma {:induction false} LedgerRun(h: Hash, s: Sys, events: seq<Event>)
    ensures Wrap(Ledger(Exec(h, s, events)))
            == Wrap(Ledger(s) + Evictions(h, s, events) - Fallbacks(h, s, events) + Overwritten(h, s, events))
    decreases events
  {
    hide Next, Ledger, EvictionWins, FallbackPublishes, Overwrites;
    if events != [] {
      var s' := Next(h, s, events[0]);
      var events' := events[1..];
      LedgerStep(h, s, events[0]);
      LedgerRun(h, s', events');
      SameModulo(Ledger(s'), Ledger(s) + Drift(h, s, events[0]),
                 Evictions(h, s', events') - Fallbacks(h, s', events') + Overwritten(h, s', events'));
    }
  }

  lemma {:induction false} NothingStored(n: nat)
    ensures OccupiedSlots(seq(n, _ => A.BLANK_SLOT)) == 0
  {
    var slots := seq(n, _ => A.BLANK_SLOT);
    if n > 0 {
      assert A.Views(slots)[..n - 1] == A.Views(seq(n - 1, _ => A.BLANK_SLOT));
      NothingStored(n - 1);
    }
  }

  /** From a new arena, whenever all threads are between operations, the counter obeys the law outright. */
  lemma {:induction false} CounterAtRest(h: Hash, n: nat, threads: seq<Thread>, events: seq<Event>)
    requires forall i | 0 <= i < |threads| :: Free(threads[i])
    requires var s := Sys(Memory(seq(n, _ => A.BLANK_SLOT), 0), threads);
             forall i | 0 <= i < |threads| :: Free(Exec(h, s, events).threads[i])
    ensures var s := Sys(Memory(seq(n, _ => A.BLANK_SLOT), 0), threads);
            var mem := Exec(h, s, events).mem;
            mem.used == Wrap(OccupiedSlots(mem.slots) + Evictions(h, s, events)
                             - Fallbacks(h, s, events) + Overwritten(h, s, events))
  {
    var s := Sys(Memory(seq(n, _ => A.BLANK_SLOT), 0), threads);
    NothingOwed(threads);
    NothingOwed(Exec(h, s, events).threads);
    NothingStored(n);
    LedgerRun(h, s, events);
    var mem := Exec(h, s, events).mem;
    hide Exec, Evictions, Fallbacks, Overwritten, Owed, OccupiedSlots;
    SameModulo(mem.used - OccupiedSlots(mem.slots),
               Evictions(h, s, events) - Fallbacks(h, s, events) + Overwritten(h, s, events), OccupiedSlots(mem.slots));
  }
}

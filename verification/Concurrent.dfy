/**
 * The table under concurrency: every load, store, compare-and-swap, clock reading and copied byte
 * of GET, SET and DEL is one step, and threads interleave in any order (sequentially consistent).
 */
module Concurrent {
  import opened Bytes
  import opened Probe
  import opened SlotLayout
  import opened Table

  /** An operation in progress; the expiry of a SET was computed when it was called. */
  datatype Job = JGet(key: Bytes) | JSet(key: Bytes, value: Bytes, expiry: u64) | JDel(key: Bytes)

  datatype Result = Got(get: GetResult) | Put(put: SetResult) | Removed(del: DelResult)

  /** Where a thread is; `d` is the probe distance, `idx` a slot being written, `i` a byte position. */
  datatype Pc =
    | Idle
    | Load(d: nat)
    | LoadFp(d: nat)
    | LoadExpiry(d: nat)
    | ReadClock(d: nat, expiry: u64)
    | Evict(d: nat)
    | LoadKeyLen(d: nat)
    | CopyKey(d: nat, len: nat, got: Bytes)
    | LoadValLen(d: nat)
    | CopyVal(d: nat, len: nat, got: Bytes)
    | Bury(d: nat)
    | Uncount
    | UpdateVal(idx: nat, i: nat)
    | UpdateExpiry(idx: nat)
    | ClaimKey(idx: nat, i: nat, count: bool)
    | ClaimVal(idx: nat, i: nat, count: bool)
    | ClaimFp(idx: nat, count: bool)
    | ClaimExpiry(idx: nat, count: bool)
    | Publish(idx: nat, count: bool)
    | Count
    | Done(result: Result)

  /** `present` records whether the key was stored when the operation was called; no step reads it. */
  datatype Thread = Thread(job: Job, pc: Pc, grave: Option<nat>, present: bool)

  datatype Memory = Memory(slots: seq<Slot>, used: u64)

  // ---- one step of one thread ----

  /** The slot at probe distance `d` for the thread's key. */
  function Here(h: Hash, mem: Memory, th: Thread, d: nat): (idx: nat)
    requires d < |mem.slots|
    ensures idx < |mem.slots|
  {
    At(Home(h, th.job.key, |mem.slots|), d, |mem.slots|)
  }

  function Goto(th: Thread, pc: Pc): Thread { th.(pc := pc) }

  function Remember(th: Thread, idx: nat): Thread {
    if th.job.JSet? && th.grave.None? then th.(grave := Some(idx)) else th
  }

  /** The probe ran into an empty slot. */
  function OnEmpty(th: Thread, idx: nat): Thread {
    match th.job
    case JGet(_) => Goto(th, Done(Got(NotFound)))
    case JDel(_) => Goto(th, Done(Removed(Missing)))
    case JSet(_, _, _) => Goto(th, ClaimKey(if th.grave.Some? then th.grave.value else idx, 0, true))
  }

  /** The probe visited every slot. */
  function OnExhausted(th: Thread): Thread {
    match th.job
    case JGet(_) => Goto(th, Done(Got(NotFound)))
    case JDel(_) => Goto(th, Done(Removed(Missing)))
    case JSet(_, _, _) => if th.grave.Some?
        then Goto(th, ClaimKey(th.grave.value, 0, false)) else Goto(th, Done(Put(Full)))
  }

  function OnMatch(th: Thread, d: nat, idx: nat): Thread {
    match th.job
    case JGet(_) => Goto(th, LoadValLen(d))
    case JDel(_) => Goto(th, Bury(d))
    case JSet(_, _, _) => Goto(th, UpdateVal(idx, 0))
  }

  function StepLoad(h: Hash, mem: Memory, th: Thread, d: nat): Thread {
    if d >= |mem.slots| then OnExhausted(th) else
    var idx := Here(h, mem, th, d);
    match mem.slots[idx].state
    case EMPTY => OnEmpty(th, idx)
    case TOMBSTONE => Goto(Remember(th, idx), Load(d + 1))
    case OCCUPIED => Goto(th, LoadFp(d))
  }

  function StepFp(h: Hash, th: Thread, d: nat, slot: Slot): Thread {
    if slot.fingerprint != h(th.job.key) then Goto(th, Load(d + 1))
    else Goto(th, if th.job.JDel? then LoadKeyLen(d) else LoadExpiry(d))
  }

  function StepExpiry(th: Thread, d: nat, slot: Slot): Thread {
    Goto(th, if slot.expiresAt == 0 then LoadKeyLen(d) else ReadClock(d, slot.expiresAt))
  }

  function StepCopyKey(th: Thread, d: nat, len: nat, got: Bytes, idx: nat, slot: Slot): Thread {
    if |got| < len && |got| < MAX_KEY_LEN then Goto(th, CopyKey(d, len, got + [slot.keyBuf[|got|]]))
    else if got != th.job.key then Goto(th, Load(d + 1))
    else OnMatch(th, d, idx)
  }

  function StepCopyVal(th: Thread, d: nat, len: nat, got: Bytes, slot: Slot): Thread {
    if |got| < len && |got| < MAX_VAL_LEN then Goto(th, CopyVal(d, len, got + [slot.valBuf[|got|]]))
    else Goto(th, Done(Got(Found(got))))
  }

  /** The steps that only read shared memory. */
  function StepRead(h: Hash, mem: Memory, th: Thread, now: u64): Thread {
    match th.pc
    case Load(d) => StepLoad(h, mem, th, d)
    case ReadClock(d, e) => Goto(th, if now >= e then Evict(d) else LoadKeyLen(d))
    case LoadFp(d) => if d < |mem.slots| then StepFp(h, th, d, mem.slots[Here(h, mem, th, d)]) else th
    case LoadExpiry(d) => if d < |mem.slots| then StepExpiry(th, d, mem.slots[Here(h, mem, th, d)]) else th
    case LoadKeyLen(d) =>
      if d < |mem.slots| then Goto(th, CopyKey(d, Min(mem.slots[Here(h, mem, th, d)].keyLen, MAX_KEY_LEN), [])) else th
    case CopyKey(d, len, got) =>
      if d < |mem.slots| then StepCopyKey(th, d, len, got, Here(h, mem, th, d), mem.slots[Here(h, mem, th, d)]) else th
    case LoadValLen(d) =>
      if d < |mem.slots| then Goto(th, CopyVal(d, Min(mem.slots[Here(h, mem, th, d)].valLen, MAX_VAL_LEN), [])) else th
    case CopyVal(d, len, got) =>
      if d < |mem.slots| then StepCopyVal(th, d, len, got, mem.slots[Here(h, mem, th, d)]) else th
    case _ => th
  }

  /** Compare-and-swap OCCUPIED -> TOMBSTONE. */
  function Cas(slot: Slot): Slot {
    if slot.state == OCCUPIED then slot.(state := TOMBSTONE) else slot
  }

  function Value(th: Thread): Bytes { if th.job.JSet? then th.job.value else [] }

  function Expiry(th: Thread): u64 { if th.job.JSet? then th.job.expiry else 0 }

  /** Copy byte `i`, or store the length once all bytes are there. */
  function WriteKeyByte(slot: Slot, key: Bytes, i: nat): Slot {
    var k := Clip(key, MAX_KEY_LEN);
    if i < |k| then slot.(keyBuf := slot.keyBuf[i := k[i]]) else slot.(keyLen := |k|)
  }

  function WriteValByte(slot: Slot, value: Bytes, i: nat): Slot {
    var v := Clip(value, MAX_VAL_LEN);
    if i < |v| then slot.(valBuf := slot.valBuf[i := v[i]]) else slot.(valLen := |v|)
  }

  /** What the thread's step does to slot `idx`, for the steps that write to a slot. */
  function Written(h: Hash, th: Thread, slot: Slot): Slot {
    match th.pc
    case Evict(_) => Cas(slot)
    case Bury(_) => Cas(slot)
    case UpdateVal(_, i) => WriteValByte(slot, Value(th), i)
    case UpdateExpiry(_) => slot.(expiresAt := Expiry(th))
    case ClaimKey(_, i, _) => WriteKeyByte(slot, th.job.key, i)
    case ClaimVal(_, i, _) => WriteValByte(slot, Value(th), i)
    case ClaimFp(_, _) => slot.(fingerprint := h(th.job.key))
    case ClaimExpiry(_, _) => slot.(expiresAt := Expiry(th))
    case Publish(_, _) => slot.(state := OCCUPIED)
    case _ => slot
  }

  /** Where a writing step goes next, given the state of the slot before it. */
  function AfterWrite(th: Thread, idx: nat, was: State): Thread {
    match th.pc
    case Evict(d) =>
      if th.job.JGet? then Goto(th, Done(Got(Expired))) else Goto(Remember(th, idx), Load(d + 1))
    case Bury(d) => Goto(th, if was == OCCUPIED then Uncount else Load(d + 1))
    case UpdateVal(_, i) => Goto(th, if i < |Clip(Value(th), MAX_VAL_LEN)|
        then UpdateVal(idx, i + 1) else UpdateExpiry(idx))
    case UpdateExpiry(_) => Goto(th, Done(Put(Updated)))
    case ClaimKey(_, i, c) => Goto(th, if i < |Clip(th.job.key, MAX_KEY_LEN)|
        then ClaimKey(idx, i + 1, c) else ClaimVal(idx, 0, c))
    case ClaimVal(_, i, c) => Goto(th, if i < |Clip(Value(th), MAX_VAL_LEN)|
        then ClaimVal(idx, i + 1, c) else ClaimFp(idx, c))
    case ClaimFp(_, c) => Goto(th, ClaimExpiry(idx, c))
    case ClaimExpiry(_, c) => Goto(th, Publish(idx, c))
    case Publish(_, c) => Goto(th, if c then Count else Done(Put(Inserted)))
    case _ => th
  }

  /** The slot the thread's next step writes to, if any. */
  function Target(h: Hash, mem: Memory, th: Thread): (t: Option<nat>)
    ensures t.Some? ==> t.value < |mem.slots|
  {
    match th.pc
    case Evict(d) => if d < |mem.slots| then Some(Here(h, mem, th, d)) else None
    case Bury(d) => if d < |mem.slots| then Some(Here(h, mem, th, d)) else None
    case UpdateVal(idx, _) => if idx < |mem.slots| then Some(idx) else None
    case UpdateExpiry(idx) => if idx < |mem.slots| then Some(idx) else None
    case ClaimKey(idx, _, _) => if idx < |mem.slots| then Some(idx) else None
    case ClaimVal(idx, _, _) => if idx < |mem.slots| then Some(idx) else None
    case ClaimFp(idx, _) => if idx < |mem.slots| then Some(idx) else None
    case ClaimExpiry(idx, _) => if idx < |mem.slots| then Some(idx) else None
    case Publish(idx, _) => if idx < |mem.slots| then Some(idx) else None
    case _ => None
  }

  function StepThread(h: Hash, mem: Memory, th: Thread, now: u64): (r: (Memory, Thread))
    ensures |r.0.slots| == |mem.slots|
  {
    var t := Target(h, mem, th);
    if t.Some? then
      (mem.(slots := mem.slots[t.value := Written(h, th, mem.slots[t.value])]),
          AfterWrite(th, t.value, mem.slots[t.value].state))
    else if th.pc.Count? then (mem.(used := Wrap(mem.used + 1)), Goto(th, Done(Put(Inserted))))
    else if th.pc.Uncount? then (mem.(used := Wrap(mem.used - 1)), Goto(th, Done(Removed(Deleted))))
    else (mem, StepRead(h, mem, th, now))
  }

  // ---- the system ----

  datatype Sys = Sys(mem: Memory, threads: seq<Thread>)

  /** A thread is called with a new operation, or takes one step at some clock reading. */
  datatype Event = Invoke(tid: nat, job: Job) | Tick(tid: nat, now: u64)

  predicate Free(th: Thread) { th.pc.Idle? || th.pc.Done? }

  predicate KeyStored(slots: seq<Slot>, key: Bytes) {
    exists i :: 0 <= i < |slots| && slots[i].state == OCCUPIED && ReadKey(slots[i]) == key
  }

  function Next(h: Hash, s: Sys, e: Event): (s': Sys)
    ensures |s'.threads| == |s.threads| && |s'.mem.slots| == |s.mem.slots|
  {
    if e.tid >= |s.threads| then s else
    match e
    case Invoke(tid, job) =>
      if !Free(s.threads[tid]) then s
      else s.(threads := s.threads[tid := Thread(job, Load(0), None, KeyStored(s.mem.slots, job.key))])
    case Tick(tid, now) =>
      var (mem, th) := StepThread(h, s.mem, s.threads[tid], now);
      Sys(mem, s.threads[tid := th])
  }

  function Exec(h: Hash, s: Sys, events: seq<Event>): (s': Sys)
    ensures |s'.threads| == |s.threads| && |s'.mem.slots| == |s.mem.slots|
    decreases events
  {
    if events == [] then s else Exec(h, Next(h, s, events[0]), events[1..])
  }

  // ---- slot states over every interleaving ----

  /** One step changes the state of at most its target slot, in one of two ways. */
  lemma StateChange(h: Hash, mem: Memory, th: Thread, now: u64, i: nat)
    requires i < |mem.slots|
    ensures var was, after := mem.slots[i].state, StepThread(h, mem, th, now).0.slots[i].state;
            if Target(h, mem, th) == Some(i) && (th.pc.Evict? || th.pc.Bury?) && was == OCCUPIED then after == TOMBSTONE
            else if Target(h, mem, th) == Some(i) && th.pc.Publish? then after == OCCUPIED
            else after == was
  {
    hide Here, Clip, StepRead;
  }

  /** A slot that left EMPTY never becomes EMPTY again, under any interleaving of GET, SET and DEL. */
  lemma {:induction false} NeverEmptyAgain(h: Hash, s: Sys, events: seq<Event>, i: nat)
    requires i < |s.mem.slots| && s.mem.slots[i].state != EMPTY
    ensures Exec(h, s, events).mem.slots[i].state != EMPTY
    decreases events
  {
    if events != [] {
      hide StepThread;
      var e := events[0];
      if e.tid < |s.threads| && e.Tick? {
        StateChange(h, s.mem, s.threads[e.tid], e.now, i);
      }
      NeverEmptyAgain(h, Next(h, s, e), events[1..], i);
    }
  }

  function One(b: bool): nat { if b then 1 else 0 }

  /** The event turns slot `i` from OCCUPIED to TOMBSTONE. */
  predicate Buries(h: Hash, s: Sys, e: Event, i: nat)
    requires i < |s.mem.slots|
  {
    s.mem.slots[i].state == OCCUPIED && Next(h, s, e).mem.slots[i].state == TOMBSTONE
  }

  /** The event is the publishing store of a SET into slot `i`. */
  predicate Publishes(h: Hash, s: Sys, e: Event, i: nat) {
    e.Tick? && e.tid < |s.threads| && s.threads[e.tid].pc.Publish? && s.threads[e.tid].pc.idx == i
  }

  function BurialsOf(h: Hash, s: Sys, events: seq<Event>, i: nat): nat
    requires i < |s.mem.slots|
    decreases events
  {
    if events == [] then 0 else One(Buries(h, s, events[0], i)) + BurialsOf(h, Next(h, s, events[0]), events[1..], i)
  }

  function PublicationsOf(h: Hash, s: Sys, events: seq<Event>, i: nat): nat
    requires i < |s.mem.slots|
    decreases events
  {
    if events == [] then 0
    else One(Publishes(h, s, events[0], i)) + PublicationsOf(h, Next(h, s, events[0]), events[1..], i)
  }

  lemma PublishTarget(h: Hash, mem: Memory, th: Thread, i: nat)
    ensures th.pc.Publish? && Target(h, mem, th) == Some(i) ==> th.pc.idx == i
  {
  }

  lemma SlotBalanceStep(h: Hash, s: Sys, e: Event, i: nat)
    requires i < |s.mem.slots|
    ensures One(Buries(h, s, e, i)) + One(Next(h, s, e).mem.slots[i].state == OCCUPIED)
         <= One(s.mem.slots[i].state == OCCUPIED) + One(Publishes(h, s, e, i))
  {
    hide StepThread, KeyStored, Target;
    if e.tid < |s.threads| && e.Tick? {
      var th := s.threads[e.tid];
      StateChange(h, s.mem, th, e.now, i);
      PublishTarget(h, s.mem, th, i);
    }
  }

  /**
   * No occupancy is deleted twice: over any interleaving the OCCUPIED -> TOMBSTONE transitions of
   * a slot, plus one if it ends up occupied, never exceed its publications, plus one if it started
   * occupied.
   */
  lemma {:induction false} NoDoubleDelete(h: Hash, s: Sys, events: seq<Event>, i: nat)
    requires i < |s.mem.slots|
    ensures BurialsOf(h, s, events, i) + One(Exec(h, s, events).mem.slots[i].state == OCCUPIED)
         <= One(s.mem.slots[i].state == OCCUPIED) + PublicationsOf(h, s, events, i)
    decreases events
  {
    if events != [] {
      hide Next, Buries, Publishes;
      SlotBalanceStep(h, s, events[0], i);
      NoDoubleDelete(h, Next(h, s, events[0]), events[1..], i);
    }
  }

  // ---- who causes the transitions ----

  /** All slots the event turns from OCCUPIED to TOMBSTONE. */
  ghost function Buried(h: Hash, s: Sys, e: Event): set<nat> {
    set i | 0 <= i < |s.mem.slots| && Buries(h, s, e, i)
  }

  predicate EvictWins(h: Hash, mem: Memory, th: Thread) {
    th.pc.Evict? && th.pc.d < |mem.slots| && mem.slots[Here(h, mem, th, th.pc.d)].state == OCCUPIED
  }

  /** The event is an eviction whose compare-and-swap wins. */
  predicate EvictionWins(h: Hash, s: Sys, e: Event) {
    e.Tick? && e.tid < |s.threads| && EvictWins(h, s.mem, s.threads[e.tid])
  }

  /** The event makes a DEL return `Deleted`. */
  predicate ReturnsDeleted(h: Hash, s: Sys, e: Event) {
    e.Tick? && e.tid < |s.threads| && !s.threads[e.tid].pc.Done?
    && Next(h, s, e).threads[e.tid].pc == Done(Removed(Deleted))
  }

  /** DELs that won their slot but have not returned yet. */
  function Pending(threads: seq<Thread>): nat {
    if threads == [] then 0 else Pending(threads[..|threads| - 1]) + One(threads[|threads| - 1].pc.Uncount?)
  }

  lemma {:induction false} PendingUpdate(threads: seq<Thread>, tid: nat, th: Thread)
    requires tid < |threads|
    ensures Pending(threads[tid := th]) + One(threads[tid].pc.Uncount?) == Pending(threads) + One(th.pc.Uncount?)
  {
    var m := |threads| - 1;
    if tid < m {
      assert threads[tid := th][..m] == threads[..m][tid := th];
      PendingUpdate(threads[..m], tid, th);
    } else {
      assert threads[tid := th][..m] == threads[..m];
    }
  }

  predicate DelWins(h: Hash, mem: Memory, th: Thread) {
    th.pc.Bury? && th.pc.d < |mem.slots| && mem.slots[Here(h, mem, th, th.pc.d)].state == OCCUPIED
  }

  lemma ReadNeverReturnsDeleted(h: Hash, mem: Memory, th: Thread, now: u64)
    ensures var th' := StepRead(h, mem, th, now);
            (th'.pc.Uncount? ==> th.pc.Uncount?)
                && (th'.pc == Done(Removed(Deleted)) ==> th.pc == Done(Removed(Deleted)))
  {
    hide Here;
  }

  lemma ReadDone(h: Hash, mem: Memory, th: Thread, now: u64)
    requires th.pc.Done?
    ensures StepRead(h, mem, th, now) == th
  {
  }

  lemma ReadBury(h: Hash, mem: Memory, th: Thread, now: u64)
    requires th.pc.Bury?
    ensures StepRead(h, mem, th, now) == th
  {
  }

  /** A thread is about to return `Deleted` exactly after its compare-and-swap won. */
  lemma DeleteProgress(h: Hash, mem: Memory, th: Thread, now: u64)
    ensures var th' := StepThread(h, mem, th, now).1;
            && (th'.pc.Uncount? <==> DelWins(h, mem, th))
            && (th'.pc == Done(Removed(Deleted)) <==> th.pc.Uncount? || th.pc == Done(Removed(Deleted)))
  {
    hide StepRead, Here, Clip, Written;
    ReadNeverReturnsDeleted(h, mem, th, now);
    if th.pc.Done? {
      ReadDone(h, mem, th, now);
    }
    if th.pc.Bury? && th.pc.d >= |mem.slots| {
      ReadBury(h, mem, th, now);
    }
  }

  /** A step buries its target when one of the two compare-and-swaps wins, and nothing otherwise. */
  lemma StepBuries(h: Hash, s: Sys, e: Event)
    requires e.Tick? && e.tid < |s.threads|
    ensures var th := s.threads[e.tid];
            |Buried(h, s, e)| == One(EvictWins(h, s.mem, th)) + One(DelWins(h, s.mem, th))
  {
    var th := s.threads[e.tid];
    var t := Target(h, s.mem, th);
    forall i: nat | i < |s.mem.slots|
      ensures Buries(h, s, e, i) <==> t == Some(i) && (EvictWins(h, s.mem, th) || DelWins(h, s.mem, th))
    {
      hide StepThread, Here;
      StateChange(h, s.mem, th, e.now, i);
    }
    if EvictWins(h, s.mem, th) || DelWins(h, s.mem, th) {
      assert Buried(h, s, e) == {t.value};
    } else {
      assert Buried(h, s, e) == {};
    }
  }

  lemma InvokeBuries(h: Hash, s: Sys, e: Event)
    requires e.Invoke? || e.tid >= |s.threads|
    ensures Buried(h, s, e) == {} && Next(h, s, e).mem == s.mem
  {
  }

  lemma InvokePending(h: Hash, s: Sys, e: Event)
    requires e.Invoke? || e.tid >= |s.threads|
    ensures Pending(Next(h, s, e).threads) == Pending(s.threads)
  {
    hide KeyStored;
    if e.tid < |s.threads| && Free(s.threads[e.tid]) {
      PendingUpdate(s.threads, e.tid, Next(h, s, e).threads[e.tid]);
    }
  }

  lemma WinsIsBury(h: Hash, mem: Memory, th: Thread)
    ensures DelWins(h, mem, th) ==> th.pc.Bury?
  {
  }

  lemma TransitionStep(h: Hash, s: Sys, e: Event)
    ensures |Buried(h, s, e)| + Pending(s.threads)
         == One(EvictionWins(h, s, e)) + One(ReturnsDeleted(h, s, e)) + Pending(Next(h, s, e).threads)
  {
    hide StepThread, Buried, DelWins, EvictWins, KeyStored;
    if e.Invoke? || e.tid >= |s.threads| {
      InvokeBuries(h, s, e);
      InvokePending(h, s, e);
    } else {
      var th := s.threads[e.tid];
      StepBuries(h, s, e);
      DeleteProgress(h, s.mem, th, e.now);
      WinsIsBury(h, s.mem, th);
      PendingUpdate(s.threads, e.tid, StepThread(h, s.mem, th, e.now).1);
    }
  }

  /** Totals over a run: slot transitions, winning evictions, `Deleted` answers. */
  ghost function Transitions(h: Hash, s: Sys, events: seq<Event>): nat
    decreases events
  {
    if events == [] then 0 else |Buried(h, s, events[0])| + Transitions(h, Next(h, s, events[0]), events[1..])
  }

  function Evictions(h: Hash, s: Sys, events: seq<Event>): nat
    decreases events
  {
    if events == [] then 0 else One(EvictionWins(h, s, events[0])) + Evictions(h, Next(h, s, events[0]), events[1..])
  }

  function Deletions(h: Hash, s: Sys, events: seq<Event>): nat
    decreases events
  {
    if events == [] then 0 else One(ReturnsDeleted(h, s, events[0])) + Deletions(h, Next(h, s, events[0]), events[1..])
  }

  /**
   * Over every interleaving the OCCUPIED -> TOMBSTONE transitions are exactly the winning
   * evictions plus the `Deleted` answers, up to DELs caught between winning and returning.
   */
  lemma {:induction false} TransitionsAreAccountedFor(h: Hash, s: Sys, events: seq<Event>)
    ensures Transitions(h, s, events) + Pending(s.threads)
         == Evictions(h, s, events) + Deletions(h, s, events) + Pending(Exec(h, s, events).threads)
    decreases events
  {
    hide Next, Buried, EvictionWins, ReturnsDeleted, Pending;
    if events != [] {
      TransitionStep(h, s, events[0]);
      TransitionsAreAccountedFor(h, Next(h, s, events[0]), events[1..]);
    }
  }
}

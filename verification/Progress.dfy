/**
 * GET, SET and DEL are wait-free: each finishes within a bounded number of its own steps, whatever
 * the other threads do in between.
 */
module Progress {
  import opened Bytes
  import opened SlotLayout
  import opened Table
  import opened Concurrent
  import opened Publication

  /** Most steps a probe spends on one slot. */
  const PER_SLOT: nat := 140

  /** Most steps from the end of the probe to the answer. */
  const TAIL: nat := 1200

  /** Indices, distances and byte positions a thread can really have. */
  predicate Bounded(n: nat, th: Thread) {
    && (th.grave.Some? ==> th.grave.value < n)
    && match th.pc
       case Load(d) => d <= n
       case LoadFp(d) => d < n
       case LoadExpiry(d) => d < n
       case ReadClock(d, _) => d < n
       case Evict(d) => d < n
       case LoadKeyLen(d) => d < n
       case CopyKey(d, _, got) => d < n && |got| <= MAX_KEY_LEN
       case LoadValLen(d) => d < n
       case CopyVal(d, _, got) => d < n && |got| <= MAX_VAL_LEN
       case Bury(d) => d < n
       case UpdateVal(idx, i) => idx < n && i <= MAX_VAL_LEN
       case UpdateExpiry(idx) => idx < n
       case ClaimKey(idx, i, _) => idx < n && i <= MAX_KEY_LEN
       case ClaimVal(idx, i, _) => idx < n && i <= MAX_VAL_LEN
       case ClaimFp(idx, _) => idx < n
       case ClaimExpiry(idx, _) => idx < n
       case Publish(idx, _) => idx < n
       case _ => true
  }

  /** An upper bound on the steps the thread still needs. */
  function Left(n: nat, th: Thread): nat
    requires Bounded(n, th)
  {
    match th.pc
    case Idle => 0
    case Done(_) => 0
    case Load(d) => TAIL + (n - d) * PER_SLOT + 1
    case LoadFp(d) => TAIL + (n - d) * PER_SLOT
    case LoadExpiry(d) => TAIL + (n - d) * PER_SLOT - 1
    case ReadClock(d, _) => TAIL + (n - d) * PER_SLOT - 2
    case Evict(d) => TAIL + (n - d) * PER_SLOT - 3
    case LoadKeyLen(d) => TAIL + (n - d) * PER_SLOT - 3
    case CopyKey(d, _, got) => TAIL + (n - d) * PER_SLOT - PER_SLOT + 3 + (MAX_KEY_LEN - |got|)
    case Bury(d) => TAIL + (n - d) * PER_SLOT - PER_SLOT + 2
    case Uncount => 1
    case LoadValLen(_) => MAX_VAL_LEN + 2
    case CopyVal(_, _, got) => 1 + (MAX_VAL_LEN - |got|)
    case UpdateVal(_, i) => 2 + (MAX_VAL_LEN - i)
    case UpdateExpiry(_) => 1
    case ClaimKey(_, i, _) => MAX_VAL_LEN + 6 + (MAX_KEY_LEN - i)
    case ClaimVal(_, i, _) => 5 + (MAX_VAL_LEN - i)
    case ClaimFp(_, _) => 4
    case ClaimExpiry(_, _) => 3
    case Publish(_, _) => 2
    case Count => 1
  }

  lemma LoadDecreases(h: Hash, mem: Memory, th: Thread, d: nat)
    requires Bounded(|mem.slots|, th) && th.pc == Load(d)
    ensures var th' := StepLoad(h, mem, th, d);
            Bounded(|mem.slots|, th') && Left(|mem.slots|, th') < Left(|mem.slots|, th)
  {
  }

  lemma CopyKeyDecreases(h: Hash, mem: Memory, th: Thread, now: u64)
    requires Bounded(|mem.slots|, th) && th.pc.CopyKey?
    ensures var th' := StepRead(h, mem, th, now);
            Bounded(|mem.slots|, th') && Left(|mem.slots|, th') < Left(|mem.slots|, th)
  {
  }

  lemma ReadDecreases(h: Hash, mem: Memory, th: Thread, now: u64)
    requires Bounded(|mem.slots|, th) && Target(h, mem, th).None? && !Free(th) && !th.pc.Count? && !th.pc.Uncount?
    ensures var th' := StepRead(h, mem, th, now);
            Bounded(|mem.slots|, th') && Left(|mem.slots|, th') < Left(|mem.slots|, th)
  {
    hide ReadKey, ReadValue;
    if th.pc.CopyKey? {
      CopyKeyDecreases(h, mem, th, now);
    } else if th.pc.Load? {
      LoadDecreases(h, mem, th, th.pc.d);
      ReadStays(h, mem, th, now);
    }
  }

  lemma CasDecreases(n: nat, th: Thread, idx: nat, was: State)
    requires Bounded(n, th) && idx < n && (th.pc.Evict? || th.pc.Bury?)
    ensures var th' := AfterWrite(th, idx, was); Bounded(n, th') && Left(n, th') < Left(n, th)
  {
  }

  lemma UpdateDecreases(n: nat, th: Thread, idx: nat, was: State)
    requires Bounded(n, th) && idx < n && (th.pc.UpdateVal? || th.pc.UpdateExpiry?)
    ensures var th' := AfterWrite(th, idx, was); Bounded(n, th') && Left(n, th') < Left(n, th)
  {
  }

  lemma ClaimDecreases(n: nat, th: Thread, idx: nat, was: State)
    requires Bounded(n, th) && idx < n
    requires th.pc.ClaimKey? || th.pc.ClaimVal? || th.pc.ClaimFp? || th.pc.ClaimExpiry? || th.pc.Publish?
    ensures var th' := AfterWrite(th, idx, was); Bounded(n, th') && Left(n, th') < Left(n, th)
  {
  }

  lemma WritePoints(h: Hash, mem: Memory, th: Thread)
    requires Target(h, mem, th).Some?
    ensures th.pc.Evict? || th.pc.Bury? || th.pc.UpdateVal? || th.pc.UpdateExpiry? || th.pc.ClaimKey? || th.pc.ClaimVal?
            || th.pc.ClaimFp? || th.pc.ClaimExpiry? || th.pc.Publish?
  {
  }

  lemma WriteDecreases(h: Hash, mem: Memory, th: Thread, now: u64)
    requires Bounded(|mem.slots|, th) && Target(h, mem, th).Some?
    ensures var th' := StepThread(h, mem, th, now).1;
            Bounded(|mem.slots|, th') && Left(|mem.slots|, th') < Left(|mem.slots|, th)
  {
    WritePoints(h, mem, th);
    hide Written, StepRead, Here, Left, Bounded, AfterWrite, Target;
    var n, idx := |mem.slots|, Target(h, mem, th).value;
    var was := mem.slots[idx].state;
    if th.pc.Evict? || th.pc.Bury? {
      CasDecreases(n, th, idx, was);
    } else if th.pc.UpdateVal? || th.pc.UpdateExpiry? {
      UpdateDecreases(n, th, idx, was);
    } else {
      ClaimDecreases(n, th, idx, was);
    }
  }

  /** Every step of a running operation brings it closer to its answer. */
  lemma StepDecreases(h: Hash, mem: Memory, th: Thread, now: u64)
    requires Bounded(|mem.slots|, th)
    ensures var th' := StepThread(h, mem, th, now).1;
            Bounded(|mem.slots|, th') && if Free(th) then th' == th else Left(|mem.slots|, th') < Left(|mem.slots|, th)
  {
    hide StepRead, Written;
    if Target(h, mem, th).Some? {
      WriteDecreases(h, mem, th, now);
    } else if Free(th) {
      ReadStays(h, mem, th, now);
    } else if !th.pc.Count? && !th.pc.Uncount? {
      ReadDecreases(h, mem, th, now);
    }
  }

  /** Steps thread `r` takes in the run. */
  function TicksOf(events: seq<Event>, r: nat): nat {
    if events == [] then 0 else TicksOf(events[1..], r) + One(events[0].Tick? && events[0].tid == r)
  }

  lemma NothingLeft(n: nat, th: Thread)
    requires Bounded(n, th) && Left(n, th) == 0
    ensures Free(th)
  {
  }

  lemma FreeHasNothingLeft(n: nat, th: Thread)
    requires Bounded(n, th) && Free(th)
    ensures Left(n, th) == 0
  {
  }

  lemma NextOf(h: Hash, s: Sys, e: Event, r: nat)
    requires r < |s.threads| && (e.Invoke? ==> e.tid != r)
    ensures Next(h, s, e).threads[r] ==
            if e.Tick? && e.tid == r then StepThread(h, s.mem, s.threads[r], e.now).1 else s.threads[r]
  {
    hide StepThread, KeyStored;
  }

  /** After as many own steps as its bound, an operation is done, under every interleaving. */
  lemma {:induction false} WaitFree(h: Hash, s: Sys, events: seq<Event>, r: nat)
    requires r < |s.threads| && Bounded(|s.mem.slots|, s.threads[r]) && NotCalled(events, r)
    requires TicksOf(events, r) >= Left(|s.mem.slots|, s.threads[r])
    ensures Free(Exec(h, s, events).threads[r])
    decreases events
  {
    var n := |s.mem.slots|;
    if events == [] {
      NothingLeft(n, s.threads[r]);
    } else {
      var e := events[0];
      assert NotCalled(events[1..], r);
      NextOf(h, s, e, r);
      if e == Tick(r, if e.Tick? then e.now else 0) {
        StepDecreases(h, s.mem, s.threads[r], e.now);
      }
      hide Left, Bounded, Next, StepThread, NotCalled;
      if Free(s.threads[r]) {
        FreeHasNothingLeft(n, s.threads[r]);
      }
      WaitFree(h, Next(h, s, e), events[1..], r);
    }
  }

  lemma StepNeverIdle(h: Hash, mem: Memory, th: Thread, now: u64)
    requires !th.pc.Idle?
    ensures !StepThread(h, mem, th, now).1.pc.Idle?
  {
    hide Written, Here, Clip;
  }

  lemma {:induction false} GetNeverIdle(h: Hash, s: Sys, events: seq<Event>, r: nat)
    requires r < |s.threads| && !s.threads[r].pc.Idle? && NotCalled(events, r)
    ensures !Exec(h, s, events).threads[r].pc.Idle?
    decreases events
  {
    if events != [] {
      var e := events[0];
      assert NotCalled(events[1..], r);
      NextOf(h, s, e, r);
      if e.Tick? {
        StepNeverIdle(h, s.mem, s.threads[r], e.now);
      }
      hide Next, StepThread, NotCalled;
      GetNeverIdle(h, Next(h, s, e), events[1..], r);
    }
  }

  /** A thread called with a GET is done once it has taken its share of steps. */
  lemma GetFinishes(h: Hash, s: Sys, events: seq<Event>, r: nat, key: Bytes)
    requires r < |s.threads| && Free(s.threads[r]) && NotCalled(events, r)
    requires TicksOf(events, r) > TAIL + |s.mem.slots| * PER_SLOT
    ensures Exec(h, Called(h, s, r, key), events).threads[r].pc.Done?
  {
    var s1 := Called(h, s, r, key);
    assert s1.threads[r].pc == Load(0) && s1.threads[r].grave.None? && |s1.mem.slots| == |s.mem.slots|;
    hide Called;
    WaitFree(h, s1, events, r);
    GetNeverIdle(h, s1, events, r);
  }

  /**
   * Called at any time after the SET of its key returned, a GET answers with that value after a
   * bounded number of its own steps, whatever the writer and the other readers do.
   */
  lemma {:induction false} GetAfterSetReturns(h: Hash, s: Sys, before: seq<Event>, events: seq<Event>, w: nat, r: nat)
    requires Setting(h, s, w) && s.threads[w].pc == Done(Put(Inserted)) && s.threads[w].job.JSet?
    requires RunPermitted(h, s, before, w)
    requires r < |s.threads| && r != w && Free(Exec(h, s, before).threads[r])
    requires RunPermitted(h, Called(h, Exec(h, s, before), r, s.threads[w].job.key), events, w) && NotCalled(events, r)
    requires TicksOf(events, r) > TAIL + |s.mem.slots| * PER_SLOT
    ensures var job := s.threads[w].job;
            Exec(h, Called(h, Exec(h, s, before), r, job.key), events).threads[r].pc == Done(Got(Found(job.value)))
  {
    var key := s.threads[w].job.key;
    hide *;
    GetFinishes(h, Exec(h, s, before), events, r, key);
    GetAfterSetFinds(h, s, before, events, w, r);
  }
}

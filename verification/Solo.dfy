/**
 * The step model and the sequential table agree: an operation whose steps run undisturbed, at one
 * clock reading, computes exactly the function of `Table`.
 */
module Solo {
  import opened Bytes
  import opened Probe
  import opened SlotLayout
  import opened Table
  import opened Concurrent
  import opened Progress
  import Publication
  import TableProofs
  import A = Arena

  /** Run one thread alone until its operation is done. */
  function Alone(h: Hash, mem: Memory, th: Thread, now: u64): (Memory, Thread)
    requires Bounded(|mem.slots|, th)
    decreases Left(|mem.slots|, th)
  {
    if Free(th) then (mem, th)
    else
      StepDecreases(h, mem, th, now);
      var (mem', th') := StepThread(h, mem, th, now);
      Alone(h, mem', th', now)
  }

  /** `b` is reached from `a` by undisturbed steps. */
  ghost predicate Leads(h: Hash, now: u64, mem: Memory, th: Thread, mem': Memory, th': Thread) {
    && |mem'.slots| == |mem.slots| && Bounded(|mem.slots|, th) && Bounded(|mem.slots|, th')
    && Alone(h, mem, th, now) == Alone(h, mem', th', now)
  }

  lemma LeadsOn(h: Hash, now: u64, m0: Memory, t0: Thread, m1: Memory, t1: Thread, m2: Memory, t2: Thread)
    requires Leads(h, now, m0, t0, m1, t1) && Leads(h, now, m1, t1, m2, t2)
    ensures Leads(h, now, m0, t0, m2, t2)
  {
  }

  lemma LeadsStep(h: Hash, now: u64, mem: Memory, th: Thread)
    requires Bounded(|mem.slots|, th) && !Free(th)
    ensures var (mem', th') := StepThread(h, mem, th, now); Leads(h, now, mem, th, mem', th')
  {
    StepDecreases(h, mem, th, now);
    hide StepThread, Bounded, Left;
  }

  lemma ReadOnly(h: Hash, mem: Memory, th: Thread, now: u64)
    requires Publication.ReadPoint(th.pc) || th.pc.ReadClock?
    ensures StepThread(h, mem, th, now) == (mem, StepRead(h, mem, th, now))
  {
    hide StepRead;
  }

  /** A step that only reads. */
  lemma LeadsRead(h: Hash, now: u64, mem: Memory, th: Thread)
    requires Bounded(|mem.slots|, th) && (Publication.ReadPoint(th.pc) || th.pc.ReadClock?) && !th.pc.Done?
    ensures Leads(h, now, mem, th, mem, StepRead(h, mem, th, now))
  {
    LeadsStep(h, now, mem, th);
    ReadOnly(h, mem, th, now);
  }

  // ---- examining one occupied slot ----

  lemma LeadsBounded(h: Hash, now: u64, mem: Memory, th: Thread, mem': Memory, th': Thread)
    requires Leads(h, now, mem, th, mem', th')
    ensures |mem'.slots| == |mem.slots| && Bounded(|mem'.slots|, th')
  {
  }

  lemma SameHere(h: Hash, mem: Memory, th: Thread, th': Thread, d: nat)
    requires d < |mem.slots| && th'.job == th.job
    ensures Here(h, mem, th', d) == Here(h, mem, th, d)
  {
  }

  lemma SameGoto(th: Thread, th': Thread, d: nat, idx: nat)
    requires th' == th.(pc := th'.pc)
    ensures OnMatch(th', d, idx) == OnMatch(th, d, idx) && Goto(th', Load(d + 1)) == Goto(th, Load(d + 1))
  {
  }

  /** Copying the rest of the key byte by byte ends in the comparison with the whole key. */
  lemma {:induction false} CopiesKey(h: Hash, now: u64, mem: Memory, th: Thread, d: nat, got: Bytes)
    requires Bounded(|mem.slots|, th) && d < |mem.slots|
    requires var slot := mem.slots[Here(h, mem, th, d)];
             th.pc == CopyKey(d, Min(slot.keyLen, MAX_KEY_LEN), got) && got <= ReadKey(slot)
    ensures var idx := Here(h, mem, th, d);
            Leads(h, now, mem, th, mem, if ReadKey(mem.slots[idx]) == th.job.key
                then OnMatch(th, d, idx) else Goto(th, Load(d + 1)))
    decreases MAX_KEY_LEN - |got|
  {
    var idx := Here(h, mem, th, d);
    var slot := mem.slots[idx];
    var th' := StepRead(h, mem, th, now);
    LeadsRead(h, now, mem, th);
    hide Here, Leads, Bounded, OnMatch;
    if |got| < Min(slot.keyLen, MAX_KEY_LEN) {
      assert got + [slot.keyBuf[|got|]] <= ReadKey(slot);
      assert th' == Goto(th, CopyKey(d, Min(slot.keyLen, MAX_KEY_LEN), got + [slot.keyBuf[|got|]]));
      LeadsBounded(h, now, mem, th, mem, th');
      SameHere(h, mem, th, th', d);
      CopiesKey(h, now, mem, th', d, got + [slot.keyBuf[|got|]]);
      SameGoto(th, th', d, idx);
      LeadsOn(h, now, mem, th, mem, th', mem, if ReadKey(slot) == th.job.key
          then OnMatch(th, d, idx) else Goto(th, Load(d + 1)));
    } else {
      assert got == ReadKey(slot);
    }
  }

  /** What the steps after seeing OCCUPIED amount to: fingerprint, expiry (not for DEL), key. */
  function Verdict(h: Hash, th: Thread, d: nat, idx: nat, slot: Slot, now: u64): Thread {
    if slot.fingerprint != h(th.job.key) then Goto(th, Load(d + 1))
    else if !th.job.JDel? && IsExpired(slot.expiresAt, now) then Goto(th, Evict(d))
    else if ReadKey(slot) == th.job.key then OnMatch(th, d, idx)
    else Goto(th, Load(d + 1))
  }

  function KeyVerdict(th: Thread, d: nat, idx: nat, slot: Slot): Thread {
    if ReadKey(slot) == th.job.key then OnMatch(th, d, idx) else Goto(th, Load(d + 1))
  }

  lemma AfterFp(h: Hash, mem: Memory, th: Thread, d: nat, now: u64)
    requires d < |mem.slots| && th.pc == LoadFp(d)
    ensures var slot := mem.slots[Here(h, mem, th, d)];
            StepRead(h, mem, th, now) ==
            Goto(th, if slot.fingerprint != h(th.job.key) then Load(d + 1)
                     else if th.job.JDel? then LoadKeyLen(d) else LoadExpiry(d))
  {
    hide Here;
  }

  lemma ReadsKey(h: Hash, now: u64, mem: Memory, th: Thread, d: nat)
    requires Bounded(|mem.slots|, th) && d < |mem.slots| && th.pc == LoadKeyLen(d)
    ensures var idx := Here(h, mem, th, d);
            Leads(h, now, mem, th, mem, KeyVerdict(th, d, idx, mem.slots[idx]))
  {
    var idx := Here(h, mem, th, d);
    var slot := mem.slots[idx];
    var th' := StepRead(h, mem, th, now);
    LeadsRead(h, now, mem, th);
    LeadsBounded(h, now, mem, th, mem, th');
    hide Leads, Bounded, Here, ReadKey, OnMatch;
    assert th' == Goto(th, CopyKey(d, Min(slot.keyLen, MAX_KEY_LEN), []));
    SameHere(h, mem, th, th', d);
    CopiesKey(h, now, mem, th', d, []);
    SameGoto(th, th', d, idx);
    LeadsOn(h, now, mem, th, mem, th', mem, KeyVerdict(th, d, idx, slot));
  }

  lemma ChecksExpiry(h: Hash, now: u64, mem: Memory, th: Thread, d: nat)
    requires Bounded(|mem.slots|, th) && d < |mem.slots| && th.pc == LoadExpiry(d)
    ensures var slot := mem.slots[Here(h, mem, th, d)];
            Leads(h, now, mem, th, mem, Goto(th, if IsExpired(slot.expiresAt, now) then Evict(d) else LoadKeyLen(d)))
  {
    var slot := mem.slots[Here(h, mem, th, d)];
    var th' := StepRead(h, mem, th, now);
    LeadsRead(h, now, mem, th);
    LeadsBounded(h, now, mem, th, mem, th');
    hide Leads, Bounded, Here;
    if slot.expiresAt != 0 {
      assert th' == Goto(th, ReadClock(d, slot.expiresAt));
      LeadsRead(h, now, mem, th');
      LeadsOn(h, now, mem, th, mem, th', mem, StepRead(h, mem, th', now));
    }
  }

  lemma {:induction false} Examines(h: Hash, now: u64, mem: Memory, th: Thread, d: nat)
    requires Bounded(|mem.slots|, th) && d < |mem.slots| && th.pc == LoadFp(d)
    ensures var idx := Here(h, mem, th, d);
            Leads(h, now, mem, th, mem, Verdict(h, th, d, idx, mem.slots[idx], now))
  {
    var idx := Here(h, mem, th, d);
    var slot := mem.slots[idx];
    var t1 := StepRead(h, mem, th, now);
    LeadsRead(h, now, mem, th);
    LeadsBounded(h, now, mem, th, mem, t1);
    hide Leads, Bounded, Here, ReadKey, StepRead, OnMatch;
    AfterFp(h, mem, th, d, now);
    SameHere(h, mem, th, t1, d);
    if slot.fingerprint == h(th.job.key) {
      if th.job.JDel? {
        ReadsKey(h, now, mem, t1, d);
        SameGoto(th, t1, d, idx);
        LeadsOn(h, now, mem, th, mem, t1, mem, KeyVerdict(t1, d, idx, slot));
      } else {
        ChecksExpiry(h, now, mem, t1, d);
        var t2 := Goto(t1, if IsExpired(slot.expiresAt, now) then Evict(d) else LoadKeyLen(d));
        LeadsOn(h, now, mem, th, mem, t1, mem, t2);
        if !IsExpired(slot.expiresAt, now) {
          LeadsBounded(h, now, mem, t1, mem, t2);
          SameHere(h, mem, t1, t2, d);
          ReadsKey(h, now, mem, t2, d);
          SameGoto(th, t2, d, idx);
          LeadsOn(h, now, mem, th, mem, t2, mem, KeyVerdict(t2, d, idx, slot));
        }
      }
    }
  }

  // ---- one step at the head of the probe ----

  /** From `Load(d)`: what the slot at distance `d` makes of the thread, memory unchanged. */
  function Decide(h: Hash, mem: Memory, th: Thread, d: nat, now: u64): Thread
    requires d <= |mem.slots|
  {
    if d == |mem.slots| then OnExhausted(th) else
    var idx := Here(h, mem, th, d);
    var slot := mem.slots[idx];
    match slot.state
    case EMPTY => OnEmpty(th, idx)
    case TOMBSTONE => Goto(Remember(th, idx), Load(d + 1))
    case OCCUPIED => Verdict(h, th, d, idx, slot, now)
  }

  lemma SameVerdict(h: Hash, th: Thread, th': Thread, d: nat, idx: nat, slot: Slot, now: u64)
    requires th' == th.(pc := th'.pc)
    ensures Verdict(h, th', d, idx, slot, now) == Verdict(h, th, d, idx, slot, now)
  {
    hide ReadKey;
  }

  lemma Decides(h: Hash, now: u64, mem: Memory, th: Thread, d: nat)
    requires Bounded(|mem.slots|, th) && d <= |mem.slots| && th.pc == Load(d)
    ensures Leads(h, now, mem, th, mem, Decide(h, mem, th, d, now))
  {
    var th' := StepRead(h, mem, th, now);
    LeadsRead(h, now, mem, th);
    LeadsBounded(h, now, mem, th, mem, th');
    hide Leads, Bounded, Here, OnEmpty, OnExhausted, Remember, Verdict;
    if d < |mem.slots| {
      var idx := Here(h, mem, th, d);
      if mem.slots[idx].state == OCCUPIED {
        assert th' == Goto(th, LoadFp(d));
        SameHere(h, mem, th, th', d);
        Examines(h, now, mem, th', d);
        SameVerdict(h, th, th', d, idx, mem.slots[idx], now);
        LeadsOn(h, now, mem, th, mem, th', mem, Verdict(h, th, d, idx, mem.slots[idx], now));
      }
    }
  }

  /** The probe has visited every slot. */
  lemma ProbeEnds(h: Hash, now: u64, mem: Memory, th: Thread)
    requires Bounded(|mem.slots|, th) && th.pc == Load(|mem.slots|)
    ensures Leads(h, now, mem, th, mem, OnExhausted(th))
  {
    Decides(h, now, mem, th, |mem.slots|);
  }

  // ---- GET ----

  lemma ViewOf(slots: seq<Slot>, idx: nat)
    requires idx < |slots|
    ensures A.Views(slots)[idx] == A.View(slots[idx]) && |A.Views(slots)| == |slots|
  {
  }

  lemma ViewsUpdate(slots: seq<Slot>, idx: nat, slot: Slot)
    requires idx < |slots|
    ensures A.Views(slots[idx := slot]) == A.Views(slots)[idx := A.View(slot)]
  {
  }

  /** The outcome of `Decide` on the table: the four cases a cell can present to GET and SET. */
  lemma DecideOnCell(h: Hash, mem: Memory, th: Thread, d: nat, now: u64)
    requires d < |mem.slots| && !th.job.JDel?
    ensures var idx := Here(h, mem, th, d);
            var x := A.Views(mem.slots)[idx];
            Decide(h, mem, th, d, now) ==
            if x.Empty? then OnEmpty(th, idx)
            else if x.Tombstone? then Goto(Remember(th, idx), Load(d + 1))
            else if Stale(x, h(th.job.key), now) then Goto(th, Evict(d))
            else if Matches(x, h(th.job.key), th.job.key) then OnMatch(th, d, idx)
            else Goto(th, Load(d + 1))
  {
    hide ReadKey, ReadValue, OnEmpty, OnMatch, Remember;
    ViewOf(mem.slots, Here(h, mem, th, d));
  }

  /** The bytes of the value, one by one, are the value. */
  lemma {:induction false} CopiesValue(h: Hash, now: u64, mem: Memory, th: Thread, d: nat, got: Bytes)
    requires Bounded(|mem.slots|, th) && d < |mem.slots|
    requires var slot := mem.slots[Here(h, mem, th, d)];
             th.pc == CopyVal(d, Min(slot.valLen, MAX_VAL_LEN), got) && got <= ReadValue(slot)
    ensures Leads(h, now, mem, th, mem, Goto(th, Done(Got(Found(ReadValue(mem.slots[Here(h, mem, th, d)]))))))
    decreases MAX_VAL_LEN - |got|
  {
    var slot := mem.slots[Here(h, mem, th, d)];
    var th' := StepRead(h, mem, th, now);
    LeadsRead(h, now, mem, th);
    hide Here, Leads, Bounded;
    if |got| < Min(slot.valLen, MAX_VAL_LEN) {
      assert got + [slot.valBuf[|got|]] <= ReadValue(slot);
      assert th' == Goto(th, CopyVal(d, Min(slot.valLen, MAX_VAL_LEN), got + [slot.valBuf[|got|]]));
      LeadsBounded(h, now, mem, th, mem, th');
      SameHere(h, mem, th, th', d);
      CopiesValue(h, now, mem, th', d, got + [slot.valBuf[|got|]]);
      LeadsOn(h, now, mem, th, mem, th', mem, Goto(th, Done(Got(Found(ReadValue(slot))))));
    } else {
      assert got == ReadValue(slot);
    }
  }

  lemma ReadsValue(h: Hash, now: u64, mem: Memory, th: Thread, d: nat)
    requires Bounded(|mem.slots|, th) && d < |mem.slots| && th.pc == LoadValLen(d)
    ensures Leads(h, now, mem, th, mem, Goto(th, Done(Got(Found(ReadValue(mem.slots[Here(h, mem, th, d)]))))))
  {
    var slot := mem.slots[Here(h, mem, th, d)];
    var th' := StepRead(h, mem, th, now);
    LeadsRead(h, now, mem, th);
    LeadsBounded(h, now, mem, th, mem, th');
    hide Leads, Bounded, Here, ReadValue;
    assert th' == Goto(th, CopyVal(d, Min(slot.valLen, MAX_VAL_LEN), []));
    SameHere(h, mem, th, th', d);
    CopiesValue(h, now, mem, th', d, []);
    LeadsOn(h, now, mem, th, mem, th', mem, Goto(th, Done(Got(Found(ReadValue(slot))))));
  }

  /** A winning compare-and-swap at distance `d`. */
  lemma Casts(h: Hash, now: u64, mem: Memory, th: Thread, d: nat)
    requires Bounded(|mem.slots|, th) && d < |mem.slots| && (th.pc == Evict(d) || th.pc == Bury(d))
    requires mem.slots[Here(h, mem, th, d)].state == OCCUPIED
    ensures var idx := Here(h, mem, th, d);
            var mem' := mem.(slots := mem.slots[idx := mem.slots[idx].(state := TOMBSTONE)]);
            Leads(h, now, mem, th, mem', AfterWrite(th, idx, OCCUPIED))
            && A.Views(mem'.slots) == A.Views(mem.slots)[idx := Tombstone]
  {
    var idx := Here(h, mem, th, d);
    LeadsStep(h, now, mem, th);
    hide Leads, Bounded, AfterWrite, StepRead;
    ViewsUpdate(mem.slots, idx, mem.slots[idx].(state := TOMBSTONE));
  }

  /** The memory holds table `c`. */
  ghost predicate Shows(mem: Memory, c: seq<Cell>) { A.Views(mem.slots) == c }

  /** Either the GET is over, with answer `r.value`, or its thread moved on to the next slot. */
  lemma GetMoves(h: Hash, now: u64, mem: Memory, th: Thread, d: nat) returns (m1: Memory, t1: Thread)
    requires Bounded(|mem.slots|, th) && d < |mem.slots| && th.pc == Load(d) && th.job.JGet?
    ensures var c := A.Views(mem.slots);
            var idx := At(Home(h, th.job.key, |mem.slots|), d, |mem.slots|);
            var fp := h(th.job.key);
            (if c[idx].Empty? then m1 == mem && t1 == Goto(th, Done(Got(NotFound)))
             else if Stale(c[idx], fp, now) then Shows(m1, c[idx := Tombstone]) && t1 == Goto(th, Done(Got(Expired)))
             else if Matches(c[idx], fp, th.job.key) then m1 == mem && t1 == Goto(th, Done(Got(Found(c[idx].value))))
             else m1 == mem && t1 == Goto(th, Load(d + 1)))
    ensures m1.used == mem.used && Leads(h, now, mem, th, m1, t1)
  {
    Decides(h, now, mem, th, d);
    DecideOnCell(h, mem, th, d, now);
    var idx := Here(h, mem, th, d);
    ViewOf(mem.slots, idx);
    var x := A.Views(mem.slots)[idx];
    m1, t1 := mem, Decide(h, mem, th, d, now);
    LeadsBounded(h, now, mem, th, mem, t1);
    hide Leads, Bounded, ReadKey, ReadValue, Decide, A.Views, Home;
    SameHere(h, mem, th, t1, d);
    if Stale(x, h(th.job.key), now) {
      Casts(h, now, mem, t1, d);
      m1 := mem.(slots := mem.slots[idx := mem.slots[idx].(state := TOMBSTONE)]);
      LeadsOn(h, now, mem, th, mem, t1, m1, AfterWrite(t1, idx, OCCUPIED));
      t1 := AfterWrite(t1, idx, OCCUPIED);
    } else if Matches(x, h(th.job.key), th.job.key) {
      ReadsValue(h, now, mem, t1, d);
      LeadsOn(h, now, mem, th, mem, t1, mem, Goto(t1, Done(Got(Found(x.value)))));
      t1 := Goto(t1, Done(Got(Found(x.value))));
    }
  }

  lemma GetFromStep(c: seq<Cell>, fp: u64, key: Bytes, start: nat, d: nat, now: u64)
    requires start < |c| && d <= |c|
    ensures GetFrom(c, fp, key, start, d, now) ==
            if d == |c| then (NotFound, c) else
            var idx := At(start, d, |c|);
            if c[idx].Empty? then (NotFound, c)
            else if Stale(c[idx], fp, now) then (Expired, c[idx := Tombstone])
            else if Matches(c[idx], fp, key) then (Found(c[idx].value), c)
            else GetFrom(c, fp, key, start, d + 1, now)
  {
  }

  lemma {:induction false} GetAlone(h: Hash, now: u64, mem: Memory, th: Thread, d: nat) returns (mem': Memory)
    requires Bounded(|mem.slots|, th) && 0 < |mem.slots| && d <= |mem.slots| && th.pc == Load(d) && th.job.JGet?
    ensures var (r, c) := GetFrom(A.Views(mem.slots), h(th.job.key), th.job.key, Home(h, th.job.key, |mem.slots|), d,
            now);
            Shows(mem', c) && mem'.used == mem.used && Leads(h, now, mem, th, mem', Goto(th, Done(Got(r))))
    decreases |mem.slots| - d
  {
    hide Leads, Bounded, A.Views, Home, GetFrom, Stale, Matches, Here, At, Alone;
    var n, key := |mem.slots|, th.job.key;
    var start, fp, c := Home(h, key, n), h(key), A.Views(mem.slots);
    GetFromStep(c, fp, key, start, d, now);
    if d == n {
      mem' := mem;
      ProbeEnds(h, now, mem, th);
      return;
    }
    var m1, t1 := GetMoves(h, now, mem, th, d);
    LeadsBounded(h, now, mem, th, m1, t1);
    mem' := m1;
    if !t1.pc.Done? {
      mem' := GetAlone(h, now, m1, t1, d + 1);
      var r := GetFrom(c, fp, key, start, d + 1, now).0;
      LeadsOn(h, now, mem, th, m1, t1, mem', Goto(t1, Done(Got(r))));
    }
  }

  // ---- DEL ----

  lemma DecideOnCellDel(h: Hash, mem: Memory, th: Thread, d: nat, now: u64)
    requires d < |mem.slots| && th.job.JDel?
    ensures var idx := Here(h, mem, th, d);
            var x := A.Views(mem.slots)[idx];
            Decide(h, mem, th, d, now) ==
            if x.Empty? then Goto(th, Done(Removed(Missing)))
            else if Matches(x, h(th.job.key), th.job.key) then Goto(th, Bury(d))
            else Goto(th, Load(d + 1))
  {
    hide ReadKey, ReadValue;
    ViewOf(mem.slots, Here(h, mem, th, d));
  }

  lemma Uncounts(h: Hash, now: u64, mem: Memory, th: Thread)
    requires Bounded(|mem.slots|, th) && th.pc == Uncount
    ensures Leads(h, now, mem, th, mem.(used := Wrap(mem.used - 1)), Goto(th, Done(Removed(Deleted))))
  {
    LeadsStep(h, now, mem, th);
  }

  /** Either the DEL is over or its thread moved on to the next slot. */
  lemma DelMoves(h: Hash, now: u64, mem: Memory, th: Thread, d: nat) returns (m1: Memory, t1: Thread)
    requires Bounded(|mem.slots|, th) && d < |mem.slots| && th.pc == Load(d) && th.job.JDel?
    ensures var c := A.Views(mem.slots);
            var idx := At(Home(h, th.job.key, |mem.slots|), d, |mem.slots|);
            (if c[idx].Empty? then m1 == mem && t1 == Goto(th, Done(Removed(Missing)))
             else if Matches(c[idx], h(th.job.key), th.job.key) then
               Shows(m1, c[idx := Tombstone]) && m1.used == Wrap(mem.used - 1) && t1 == Goto(th, Done(Removed(Deleted)))
             else m1 == mem && t1 == Goto(th, Load(d + 1)))
    ensures Leads(h, now, mem, th, m1, t1)
  {
    Decides(h, now, mem, th, d);
    DecideOnCellDel(h, mem, th, d, now);
    var idx := Here(h, mem, th, d);
    ViewOf(mem.slots, idx);
    m1, t1 := mem, Decide(h, mem, th, d, now);
    LeadsBounded(h, now, mem, th, mem, t1);
    hide Leads, Bounded, ReadKey, ReadValue, Decide, A.Views, Home;
    if Matches(A.Views(mem.slots)[idx], h(th.job.key), th.job.key) {
      SameHere(h, mem, th, t1, d);
      Casts(h, now, mem, t1, d);
      m1 := mem.(slots := mem.slots[idx := mem.slots[idx].(state := TOMBSTONE)]);
      var t2 := AfterWrite(t1, idx, OCCUPIED);
      LeadsBounded(h, now, mem, t1, m1, t2);
      LeadsOn(h, now, mem, th, mem, t1, m1, t2);
      Uncounts(h, now, m1, t2);
      t1 := Goto(t2, Done(Removed(Deleted)));
      LeadsOn(h, now, mem, th, m1, t2, m1.(used := Wrap(m1.used - 1)), t1);
      m1 := m1.(used := Wrap(m1.used - 1));
    }
  }

  lemma DelFromStep(c: seq<Cell>, fp: u64, key: Bytes, start: nat, d: nat)
    requires start < |c| && d <= |c|
    ensures DelFrom(c, fp, key, start, d) ==
            if d == |c| then (Missing, c) else
            var idx := At(start, d, |c|);
            if c[idx].Empty? then (Missing, c)
            else if Matches(c[idx], fp, key) then (Deleted, c[idx := Tombstone])
            else DelFrom(c, fp, key, start, d + 1)
  {
  }

  lemma {:induction false} DelAlone(h: Hash, now: u64, mem: Memory, th: Thread, d: nat) returns (mem': Memory)
    requires Bounded(|mem.slots|, th) && 0 < |mem.slots| && d <= |mem.slots| && th.pc == Load(d) && th.job.JDel?
    ensures var (r, c) := DelFrom(A.Views(mem.slots), h(th.job.key), th.job.key, Home(h, th.job.key, |mem.slots|), d);
            Shows(mem', c) && mem'.used == (if r == Deleted then Wrap(mem.used - 1) else mem.used)
            && Leads(h, now, mem, th, mem', Goto(th, Done(Removed(r))))
    decreases |mem.slots| - d
  {
    hide Leads, Bounded, A.Views, Home, DelFrom, Matches, Here, At, Alone;
    var n, key := |mem.slots|, th.job.key;
    var start, fp, c := Home(h, key, n), h(key), A.Views(mem.slots);
    DelFromStep(c, fp, key, start, d);
    if d == n {
      mem' := mem;
      ProbeEnds(h, now, mem, th);
      return;
    }
    var m1, t1 := DelMoves(h, now, mem, th, d);
    LeadsBounded(h, now, mem, th, m1, t1);
    mem' := m1;
    if !t1.pc.Done? {
      mem' := DelAlone(h, now, m1, t1, d + 1);
      var r := DelFrom(c, fp, key, start, d + 1).0;
      LeadsOn(h, now, mem, th, m1, t1, mem', Goto(t1, Done(Removed(r))));
    }
  }

  // ---- SET: the probe ----

  /** Where a SET thread stands when the probe of `Table.SetScan` stops. */
  function AtStop(th: Thread, s: Scan): Thread {
    var t := th.(grave := s.grave);
    match s.stop
    case AtEmpty(idx) => OnEmpty(t, idx)
    case AtMatch(idx) => Goto(t, UpdateVal(idx, 0))
    case Exhausted => OnExhausted(t)
  }

  lemma AfterEvict(th: Thread, t1: Thread, d: nat, idx: nat)
    requires t1 == Goto(th, Evict(d)) && th.job.JSet?
    ensures AfterWrite(t1, idx, OCCUPIED) == Goto(Remember(th, idx), Load(d + 1))
  {
  }

  /** One slot of the SET probe: the thread stops there or moves past it, evicting it if expired. */
  lemma ScanMoves(h: Hash, now: u64, mem: Memory, th: Thread, d: nat) returns (m1: Memory, t1: Thread)
    requires Bounded(|mem.slots|, th) && d < |mem.slots| && th.pc == Load(d) && th.job.JSet?
    ensures var c := A.Views(mem.slots);
            var idx := At(Home(h, th.job.key, |mem.slots|), d, |mem.slots|);
            var fp := h(th.job.key);
            var grave := if th.grave.None? then Some(idx) else th.grave;
            (if c[idx].Empty? then m1 == mem && t1 == OnEmpty(th, idx)
             else if Stale(c[idx], fp, now) then Shows(m1, c[idx := Tombstone])
                 && t1 == th.(grave := grave, pc := Load(d + 1))
             else if Matches(c[idx], fp, th.job.key) then m1 == mem && t1 == Goto(th, UpdateVal(idx, 0))
             else m1 == mem && t1 == th.(grave := if c[idx].Tombstone? then grave else th.grave, pc := Load(d + 1)))
    ensures m1.used == mem.used && Leads(h, now, mem, th, m1, t1)
  {
    Decides(h, now, mem, th, d);
    DecideOnCell(h, mem, th, d, now);
    var idx := Here(h, mem, th, d);
    ViewOf(mem.slots, idx);
    m1, t1 := mem, Decide(h, mem, th, d, now);
    LeadsBounded(h, now, mem, th, mem, t1);
    hide Leads, Bounded, ReadKey, ReadValue, Decide, A.Views, Home, OnEmpty;
    if Stale(A.Views(mem.slots)[idx], h(th.job.key), now) {
      SameHere(h, mem, th, t1, d);
      Casts(h, now, mem, t1, d);
      m1 := mem.(slots := mem.slots[idx := mem.slots[idx].(state := TOMBSTONE)]);
      AfterEvict(th, t1, d, idx);
      LeadsOn(h, now, mem, th, mem, t1, m1, AfterWrite(t1, idx, OCCUPIED));
      t1 := AfterWrite(t1, idx, OCCUPIED);
    }
  }

  lemma SameStop(t1: Thread, th: Thread, s: Scan)
    requires t1 == th.(grave := t1.grave, pc := t1.pc)
    ensures AtStop(t1, s) == AtStop(th, s)
  {
  }

  lemma StopsAt(th: Thread, s: Scan)
    requires s.grave == th.grave
    ensures AtStop(th, s) == if s.stop.AtEmpty? then OnEmpty(th, s.stop.idx)
                             else if s.stop.AtMatch? then Goto(th, UpdateVal(s.stop.idx, 0))
                             else OnExhausted(th)
  {
    assert th.(grave := s.grave) == th;
  }

  lemma OnEmptyClaims(th: Thread, idx: nat)
    requires th.job.JSet?
    ensures OnEmpty(th, idx).pc.ClaimKey?
  {
  }

  lemma BoundedGrave(n: nat, th: Thread)
    requires Bounded(n, th)
    ensures th.grave.Some? ==> th.grave.value < n
  {
  }

  lemma {:induction false} ScanAlone(h: Hash, now: u64, mem: Memory, th: Thread, d: nat, evicted: nat)
    returns (mem': Memory)
    requires Bounded(|mem.slots|, th) && 0 < |mem.slots| && d <= |mem.slots| && th.pc == Load(d) && th.job.JSet?
    ensures th.grave.Some? ==> th.grave.value < |mem.slots|
    ensures var s := SetScan(A.Views(mem.slots), h(th.job.key), th.job.key, Home(h, th.job.key, |mem.slots|), d,
            th.grave, evicted, now);
            Shows(mem', s.cells) && mem'.used == mem.used && Leads(h, now, mem, th, mem', AtStop(th, s))
    decreases |mem.slots| - d
  {
    hide Leads, Bounded, A.Views, Home, SetScan, Stale, Matches, Here, At, AtStop, OnEmpty, OnExhausted, Alone;
    var n, key := |mem.slots|, th.job.key;
    BoundedGrave(n, th);
    var start, fp, c := Home(h, key, n), h(key), A.Views(mem.slots);
    TableProofs.SetScanStep(c, fp, key, start, d, th.grave, evicted, now);
    var s := SetScan(c, fp, key, start, d, th.grave, evicted, now);
    StopsAt(th, Scan(c, s.stop, th.grave, evicted));
    if d == n {
      mem' := mem;
      ProbeEnds(h, now, mem, th);
    } else {
      var m1, t1 := ScanMoves(h, now, mem, th, d);
      LeadsBounded(h, now, mem, th, m1, t1);
      OnEmptyClaims(th, At(start, d, n));
      mem' := m1;
      if t1.pc == Load(d + 1) {
        mem' := ScanAlone(h, now, m1, t1, d + 1, if Stale(c[At(start, d, n)], fp, now) then evicted + 1 else evicted);
        SameStop(t1, th, s);
        LeadsOn(h, now, mem, th, m1, t1, mem', AtStop(th, s));
      }
    }
  }

  // ---- SET: the writes ----

  /** A writing step, spelled out. */
  lemma LeadsWrite(h: Hash, now: u64, mem: Memory, th: Thread, idx: nat)
    requires Bounded(|mem.slots|, th) && Target(h, mem, th) == Some(idx) && !Free(th)
    ensures idx < |mem.slots|
    ensures Leads(h, now, mem, th, mem.(slots := mem.slots[idx := Written(h, th, mem.slots[idx])]),
            AfterWrite(th, idx, mem.slots[idx].state))
  {
    LeadsStep(h, now, mem, th);
    hide Written, AfterWrite, StepRead, Leads;
  }

  ghost function WithSlot(mem: Memory, idx: nat, slot: Slot): Memory
    requires idx < |mem.slots|
  {
    mem.(slots := mem.slots[idx := slot])
  }

  lemma WithSlotTwice(mem: Memory, idx: nat, a: Slot, b: Slot)
    requires idx < |mem.slots|
    ensures WithSlot(WithSlot(mem, idx, a), idx, b) == WithSlot(mem, idx, b)
            && |WithSlot(mem, idx, a).slots| == |mem.slots| && WithSlot(mem, idx, a).slots[idx] == a
  {
    assert mem.slots[idx := a][idx := b] == mem.slots[idx := b];
  }

  lemma KeyByteMore(s: Slot, k: Bytes, i: nat)
    requires i < |k| <= MAX_KEY_LEN && s.keyBuf[..i] == k[..i]
    ensures var s' := s.(keyBuf := s.keyBuf[i := k[i]]);
            s'.keyBuf[..i + 1] == k[..i + 1] && Overwrite(s'.keyBuf, k) == Overwrite(s.keyBuf, k)
  {
  }

  lemma ValByteMore(s: Slot, v: Bytes, i: nat)
    requires i < |v| <= MAX_VAL_LEN && s.valBuf[..i] == v[..i]
    ensures var s' := s.(valBuf := s.valBuf[i := v[i]]);
            s'.valBuf[..i + 1] == v[..i + 1] && Overwrite(s'.valBuf, v) == Overwrite(s.valBuf, v)
  {
  }

  lemma PrefixIsOverwrite(buf: Bytes, k: Bytes)
    requires |k| <= |buf| && buf[..|k|] == k
    ensures Overwrite(buf, k) == buf
  {
  }

  lemma {:induction false} WritesKey(h: Hash, now: u64, mem: Memory, th: Thread, idx: nat, i: nat, count: bool)
    requires Bounded(|mem.slots|, th) && idx < |mem.slots| && th.pc == ClaimKey(idx, i, count)
    requires var k := Clip(th.job.key, MAX_KEY_LEN); i <= |k| && mem.slots[idx].keyBuf[..i] == k[..i]
    ensures Leads(h, now, mem, th, WithSlot(mem, idx, WriteKey(mem.slots[idx], th.job.key)),
            Goto(th, ClaimVal(idx, 0, count)))
    decreases MAX_KEY_LEN - i
  {
    var k, slot := Clip(th.job.key, MAX_KEY_LEN), mem.slots[idx];
    LeadsWrite(h, now, mem, th, idx);
    var slot' := Written(h, th, slot);
    var th' := AfterWrite(th, idx, slot.state);
    LeadsBounded(h, now, mem, th, WithSlot(mem, idx, slot'), th');
    hide Leads, Bounded, Clip, Overwrite;
    if i < |k| {
      KeyByteMore(slot, k, i);
      WithSlotTwice(mem, idx, slot', WriteKey(slot', th.job.key));
      WritesKey(h, now, WithSlot(mem, idx, slot'), th', idx, i + 1, count);
      LeadsOn(h, now, mem, th, WithSlot(mem, idx, slot'), th', WithSlot(mem, idx, WriteKey(slot, th.job.key)),
          Goto(th, ClaimVal(idx, 0, count)));
    } else {
      PrefixIsOverwrite(slot.keyBuf, k);
    }
  }

  /** The value bytes of a claim or of an in-place update. */
  lemma {:induction false} WritesValue(h: Hash, now: u64, mem: Memory, th: Thread, idx: nat, i: nat, next: Pc)
    requires Bounded(|mem.slots|, th) && idx < |mem.slots|
    requires (th.pc == UpdateVal(idx, i) && next == UpdateExpiry(idx))
             || (th.pc.ClaimVal? && th.pc.idx == idx && th.pc.i == i && next == ClaimFp(idx, th.pc.count))
    requires var v := Clip(Value(th), MAX_VAL_LEN); i <= |v| && mem.slots[idx].valBuf[..i] == v[..i]
    ensures Leads(h, now, mem, th, WithSlot(mem, idx, WriteValue(mem.slots[idx], Value(th))), Goto(th, next))
    decreases MAX_VAL_LEN - i
  {
    var v, slot := Clip(Value(th), MAX_VAL_LEN), mem.slots[idx];
    LeadsWrite(h, now, mem, th, idx);
    var slot' := Written(h, th, slot);
    var th' := AfterWrite(th, idx, slot.state);
    LeadsBounded(h, now, mem, th, WithSlot(mem, idx, slot'), th');
    hide Leads, Bounded, Clip, Overwrite;
    if i < |v| {
      ValByteMore(slot, v, i);
      WithSlotTwice(mem, idx, slot', WriteValue(slot', Value(th)));
      WritesValue(h, now, WithSlot(mem, idx, slot'), th', idx, i + 1, next);
      LeadsOn(h, now, mem, th, WithSlot(mem, idx, slot'), th', WithSlot(mem, idx, WriteValue(slot, Value(th))),
          Goto(th, next));
    } else {
      PrefixIsOverwrite(slot.valBuf, v);
    }
  }

  /** The slot a claim leaves behind. */
  ghost function ClaimedSlot(h: Hash, th: Thread, slot: Slot): Slot {
    WriteValue(WriteKey(slot, th.job.key), Value(th)).(fingerprint := h(th.job.key), expiresAt := Expiry(th),
        state := OCCUPIED)
  }

  lemma ClaimedView(h: Hash, th: Thread, slot: Slot)
    ensures A.View(ClaimedSlot(h, th, slot)) == Claimed(h(th.job.key), th.job.key, Value(th), Expiry(th))
  {
    var s := WriteValue(WriteKey(slot, th.job.key), Value(th));
    assert ReadKey(ClaimedSlot(h, th, slot)) == ReadKey(s) && ReadValue(ClaimedSlot(h, th, slot)) == ReadValue(s);
  }

  /** One of the last three stores of a claim. */
  lemma WritesField(h: Hash, now: u64, mem: Memory, th: Thread, idx: nat, count: bool)
    requires Bounded(|mem.slots|, th) && idx < |mem.slots|
    requires th.pc == ClaimFp(idx, count) || th.pc == ClaimExpiry(idx, count) || th.pc == Publish(idx, count)
    ensures var s := mem.slots[idx];
            var s' := if th.pc.ClaimFp? then s.(fingerprint := h(th.job.key))
                      else if th.pc.ClaimExpiry? then s.(expiresAt := Expiry(th)) else s.(state := OCCUPIED);
            var pc := if th.pc.ClaimFp? then ClaimExpiry(idx, count) else if th.pc.ClaimExpiry? then Publish(idx, count)
                      else if count then Count else Done(Put(Inserted));
            Leads(h, now, mem, th, WithSlot(mem, idx, s'), Goto(th, pc))
  {
    LeadsWrite(h, now, mem, th, idx);
    hide Leads, Bounded;
  }

  /** Fingerprint, expiry and state, in this order. */
  lemma WritesMeta(h: Hash, now: u64, mem: Memory, th: Thread, idx: nat, count: bool)
    requires Bounded(|mem.slots|, th) && idx < |mem.slots| && th.pc == ClaimFp(idx, count)
    ensures var s := mem.slots[idx].(fingerprint := h(th.job.key), expiresAt := Expiry(th), state := OCCUPIED);
            Leads(h, now, mem, th, WithSlot(mem, idx, s), Goto(th, if count then Count else Done(Put(Inserted))))
  {
    hide Leads, Bounded, WithSlot;
    var s1 := mem.slots[idx].(fingerprint := h(th.job.key));
    var s2 := s1.(expiresAt := Expiry(th));
    var s3 := s2.(state := OCCUPIED);
    var m1, m2, m3 := WithSlot(mem, idx, s1), WithSlot(mem, idx, s2), WithSlot(mem, idx, s3);
    var t1, t2 := Goto(th, ClaimExpiry(idx, count)), Goto(th, Publish(idx, count));
    var t3 := Goto(th, if count then Count else Done(Put(Inserted)));
    WithSlotTwice(mem, idx, s1, s2);
    WithSlotTwice(mem, idx, s2, s3);
    WritesField(h, now, mem, th, idx, count);
    LeadsBounded(h, now, mem, th, m1, t1);
    WritesField(h, now, m1, t1, idx, count);
    LeadsBounded(h, now, m1, t1, m2, t2);
    WritesField(h, now, m2, t2, idx, count);
    LeadsOn(h, now, mem, th, m1, t1, m2, t2);
    LeadsOn(h, now, mem, th, m2, t2, m3, t3);
  }

  lemma ClaimAlone(h: Hash, now: u64, mem: Memory, th: Thread, idx: nat, count: bool)
    requires Bounded(|mem.slots|, th) && idx < |mem.slots| && th.pc == ClaimKey(idx, 0, count)
    ensures Leads(h, now, mem, th, WithSlot(mem, idx, ClaimedSlot(h, th, mem.slots[idx])),
            Goto(th, if count then Count else Done(Put(Inserted))))
  {
    var s0 := mem.slots[idx];
    var s1 := WriteKey(s0, th.job.key);
    var s2 := WriteValue(s1, Value(th));
    var s3 := ClaimedSlot(h, th, s0);
    var t1, t2 := Goto(th, ClaimVal(idx, 0, count)), Goto(th, ClaimFp(idx, count));
    var t3 := Goto(th, if count then Count else Done(Put(Inserted)));
    hide Leads, Bounded, WriteKey, WriteValue;
    WithSlotTwice(mem, idx, s1, s2);
    WithSlotTwice(mem, idx, s2, s3);
    WritesKey(h, now, mem, th, idx, 0, count);
    LeadsBounded(h, now, mem, th, WithSlot(mem, idx, s1), t1);
    WritesValue(h, now, WithSlot(mem, idx, s1), t1, idx, 0, ClaimFp(idx, count));
    LeadsBounded(h, now, WithSlot(mem, idx, s1), t1, WithSlot(mem, idx, s2), t2);
    WritesMeta(h, now, WithSlot(mem, idx, s2), t2, idx, count);
    LeadsOn(h, now, mem, th, WithSlot(mem, idx, s1), t1, WithSlot(mem, idx, s2), t2);
    LeadsOn(h, now, mem, th, WithSlot(mem, idx, s2), t2, WithSlot(mem, idx, s3), t3);
  }

  lemma UpdateAlone(h: Hash, now: u64, mem: Memory, th: Thread, idx: nat)
    requires Bounded(|mem.slots|, th) && idx < |mem.slots| && th.pc == UpdateVal(idx, 0)
    ensures Leads(h, now, mem, th, WithSlot(mem, idx,
            WriteValue(mem.slots[idx], Value(th)).(expiresAt := Expiry(th))), Goto(th, Done(Put(Updated))))
  {
    var s1 := WriteValue(mem.slots[idx], Value(th));
    var s2 := s1.(expiresAt := Expiry(th));
    var t1 := Goto(th, UpdateExpiry(idx));
    hide WriteValue;
    WithSlotTwice(mem, idx, s1, s2);
    WritesValue(h, now, mem, th, idx, 0, UpdateExpiry(idx));
    LeadsBounded(h, now, mem, th, WithSlot(mem, idx, s1), t1);
    LeadsWrite(h, now, WithSlot(mem, idx, s1), t1, idx);
    hide Leads, Bounded;
    LeadsOn(h, now, mem, th, WithSlot(mem, idx, s1), t1, WithSlot(mem, idx, s2), Goto(th, Done(Put(Updated))));
  }

  lemma Counts(h: Hash, now: u64, mem: Memory, th: Thread)
    requires Bounded(|mem.slots|, th) && th.pc == Count
    ensures Leads(h, now, mem, th, mem.(used := Wrap(mem.used + 1)), Goto(th, Done(Put(Inserted))))
  {
    LeadsStep(h, now, mem, th);
  }

  /** From the start of a claim to the answer `Inserted`. */
  lemma Claims(h: Hash, now: u64, mem: Memory, th: Thread, c: seq<Cell>, idx: nat, count: bool) returns (mem': Memory)
    requires Bounded(|mem.slots|, th) && idx < |mem.slots| && th.pc == ClaimKey(idx, 0, count) && Shows(mem, c)
    ensures |c| == |mem.slots| && Shows(mem', c[idx := Claimed(h(th.job.key), th.job.key, Value(th), Expiry(th))])
    ensures mem'.used == if count then Wrap(mem.used + 1) else mem.used
    ensures Leads(h, now, mem, th, mem', Goto(th, Done(Put(Inserted))))
  {
    hide Bounded, Leads, ClaimedSlot, Claimed, A.View;
    var slot := ClaimedSlot(h, th, mem.slots[idx]);
    mem' := WithSlot(mem, idx, slot);
    ClaimAlone(h, now, mem, th, idx, count);
    ClaimedView(h, th, mem.slots[idx]);
    ViewsUpdate(mem.slots, idx, slot);
    ViewOf(mem.slots, idx);
    if count {
      var t1 := Goto(th, Count);
      LeadsBounded(h, now, mem, th, mem', t1);
      Counts(h, now, mem', t1);
      LeadsOn(h, now, mem, th, mem', t1, mem'.(used := Wrap(mem'.used + 1)), Goto(th, Done(Put(Inserted))));
      mem' := mem'.(used := Wrap(mem'.used + 1));
    }
  }

  lemma UpdatedView(slot: Slot, value: Bytes, expiry: u64)
    requires A.View(slot).Occupied?
    ensures A.View(WriteValue(slot, value).(expiresAt := expiry))
            == A.View(slot).(value := Clip(value, MAX_VAL_LEN), expiry := expiry)
  {
    var s := WriteValue(slot, value);
    assert ReadKey(s.(expiresAt := expiry)) == ReadKey(s) && ReadValue(s.(expiresAt := expiry)) == ReadValue(s);
  }

  /** From the start of an in-place update to the answer `Updated`. */
  lemma Updates(h: Hash, now: u64, mem: Memory, th: Thread, c: seq<Cell>, idx: nat) returns (mem': Memory)
    requires Bounded(|mem.slots|, th) && idx < |mem.slots| && th.pc == UpdateVal(idx, 0) && Shows(mem, c)
    requires |c| == |mem.slots| && c[idx].Occupied?
    ensures Shows(mem', c[idx := c[idx].(value := Clip(Value(th), MAX_VAL_LEN), expiry := Expiry(th))])
    ensures mem'.used == mem.used && Leads(h, now, mem, th, mem', Goto(th, Done(Put(Updated))))
  {
    hide Bounded, Leads;
    var slot := WriteValue(mem.slots[idx], Value(th)).(expiresAt := Expiry(th));
    mem' := WithSlot(mem, idx, slot);
    UpdateAlone(h, now, mem, th, idx);
    ViewsUpdate(mem.slots, idx, slot);
    ViewOf(mem.slots, idx);
    UpdatedView(mem.slots[idx], Value(th), Expiry(th));
  }

  // ---- whole operations ----

  /** A GET that runs alone is GET on the table. */
  lemma {:induction false} GetRunsAlone(h: Hash, mem: Memory, key: Bytes, present: bool, now: u64)
    requires |mem.slots| > 0
    ensures var (mem', th') := Alone(h, mem, Thread(JGet(key), Load(0), None, present), now);
            var (r, c) := Get(h, A.Views(mem.slots), key, now);
            th'.pc == Done(Got(r)) && A.Views(mem'.slots) == c && mem'.used == mem.used
  {
    hide Home, GetFrom, A.Views;
    var th := Thread(JGet(key), Load(0), None, present);
    var mem' := GetAlone(h, now, mem, th, 0);
  }

  /** A DEL that runs alone is DEL on the table, and lowers the counter exactly when it deletes. */
  lemma {:induction false} DelRunsAlone(h: Hash, mem: Memory, key: Bytes, present: bool, now: u64)
    requires |mem.slots| > 0
    ensures var (mem', th') := Alone(h, mem, Thread(JDel(key), Load(0), None, present), now);
            var (r, c) := Del(h, A.Views(mem.slots), key);
            && th'.pc == Done(Removed(r)) && A.Views(mem'.slots) == c
            && mem'.used == if r == Deleted then Wrap(mem.used - 1) else mem.used
  {
    hide Home, DelFrom, A.Views;
    var th := Thread(JDel(key), Load(0), None, present);
    var mem' := DelAlone(h, now, mem, th, 0);
  }

  lemma {:induction false} SetAlone(h: Hash, now: u64, mem: Memory, th: Thread) returns (mem': Memory, th': Thread)
    requires Bounded(|mem.slots|, th) && 0 < |mem.slots| && th.pc == Load(0) && th.grave.None? && th.job.JSet?
    ensures var fp, key := h(th.job.key), th.job.key;
            var o := Conclude(SetScan(A.Views(mem.slots), fp, key, Home(h, key, |mem.slots|), 0, None, 0, now), fp,
                key, th.job.value, th.job.expiry);
            && Shows(mem', o.cells) && th'.pc == Done(Put(o.result)) && Leads(h, now, mem, th, mem', th')
            && mem'.used == if o.result == Inserted && !o.fallback then Wrap(mem.used + 1) else mem.used
  {
    hide Bounded, Leads, Home, SetScan, A.Views, Claimed;
    var fp, key := h(th.job.key), th.job.key;
    var s := SetScan(A.Views(mem.slots), fp, key, Home(h, key, |mem.slots|), 0, None, 0, now);
    var m1 := ScanAlone(h, now, mem, th, 0, 0);
    var t1 := AtStop(th, s);
    LeadsBounded(h, now, mem, th, m1, t1);
    mem', th' := m1, t1;
    if s.stop.AtMatch? {
      mem' := Updates(h, now, m1, t1, s.cells, s.stop.idx);
      th' := Goto(t1, Done(Put(Updated)));
      LeadsOn(h, now, mem, th, m1, t1, mem', th');
    } else if t1.pc.ClaimKey? {
      mem' := Claims(h, now, m1, t1, s.cells, t1.pc.idx, t1.pc.count);
      th' := Goto(t1, Done(Put(Inserted)));
      LeadsOn(h, now, mem, th, m1, t1, mem', th');
    }
  }

  /**
   * A SET that runs alone is SET on the table; the counter rises exactly when it inserts without
   * falling back on a tombstone after a full scan.
   */
  lemma {:induction false} SetRunsAlone(h: Hash, mem: Memory, key: Bytes, value: Bytes, ttl: u64, present: bool,
                                        now: u64)
    requires |mem.slots| > 0
    ensures var job := JSet(key, value, TtlToExpiry(ttl, now));
            var (mem', th') := Alone(h, mem, Thread(job, Load(0), None, present), now);
            var o := Set(h, A.Views(mem.slots), key, value, ttl, now);
            && th'.pc == Done(Put(o.result)) && A.Views(mem'.slots) == o.cells
            && mem'.used == if o.result == Inserted && !o.fallback then Wrap(mem.used + 1) else mem.used
  {
    hide Home, SetScan, A.Views, Claimed, Conclude, TtlToExpiry;
    var th := Thread(JSet(key, value, TtlToExpiry(ttl, now)), Load(0), None, present);
    var mem', th' := SetAlone(h, now, mem, th);
  }
}

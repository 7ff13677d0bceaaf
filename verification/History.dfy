/**
 * Answers and history. Over every interleaving of GET, SET and DEL, with any expiries and any clock
 * readings, the answer of an operation is determined by what its own steps met since its call: the
 * slots it loaded, the clock readings it compared, the keys it compared, the slot it won.
 */
module History {
  import opened Bytes
  import opened SlotLayout
  import opened Table
  import opened Concurrent
  import opened Publication

  /**
   * What a thread met since its call: how many slots it loaded, the first slot it may reuse (a
   * tombstone it loaded, or an entry of its fingerprint whose time had come), whether an entry was
   * expired, the empty slot, the last slot holding its key, whether its compare-and-swap of a DEL won.
   */
  datatype Track = Track(seen: nat, room: Option<nat>, stale: bool, empty: Option<nat>, hit: Option<nat>, won: bool)

  const BLANK: Track := Track(0, None, false, None, None, false)

  function First(a: Option<nat>, idx: nat): Option<nat> { if a.Some? then a else Some(idx) }

  /** One step at a clock reading, seen from outside: what it meets, not what the thread does next. */
  function Meet(h: Hash, mem: Memory, th: Thread, now: u64, t: Track): Track {
    match th.pc
    case Load(d) =>
      if d >= |mem.slots| then t else
      var idx := Here(h, mem, th, d);
      (match mem.slots[idx].state
       case EMPTY => t.(seen := t.seen + 1, empty := Some(idx))
       case TOMBSTONE => t.(seen := t.seen + 1, room := First(t.room, idx))
       case OCCUPIED => t.(seen := t.seen + 1))
    case ReadClock(d, expiry) =>
      if d < |mem.slots| && now >= expiry then t.(stale := true, room := First(t.room, Here(h, mem, th, d))) else t
    case CopyKey(d, len, got) =>
      if d < |mem.slots| && (|got| >= len || |got| >= MAX_KEY_LEN) && got == th.job.key
      then t.(hit := Some(Here(h, mem, th, d))) else t
    case Bury(d) =>
      if d < |mem.slots| && mem.slots[Here(h, mem, th, d)].state == OCCUPIED then t.(won := true) else t
    case _ => t
  }

  function Note(h: Hash, s: Sys, e: Event, r: nat, t: Track): Track
    requires r < |s.threads|
  {
    if e.Tick? && e.tid == r then Meet(h, s.mem, s.threads[r], e.now, t) else t
  }

  function TrackOf(h: Hash, s: Sys, events: seq<Event>, r: nat, t: Track): Track
    requires r < |s.threads|
    decreases events
  {
    if events == [] then t else TrackOf(h, Next(h, s, events[0]), events[1..], r, Note(h, s, events[0], r, t))
  }

  // ---- what holds at each point ----

  /** The remembered tombstone is the first room met. */
  ghost predicate Remembers(th: Thread, t: Track) { !th.job.JSet? || th.grave == t.room }

  /** Nothing has decided the operation yet; a DEL may have lost a slot that held its key. */
  ghost predicate Undecided(job: Job, t: Track) {
    t.empty.None? && !t.won && (!job.JDel? ==> t.hit.None?) && (job.JGet? ==> !t.stale)
  }

  ghost predicate Probing(th: Thread, t: Track, d: nat) { Undecided(th.job, t) && t.seen == d && Remembers(th, t) }

  ghost predicate Claiming(n: nat, job: Job, t: Track, idx: nat, count: bool) {
    && job.JSet? && t.hit.None?
    && if count then t.empty.Some? && Some(idx) == (if t.room.Some? then t.room else t.empty)
       else t.empty.None? && t.seen == n && t.room == Some(idx)
  }

  /** The answer is the one the history calls for. */
  ghost predicate Due(n: nat, job: Job, t: Track, r: Result) {
    match r
    case Got(Expired) => job.JGet? && t.stale
    case Got(Found(_)) => job.JGet? && !t.stale && t.hit.Some?
    case Got(NotFound) => job.JGet? && !t.stale && t.hit.None? && (t.empty.Some? || t.seen == n)
    case Put(Updated) => job.JSet? && t.hit.Some?
    case Put(Inserted) => job.JSet? && t.hit.None? && (t.room.Some? || t.empty.Some?)
    case Put(Full) => job.JSet? && t.hit.None? && t.room.None? && t.empty.None? && t.seen == n
    case Removed(Deleted) => job.JDel? && t.won
    case Removed(Missing) => job.JDel? && !t.won && (t.empty.Some? || t.seen == n)
  }

  ghost predicate Follows(h: Hash, mem: Memory, th: Thread, t: Track) {
    var n := |mem.slots|;
    match th.pc
    case Load(d) => d <= n && Probing(th, t, d)
    case LoadFp(d) => d < n && Probing(th, t, d + 1)
    case LoadExpiry(d) => d < n && !th.job.JDel? && Probing(th, t, d + 1)
    case ReadClock(d, _) => d < n && !th.job.JDel? && Probing(th, t, d + 1)
    case Evict(d) =>
      && d < n && !th.job.JDel? && t.stale && t.seen == d + 1 && t.hit.None? && t.empty.None? && !t.won
      && (th.job.JSet? ==> t.room == First(th.grave, Here(h, mem, th, d)))
    case LoadKeyLen(d) => d < n && Probing(th, t, d + 1)
    case CopyKey(d, _, _) => d < n && Probing(th, t, d + 1)
    case LoadValLen(d) => th.job.JGet? && !t.stale && t.hit.Some?
    case CopyVal(d, _, _) => th.job.JGet? && !t.stale && t.hit.Some?
    case Bury(d) => d < n && th.job.JDel? && Probing(th, t, d + 1)
    case Uncount => th.job.JDel? && t.won
    case UpdateVal(idx, _) => idx < n && th.job.JSet? && t.hit == Some(idx)
    case UpdateExpiry(idx) => idx < n && th.job.JSet? && t.hit == Some(idx)
    case ClaimKey(idx, _, c) => idx < n && Claiming(n, th.job, t, idx, c)
    case ClaimVal(idx, _, c) => idx < n && Claiming(n, th.job, t, idx, c)
    case ClaimFp(idx, c) => idx < n && Claiming(n, th.job, t, idx, c)
    case ClaimExpiry(idx, c) => idx < n && Claiming(n, th.job, t, idx, c)
    case Publish(idx, c) => idx < n && Claiming(n, th.job, t, idx, c)
    case Count => th.job.JSet? && t.hit.None? && t.empty.Some?
    case Done(r) => Due(n, th.job, t, r)
    case Idle => false
  }

  /** A remembered slot exists. */
  ghost predicate InRange(n: nat, t: Track) {
    (t.room.Some? ==> t.room.value < n) && (t.empty.Some? ==> t.empty.value < n)
  }

  lemma MeetInRange(h: Hash, mem: Memory, th: Thread, now: u64, t: Track)
    requires InRange(|mem.slots|, t)
    ensures InRange(|mem.slots|, Meet(h, mem, th, now, t))
  {
  }

  // ---- one step ----

  lemma LoadFollows(h: Hash, mem: Memory, th: Thread, now: u64, t: Track)
    requires Follows(h, mem, th, t) && InRange(|mem.slots|, t) && th.pc.Load?
    ensures Follows(h, mem, StepLoad(h, mem, th, th.pc.d), Meet(h, mem, th, now, t))
  {
    hide Here;
  }

  lemma SameSlot(h: Hash, mem: Memory, th: Thread, th': Thread)
    requires th'.job == th.job
    ensures forall d: nat | d < |mem.slots| :: Here(h, mem, th', d) == Here(h, mem, th, d)
  {
  }

  lemma ReadFollows(h: Hash, mem: Memory, th: Thread, now: u64, t: Track)
    requires Follows(h, mem, th, t)
    requires th.pc.LoadFp? || th.pc.LoadExpiry? || th.pc.ReadClock? || th.pc.LoadKeyLen? || th.pc.LoadValLen?
             || th.pc.CopyVal?
    ensures Follows(h, mem, StepRead(h, mem, th, now), Meet(h, mem, th, now, t))
  {
    SameSlot(h, mem, th, StepRead(h, mem, th, now));
    hide Here;
  }

  lemma CopyFollows(h: Hash, mem: Memory, th: Thread, now: u64, t: Track)
    requires Follows(h, mem, th, t) && th.pc.CopyKey?
    ensures Follows(h, mem, StepRead(h, mem, th, now), Meet(h, mem, th, now, t))
  {
    hide Here;
  }

  lemma CasFollows(h: Hash, mem: Memory, mem': Memory, th: Thread, now: u64, t: Track)
    requires Follows(h, mem, th, t) && (th.pc.Evict? || th.pc.Bury?) && |mem'.slots| == |mem.slots|
    ensures th.pc.d < |mem.slots|
    ensures var idx := Here(h, mem, th, th.pc.d);
            Follows(h, mem', AfterWrite(th, idx, mem.slots[idx].state), Meet(h, mem, th, now, t))
  {
    hide Here, Clip;
  }

  lemma WriteFollows(h: Hash, mem: Memory, mem': Memory, th: Thread, now: u64, t: Track, idx: nat, was: State)
    requires Follows(h, mem, th, t) && Target(h, mem, th) == Some(idx) && |mem'.slots| == |mem.slots|
    requires !th.pc.Evict? && !th.pc.Bury?
    ensures Follows(h, mem', AfterWrite(th, idx, was), Meet(h, mem, th, now, t))
  {
    hide Here, Clip;
  }

  lemma CountFollows(h: Hash, mem: Memory, mem': Memory, th: Thread, now: u64, t: Track)
    requires Follows(h, mem, th, t) && (th.pc.Count? || th.pc.Uncount?) && |mem'.slots| == |mem.slots|
    ensures var r := if th.pc.Count? then Put(Inserted) else Removed(Deleted);
            Follows(h, mem', Goto(th, Done(r)), Meet(h, mem, th, now, t))
  {
  }

  lemma DoneFollows(h: Hash, mem: Memory, th: Thread, now: u64, t: Track)
    requires Follows(h, mem, th, t) && th.pc.Done?
    ensures StepRead(h, mem, th, now) == th && Meet(h, mem, th, now, t) == t
  {
  }

  /** The writing points of a followed thread have a target. */
  lemma PointsOf(h: Hash, mem: Memory, th: Thread, t: Track)
    requires Follows(h, mem, th, t)
    ensures Target(h, mem, th).None? ==>
              ReadPoint(th.pc) || th.pc.ReadClock? || th.pc.Count? || th.pc.Uncount?
    ensures Target(h, mem, th).Some? && (th.pc.Evict? || th.pc.Bury?) ==>
              th.pc.d < |mem.slots| && Target(h, mem, th).value == Here(h, mem, th, th.pc.d)
    ensures Target(h, mem, th).Some? ==> !th.pc.Count? && !th.pc.Uncount?
  {
    hide Here;
  }

  /** Every step of the thread keeps it in line with what it has met. */
  lemma StepFollows(h: Hash, mem: Memory, th: Thread, now: u64, t: Track)
    requires Follows(h, mem, th, t) && InRange(|mem.slots|, t)
    ensures var (mem', th') := StepThread(h, mem, th, now);
            Follows(h, mem', th', Meet(h, mem, th, now, t))
  {
    PointsOf(h, mem, th, t);
    ReadStays(h, mem, th, now);
    hide Follows, Written, AfterWrite, StepRead, StepLoad, Target, Meet, Here;
    var (mem', th') := StepThread(h, mem, th, now);
    if Target(h, mem, th).Some? {
      var idx := Target(h, mem, th).value;
      if th.pc.Evict? || th.pc.Bury? {
        CasFollows(h, mem, mem', th, now, t);
      } else {
        WriteFollows(h, mem, mem', th, now, t, idx, mem.slots[idx].state);
      }
    } else if th.pc.Count? || th.pc.Uncount? {
      CountFollows(h, mem, mem', th, now, t);
    } else if th.pc.Load? {
      LoadFollows(h, mem, th, now, t);
    } else if th.pc.CopyKey? {
      CopyFollows(h, mem, th, now, t);
    } else if th.pc.Done? {
      DoneFollows(h, mem, th, now, t);
    } else {
      ReadFollows(h, mem, th, now, t);
    }
  }

  /** Steps of other threads change neither the thread nor what it has met. */
  lemma OthersFollow(h: Hash, mem: Memory, mem': Memory, th: Thread, t: Track)
    requires Follows(h, mem, th, t) && |mem'.slots| == |mem.slots|
    ensures Follows(h, mem', th, t)
  {
    hide Probing, Claiming, Due;
  }

  lemma NextFollows(h: Hash, s: Sys, e: Event, r: nat, t: Track)
    requires r < |s.threads| && (e.Invoke? ==> e.tid != r)
    requires Follows(h, s.mem, s.threads[r], t) && InRange(|s.mem.slots|, t)
    ensures var s' := Next(h, s, e);
            Follows(h, s'.mem, s'.threads[r], Note(h, s, e, r, t)) && InRange(|s'.mem.slots|, Note(h, s, e, r, t))
  {
    hide Follows, StepThread, Meet, KeyStored, InRange;
    var s' := Next(h, s, e);
    if e.Tick? && e.tid == r {
      StepFollows(h, s.mem, s.threads[r], e.now, t);
      MeetInRange(h, s.mem, s.threads[r], e.now, t);
    } else {
      OthersFollow(h, s.mem, s'.mem, s.threads[r], t);
    }
  }

  lemma {:induction false} RunFollows(h: Hash, s: Sys, events: seq<Event>, r: nat, t: Track)
    requires r < |s.threads| && NotCalled(events, r)
    requires Follows(h, s.mem, s.threads[r], t) && InRange(|s.mem.slots|, t)
    ensures var s' := Exec(h, s, events);
            Follows(h, s'.mem, s'.threads[r], TrackOf(h, s, events, r, t))
    decreases events
  {
    if events != [] {
      var e := events[0];
      assert NotCalled(events[1..], r);
      assert e.Invoke? ==> e.tid != r;
      hide Follows, InRange, Next, Note, NotCalled;
      NextFollows(h, s, e, r, t);
      RunFollows(h, Next(h, s, e), events[1..], r, Note(h, s, e, r, t));
    }
  }

  // ---- answers ----

  /** The state right after thread `r` is called. */
  function Start(h: Hash, s: Sys, r: nat, job: Job): (s': Sys)
    ensures |s'.threads| == |s.threads| && |s'.mem.slots| == |s.mem.slots|
  {
    Next(h, s, Invoke(r, job))
  }

  /** The history of thread `r` since its call. */
  function Met(h: Hash, s: Sys, r: nat, job: Job, events: seq<Event>): Track
    requires r < |s.threads|
  {
    TrackOf(h, Start(h, s, r, job), events, r, BLANK)
  }

  lemma JobStays(h: Hash, s: Sys, events: seq<Event>, r: nat)
    requires r < |s.threads| && NotCalled(events, r)
    ensures Exec(h, s, events).threads[r].job == s.threads[r].job
  {
    hide Exec;
    JobKept(h, s, events, r);
  }

  /** Whatever the other threads do, an answer is the one the thread's own history calls for. */
  lemma {:induction false} AnswerIsDue(h: Hash, s: Sys, r: nat, job: Job, events: seq<Event>)
    requires r < |s.threads| && Free(s.threads[r]) && NotCalled(events, r)
    requires Exec(h, Start(h, s, r, job), events).threads[r].pc.Done?
    ensures var th := Exec(h, Start(h, s, r, job), events).threads[r];
            Due(|s.mem.slots|, job, Met(h, s, r, job, events), th.pc.result)
  {
    var s1 := Start(h, s, r, job);
    assert s1.threads[r].pc == Load(0) && s1.threads[r].grave.None? && s1.threads[r].job == job;
    assert Follows(h, s1.mem, s1.threads[r], BLANK) && InRange(|s1.mem.slots|, BLANK);
    assert NotCalled(events, r) ==> forall i | 0 <= i < |events| :: events[i].Invoke? ==> events[i].tid != r;
    hide Start, Exec, Due, InRange, NotCalled, TrackOf;
    RunFollows(h, s1, events, r, BLANK);
    JobStays(h, s1, events, r);
  }

  /**
   * SET: `Updated` exactly if it came upon its key; otherwise `Inserted` exactly if it met room,
   * that is a tombstone, an empty slot, or an entry of its fingerprint whose time had come, no
   * matter who then buried it; and `Full` exactly if it met none of this in all the slots.
   */
  lemma {:induction false} SetAnswerIff(h: Hash, s: Sys, r: nat, job: Job, events: seq<Event>)
    requires r < |s.threads| && Free(s.threads[r]) && NotCalled(events, r) && job.JSet?
    requires Exec(h, Start(h, s, r, job), events).threads[r].pc.Done?
    ensures var a, t := Exec(h, Start(h, s, r, job), events).threads[r].pc.result, Met(h, s, r, job, events);
            && a.Put?
            && (a.put == Updated <==> t.hit.Some?)
            && (a.put == Inserted <==> t.hit.None? && (t.room.Some? || t.empty.Some?))
            && (a.put == Full <==> t.hit.None? && t.room.None? && t.empty.None?)
            && (a.put == Full ==> t.seen == |s.mem.slots|)
  {
    hide Exec, Start, Met;
    AnswerIsDue(h, s, r, job, events);
  }

  /**
   * GET: `Expired` exactly if it met an entry of its fingerprint whose time had come, no matter who
   * buried it; otherwise `Found` exactly if it came upon its key; otherwise `NotFound`, after an
   * empty slot or all the slots.
   */
  lemma {:induction false} GetAnswerIff(h: Hash, s: Sys, r: nat, job: Job, events: seq<Event>)
    requires r < |s.threads| && Free(s.threads[r]) && NotCalled(events, r) && job.JGet?
    requires Exec(h, Start(h, s, r, job), events).threads[r].pc.Done?
    ensures var a, t := Exec(h, Start(h, s, r, job), events).threads[r].pc.result, Met(h, s, r, job, events);
            && a.Got?
            && (a.get == Expired <==> t.stale)
            && (a.get.Found? <==> !t.stale && t.hit.Some?)
            && (a.get == NotFound ==> t.empty.Some? || t.seen == |s.mem.slots|)
  {
    hide Exec, Start, Met;
    AnswerIsDue(h, s, r, job, events);
  }

  /** DEL: `Deleted` exactly if it won a slot; otherwise it met an empty slot or loaded all the slots. */
  lemma {:induction false} DelAnswerIff(h: Hash, s: Sys, r: nat, job: Job, events: seq<Event>)
    requires r < |s.threads| && Free(s.threads[r]) && NotCalled(events, r) && job.JDel?
    requires Exec(h, Start(h, s, r, job), events).threads[r].pc.Done?
    ensures var a, t := Exec(h, Start(h, s, r, job), events).threads[r].pc.result, Met(h, s, r, job, events);
            && a.Removed?
            && (a.del == Deleted <==> t.won)
            && (a.del == Missing ==> t.empty.Some? || t.seen == |s.mem.slots|)
  {
    hide Exec, Start, Met;
    AnswerIsDue(h, s, r, job, events);
  }

  // ---- tick by tick ----

  /** A tick at which the slot the thread loads is a tombstone, or at which an entry of its fingerprint is expired. */
  predicate OffersRoom(h: Hash, s: Sys, e: Event, r: nat)
    requires r < |s.threads|
  {
    && e.Tick? && e.tid == r
    && var pc := s.threads[r].pc;
       || (pc.Load? && pc.d < |s.mem.slots| && s.mem.slots[Here(h, s.mem, s.threads[r], pc.d)].state == TOMBSTONE)
       || (pc.ReadClock? && pc.d < |s.mem.slots| && e.now >= pc.expiry)
  }

  lemma OfferIsNoted(h: Hash, s: Sys, e: Event, r: nat, t: Track)
    requires r < |s.threads|
    ensures var t' := Note(h, s, e, r, t);
            (t.room.Some? ==> t'.room.Some?) && (OffersRoom(h, s, e, r) ==> t'.room.Some?)
            && (t'.room.Some? && t.room.None? ==> OffersRoom(h, s, e, r))
  {
    hide Here;
  }

  lemma {:induction false} RoomStays(h: Hash, s: Sys, events: seq<Event>, r: nat, t: Track)
    requires r < |s.threads| && t.room.Some?
    ensures TrackOf(h, s, events, r, t).room.Some?
    decreases events
  {
    if events != [] {
      OfferIsNoted(h, s, events[0], r, t);
      hide Next, Note;
      RoomStays(h, Next(h, s, events[0]), events[1..], r, Note(h, s, events[0], r, t));
    }
  }

  /** After an offer at any tick, room has been met. */
  lemma {:induction false} OfferCounts(h: Hash, s: Sys, events: seq<Event>, r: nat, t: Track, i: nat)
    requires r < |s.threads| && i < |events| && OffersRoom(h, Exec(h, s, events[..i]), events[i], r)
    ensures TrackOf(h, s, events, r, t).room.Some?
    decreases events
  {
    var e, s', t' := events[0], Next(h, s, events[0]), Note(h, s, events[0], r, t);
    OfferIsNoted(h, s, e, r, t);
    if i == 0 {
      assert events[..0] == [];
      hide Next, Note, OffersRoom;
      RoomStays(h, s', events[1..], r, t');
    } else {
      assert events[..i][1..] == events[1..][..i - 1];
      hide Next, Note, OffersRoom;
      OfferCounts(h, s', events[1..], r, t', i - 1);
    }
  }

  /**
   * A SET that answers `Full` had, since its call, no tick at which the slot it loaded was a
   * tombstone, and no tick at which an entry of its fingerprint was expired, whoever buried it.
   */
  lemma {:induction false} FullMetNoRoom(h: Hash, s: Sys, r: nat, job: Job, events: seq<Event>, i: nat)
    requires r < |s.threads| && Free(s.threads[r]) && NotCalled(events, r) && job.JSet? && i < |events|
    requires Exec(h, Start(h, s, r, job), events).threads[r].pc == Done(Put(Full))
    ensures !OffersRoom(h, Exec(h, Start(h, s, r, job), events[..i]), events[i], r)
  {
    var s1 := Start(h, s, r, job);
    assert Met(h, s, r, job, events) == TrackOf(h, s1, events, r, BLANK);
    hide Exec, Start, Met, TrackOf, OffersRoom;
    SetAnswerIff(h, s, r, job, events);
    if OffersRoom(h, Exec(h, s1, events[..i]), events[i], r) {
      OfferCounts(h, s1, events, r, BLANK, i);
    }
  }

  /** A SET writes into the first room it met, and only without any into the empty slot it met. */
  lemma {:induction false} SetWritesFirstRoom(h: Hash, s: Sys, r: nat, job: Job, events: seq<Event>)
    requires r < |s.threads| && Free(s.threads[r]) && NotCalled(events, r) && job.JSet?
    requires Exec(h, Start(h, s, r, job), events).threads[r].pc.Publish?
    ensures var t := Met(h, s, r, job, events);
            Some(Exec(h, Start(h, s, r, job), events).threads[r].pc.idx) == if t.room.Some? then t.room else t.empty
  {
    var s1 := Start(h, s, r, job);
    assert Follows(h, s1.mem, s1.threads[r], BLANK) && InRange(|s1.mem.slots|, BLANK);
    hide Start, Exec, InRange, NotCalled, TrackOf;
    RunFollows(h, s1, events, r, BLANK);
  }
}

/**
 * Publication safety: one writer that only SETs absent keys without TTL, any number of readers,
 * no stored entry with a TTL. Over every interleaving each GET answers nothing or exactly the
 * stored bytes, and a GET called after the key was stored always finds it.
 */
module Publication {
  import opened Bytes
  import opened Probe
  import opened SlotLayout
  import opened Table
  import opened TableProofs
  import opened Concurrent
  import Refinement
  import A = Arena

  // ---- memory as a table ----

  /** Every occupied slot is untouched; a newly occupied one holds a key that was not stored. */
  ghost predicate Grows(a: seq<Slot>, b: seq<Slot>) {
    && |b| == |a|
    && (forall i | 0 <= i < |a| :: a[i].state == OCCUPIED ==> b[i] == a[i])
    && (forall i | 0 <= i < |a| :: a[i].state != EMPTY ==> b[i].state != EMPTY)
    && (forall i | 0 <= i < |a| :: a[i].state != OCCUPIED && b[i].state == OCCUPIED ==> !KeyStored(a, ReadKey(b[i])))
  }

  ghost predicate NoExpiry(slots: seq<Slot>) {
    forall i | 0 <= i < |slots| :: slots[i].state == OCCUPIED ==> slots[i].expiresAt == 0
  }

  ghost predicate Sound(h: Hash, slots: seq<Slot>) { Inv(h, A.Views(slots)) && NoExpiry(slots) }

  ghost predicate Keeps(slots: seq<Slot>, key: Bytes, value: Bytes) {
    exists i :: 0 <= i < |slots| && slots[i].state == OCCUPIED && ReadKey(slots[i]) == key
        && ReadValue(slots[i]) == value
  }

  lemma StoredIsKeyStored(slots: seq<Slot>, key: Bytes)
    ensures Stored(A.Views(slots), key) <==> KeyStored(slots, key)
  {
    var c := A.Views(slots);
    if Stored(c, key) {
      var i :| 0 <= i < |c| && c[i].Occupied? && c[i].key == key;
      assert slots[i].state == OCCUPIED && ReadKey(slots[i]) == key;
    }
    if KeyStored(slots, key) {
      var i :| 0 <= i < |slots| && slots[i].state == OCCUPIED && ReadKey(slots[i]) == key;
      assert c[i].Occupied? && c[i].key == key;
    }
  }

  /** At most one slot stores a key, so the bytes a GET may return are determined. */
  lemma KeepsUnique(h: Hash, slots: seq<Slot>, key: Bytes, v: Bytes, w: Bytes)
    requires Inv(h, A.Views(slots)) && Keeps(slots, key, v) && Keeps(slots, key, w)
    ensures v == w
  {
    var c := A.Views(slots);
    var i :| 0 <= i < |slots| && slots[i].state == OCCUPIED && ReadKey(slots[i]) == key && ReadValue(slots[i]) == v;
    var j :| 0 <= j < |slots| && slots[j].state == OCCUPIED && ReadKey(slots[j]) == key && ReadValue(slots[j]) == w;
    assert c[i].key == c[j].key;
  }

  lemma GrowthKeeps(a: seq<Slot>, b: seq<Slot>, key: Bytes, value: Bytes)
    requires Grows(a, b) && Keeps(a, key, value)
    ensures Keeps(b, key, value)
  {
    var i :| 0 <= i < |a| && a[i].state == OCCUPIED && ReadKey(a[i]) == key && ReadValue(a[i]) == value;
    assert b[i] == a[i];
  }

  // ---- readers ----

  ghost predicate Inside(h: Hash, slots: seq<Slot>, key: Bytes, d: nat) {
    d < |slots| && slots[At(Home(h, key, |slots|), d, |slots|)].state == OCCUPIED
  }

  ghost function SlotAt(h: Hash, slots: seq<Slot>, key: Bytes, d: nat): Slot
    requires d < |slots|
  {
    slots[At(Home(h, key, |slots|), d, |slots|)]
  }

  /** The reader has not gone past the slot that stores its key. */
  ghost predicate Ahead(h: Hash, slots: seq<Slot>, key: Bytes, d: nat)
    requires |slots| > 0
  {
    forall i | 0 <= i < |slots| ::
      slots[i].state == OCCUPIED && ReadKey(slots[i]) == key ==> d <= Dist(Home(h, key, |slots|), i, |slots|)
  }

  ghost predicate KeyCopied(s: Slot, len: nat, got: Bytes) {
    len == Min(s.keyLen, MAX_KEY_LEN) && |got| <= len && got == s.keyBuf[..|got|]
  }

  ghost predicate ValCopied(s: Slot, len: nat, got: Bytes) {
    len == Min(s.valLen, MAX_VAL_LEN) && |got| <= len && got == s.valBuf[..|got|]
  }

  /** What holds of a GET at each of its program points; `true` nowhere else. */
  ghost predicate ReaderAt(h: Hash, slots: seq<Slot>, key: Bytes, present: bool, pc: Pc)
    requires |slots| > 0
  {
    match pc
    case Load(d) => d <= |slots| && (present ==> Ahead(h, slots, key, d))
    case LoadFp(d) => Inside(h, slots, key, d) && (present ==> Ahead(h, slots, key, d))
    case LoadExpiry(d) => Inside(h, slots, key, d) && (present ==> Ahead(h, slots, key, d))
    case LoadKeyLen(d) => Inside(h, slots, key, d) && (present ==> Ahead(h, slots, key, d))
    case CopyKey(d, len, got) =>
      Inside(h, slots, key, d) && (present ==> Ahead(h, slots, key, d)) && KeyCopied(SlotAt(h, slots, key, d), len, got)
    case LoadValLen(d) => Inside(h, slots, key, d) && ReadKey(SlotAt(h, slots, key, d)) == key
    case CopyVal(d, len, got) =>
      Inside(h, slots, key, d) && ReadKey(SlotAt(h, slots, key, d)) == key
          && ValCopied(SlotAt(h, slots, key, d), len, got)
    case Done(r) =>
      r.Got? && !r.get.Expired? && (present ==> r.get.Found?) && (r.get.Found? ==> Keeps(slots, key, r.get.value))
    case _ => false
  }

  ghost predicate Reader(h: Hash, slots: seq<Slot>, th: Thread) {
    && |slots| > 0
    && (th.pc.Idle? || (&& th.job.JGet? && (th.present ==> KeyStored(slots, th.job.key))
                        && ReaderAt(h, slots, th.job.key, th.present, th.pc)))
  }

  lemma AheadFrame(h: Hash, a: seq<Slot>, b: seq<Slot>, key: Bytes)
    requires |a| > 0 && Grows(a, b) && KeyStored(a, key)
    ensures forall d: nat :: Ahead(h, a, key, d) ==> Ahead(h, b, key, d)
  {
    forall i | 0 <= i < |b| && b[i].state == OCCUPIED && a[i].state != OCCUPIED ensures ReadKey(b[i]) != key {
    }
  }

  /** Growth of the table disturbs no reader. */
  lemma ReaderFrame(h: Hash, a: seq<Slot>, b: seq<Slot>, th: Thread)
    requires Reader(h, a, th) && Grows(a, b)
    ensures Reader(h, b, th)
  {
    if !th.pc.Idle? {
      var key := th.job.key;
      if th.present {
        var i :| 0 <= i < |a| && a[i].state == OCCUPIED && ReadKey(a[i]) == key;
        assert b[i] == a[i];
        AheadFrame(h, a, b, key);
      }
      if th.pc.Done? && th.pc.result.get.Found? {
        GrowthKeeps(a, b, key, th.pc.result.get.value);
      }
    }
  }

  /** Before the slot that stores the key no slot is empty. */
  lemma NoHoleAhead(h: Hash, slots: seq<Slot>, key: Bytes, d: nat)
    requires Sound(h, slots) && KeyStored(slots, key) && d <= |slots| && Ahead(h, slots, key, d)
    ensures d < |slots| && SlotAt(h, slots, key, d).state != EMPTY
  {
    var c, n, start := A.Views(slots), |slots|, Home(h, key, |slots|);
    var i :| 0 <= i < n && slots[i].state == OCCUPIED && ReadKey(slots[i]) == key;
    assert c[i].Occupied? && c[i].key == key;
    assert d <= Dist(start, i, n);
    var idx := At(start, d, n);
    if idx != i {
      assert ProbedBefore(h, c, i, idx);
      assert !c[idx].Empty?;
    }
  }

  /** Passing a slot that does not hold the key keeps the reader ahead. */
  lemma StillAhead(h: Hash, slots: seq<Slot>, key: Bytes, d: nat)
    requires d < |slots| && Ahead(h, slots, key, d)
    requires !(SlotAt(h, slots, key, d).state == OCCUPIED && ReadKey(SlotAt(h, slots, key, d)) == key)
    ensures Ahead(h, slots, key, d + 1)
  {
    var n, start := |slots|, Home(h, key, |slots|);
    assert forall j | 0 <= j < n && Dist(start, j, n) == d :: j == At(start, d, n);
  }

  lemma FpOfKey(h: Hash, slots: seq<Slot>, i: nat)
    requires Sound(h, slots) && i < |slots| && slots[i].state == OCCUPIED
    ensures slots[i].fingerprint == h(ReadKey(slots[i])) && slots[i].expiresAt == 0
  {
    assert A.Views(slots)[i].Occupied?;
  }

  lemma CopyStep(s: Slot, len: nat, got: Bytes)
    ensures KeyCopied(s, len, got) ==>
              if |got| < len && |got| < MAX_KEY_LEN
                  then KeyCopied(s, len, got + [s.keyBuf[|got|]]) else got == ReadKey(s)
    ensures ValCopied(s, len, got) ==>
              if |got| < len && |got| < MAX_VAL_LEN
                  then ValCopied(s, len, got + [s.valBuf[|got|]]) else got == ReadValue(s)
  {
  }

  /** The program points of a GET in this setting. */
  predicate ReadPoint(pc: Pc) {
    pc.Load? || pc.LoadFp? || pc.LoadExpiry? || pc.LoadKeyLen? || pc.CopyKey? || pc.LoadValLen? || pc.CopyVal?
        || pc.Done?
  }

  lemma ReadPointsOnlyRead(h: Hash, mem: Memory, th: Thread, now: u64)
    requires ReadPoint(th.pc) || th.pc.Idle?
    ensures StepThread(h, mem, th, now) == (mem, StepRead(h, mem, th, now))
  {
    hide StepRead;
  }

  lemma ReaderLoad(h: Hash, mem: Memory, th: Thread, d: nat)
    requires Sound(h, mem.slots) && Reader(h, mem.slots, th) && th.pc == Load(d)
    ensures Reader(h, mem.slots, StepLoad(h, mem, th, d))
  {
    hide Sound, KeyStored, Ahead;
    var slots, key := mem.slots, th.job.key;
    if th.present {
      NoHoleAhead(h, slots, key, d);
    }
    if d < |slots| && SlotAt(h, slots, key, d).state == TOMBSTONE && th.present {
      StillAhead(h, slots, key, d);
    }
  }

  lemma ReaderInside(h: Hash, mem: Memory, th: Thread, now: u64)
    requires Sound(h, mem.slots) && Reader(h, mem.slots, th)
    requires th.pc.LoadFp? || th.pc.LoadExpiry? || th.pc.LoadKeyLen? || th.pc.LoadValLen?
    ensures Reader(h, mem.slots, StepRead(h, mem, th, now))
  {
    hide Sound, KeyStored, Ahead, ReadKey, ReadValue;
    var slots, key, d := mem.slots, th.job.key, th.pc.d;
    var idx := At(Home(h, key, |slots|), d, |slots|);
    FpOfKey(h, slots, idx);
    if th.pc.LoadFp? && th.present && slots[idx].fingerprint != h(key) {
      StillAhead(h, slots, key, d);
    }
  }

  lemma ReaderCopiesKey(h: Hash, mem: Memory, th: Thread, now: u64)
    requires Sound(h, mem.slots) && Reader(h, mem.slots, th) && th.pc.CopyKey?
    ensures Reader(h, mem.slots, StepRead(h, mem, th, now))
  {
    hide Sound, KeyStored, Ahead, ReadKey, ReadValue, KeyCopied;
    var slots, key, d := mem.slots, th.job.key, th.pc.d;
    CopyStep(SlotAt(h, slots, key, d), th.pc.len, th.pc.got);
    if th.present && ReadKey(SlotAt(h, slots, key, d)) != key {
      StillAhead(h, slots, key, d);
    }
  }

  lemma ReaderCopiesValue(h: Hash, mem: Memory, th: Thread, now: u64)
    requires Sound(h, mem.slots) && Reader(h, mem.slots, th) && th.pc.CopyVal?
    ensures Reader(h, mem.slots, StepRead(h, mem, th, now))
  {
    hide Sound, KeyStored, Ahead, ReadKey, ReadValue, ValCopied;
    var slots, key, d := mem.slots, th.job.key, th.pc.d;
    var slot := SlotAt(h, slots, key, d);
    CopyStep(slot, th.pc.len, th.pc.got);
    assert Keeps(slots, key, ReadValue(slot));
  }

  lemma ReaderPoints(h: Hash, slots: seq<Slot>, th: Thread)
    requires Reader(h, slots, th)
    ensures ReadPoint(th.pc) || th.pc.Idle?
  {
  }

  lemma ReadStays(h: Hash, mem: Memory, th: Thread, now: u64)
    ensures th.pc.Idle? || th.pc.Done? ==> StepRead(h, mem, th, now) == th
    ensures th.pc.Load? ==> StepRead(h, mem, th, now) == StepLoad(h, mem, th, th.pc.d)
  {
  }

  /** A reader's step leaves memory alone and takes it to its next point. */
  lemma ReaderStep(h: Hash, mem: Memory, th: Thread, now: u64)
    requires Sound(h, mem.slots) && Reader(h, mem.slots, th)
    ensures var (mem', th') := StepThread(h, mem, th, now);
            mem' == mem && Reader(h, mem.slots, th')
  {
    ReaderPoints(h, mem.slots, th);
    ReadPointsOnlyRead(h, mem, th, now);
    ReadStays(h, mem, th, now);
    hide Reader, Sound;
    match th.pc {
      case Load(d) => ReaderLoad(h, mem, th, d);
      case CopyKey(_, _, _) => ReaderCopiesKey(h, mem, th, now);
      case CopyVal(_, _, _) => ReaderCopiesValue(h, mem, th, now);
      case Idle =>
      case Done(_) =>
      case _ => ReaderInside(h, mem, th, now);
    }
  }

  // ---- the writer ----

  /** The first `d` slots of the path of `key` are occupied. */
  ghost predicate AllTaken(h: Hash, slots: seq<Slot>, key: Bytes, d: nat)
    requires |slots| > 0
  {
    forall j | 0 <= j < |slots| && Dist(Home(h, key, |slots|), j, |slots|) < d :: slots[j].state == OCCUPIED
  }

  /** The tombstone the writer remembers lies on its path and is still free; without one it saw none. */
  ghost predicate GraveFree(h: Hash, slots: seq<Slot>, th: Thread, d: nat)
    requires |slots| > 0
  {
    if th.grave.None? then AllTaken(h, slots, th.job.key, d)
    else
      && th.grave.value < |slots| && slots[th.grave.value].state != OCCUPIED
      && Dist(Home(h, th.job.key, |slots|), th.grave.value, |slots|) < d
  }

  /** Every slot is occupied, and by another key. */
  ghost predicate FullOfOthers(slots: seq<Slot>, key: Bytes) {
    (forall i | 0 <= i < |slots| :: slots[i].state == OCCUPIED) && !KeyStored(slots, key)
  }

  /** The writer's key is absent and the first `d` slots of its path are non-empty. */
  ghost predicate Searching(h: Hash, slots: seq<Slot>, th: Thread, d: nat) {
    && 0 < |slots| && d <= |slots| && !KeyStored(slots, th.job.key)
    && Passed(A.Views(slots), th.job.key, Home(h, th.job.key, |slots|), d)
    && GraveFree(h, slots, th, d)
  }

  /** The writer owns slot `idx`: not occupied, and reachable without crossing an empty slot. */
  ghost predicate Owns(h: Hash, slots: seq<Slot>, key: Bytes, idx: nat) {
    && idx < |slots| && slots[idx].state != OCCUPIED && !KeyStored(slots, key)
    && Passed(A.Views(slots), key, Home(h, key, |slots|), Dist(Home(h, key, |slots|), idx, |slots|))
  }

  ghost predicate KeyWritten(s: Slot, key: Bytes) {
    |key| <= MAX_KEY_LEN && s.keyLen == |key| && s.keyBuf[..|key|] == key
  }

  ghost predicate ValWritten(s: Slot, value: Bytes) {
    |value| <= MAX_VAL_LEN && s.valLen == |value| && s.valBuf[..|value|] == value
  }

  /** What holds of the SET at each of its program points. */
  ghost predicate WriterAt(h: Hash, slots: seq<Slot>, th: Thread, key: Bytes, value: Bytes) {
    match th.pc
    case Load(d) => Searching(h, slots, th, d)
    case LoadFp(d) => Searching(h, slots, th, d) && Inside(h, slots, key, d)
    case LoadExpiry(d) => Searching(h, slots, th, d) && Inside(h, slots, key, d)
    case LoadKeyLen(d) => Searching(h, slots, th, d) && Inside(h, slots, key, d)
    case CopyKey(d, len, got) => Searching(h, slots, th, d) && Inside(h, slots, key, d)
        && KeyCopied(SlotAt(h, slots, key, d), len, got)
    case ClaimKey(idx, i, _) => Owns(h, slots, key, idx) && i <= |key| <= MAX_KEY_LEN
        && slots[idx].keyBuf[..i] == key[..i]
    case ClaimVal(idx, i, _) =>
      Owns(h, slots, key, idx) && KeyWritten(slots[idx], key) && i <= |value| <= MAX_VAL_LEN
          && slots[idx].valBuf[..i] == value[..i]
    case ClaimFp(idx, _) => Owns(h, slots, key, idx) && KeyWritten(slots[idx], key) && ValWritten(slots[idx], value)
    case ClaimExpiry(idx, _) =>
      Owns(h, slots, key, idx) && KeyWritten(slots[idx], key) && ValWritten(slots[idx], value)
          && slots[idx].fingerprint == h(key)
    case Publish(idx, _) =>
      Owns(h, slots, key, idx) && KeyWritten(slots[idx], key) && ValWritten(slots[idx], value)
      && slots[idx].fingerprint == h(key) && slots[idx].expiresAt == 0
    case Count => Keeps(slots, key, value)
    case Done(r) => (r == Put(Full) && FullOfOthers(slots, key)) || (r == Put(Inserted) && Keeps(slots, key, value))
    case _ => false
  }

  /** A SET this setting allows: it fits, it has no TTL. */
  predicate PlainSet(job: Job) {
    job.JSet? && job.expiry == 0 && |job.key| <= MAX_KEY_LEN && |job.value| <= MAX_VAL_LEN
  }

  ghost predicate Writer(h: Hash, slots: seq<Slot>, th: Thread) {
    th.pc.Idle? || (PlainSet(th.job) && WriterAt(h, slots, th, th.job.key, th.job.value))
  }

  // ---- writer steps that only read ----

  lemma ViewsAt(slots: seq<Slot>, i: nat)
    requires i < |slots|
    ensures A.Views(slots)[i].Empty? <==> slots[i].state == EMPTY
    ensures A.Views(slots)[i].Occupied? <==> slots[i].state == OCCUPIED
    ensures slots[i].state == OCCUPIED ==> A.Views(slots)[i].key == ReadKey(slots[i])
  {
  }

  lemma PathGrows(h: Hash, slots: seq<Slot>, th: Thread, d: nat)
    requires Searching(h, slots, th, d) && d < |slots| && SlotAt(h, slots, th.job.key, d).state != EMPTY
    ensures Passed(A.Views(slots), th.job.key, Home(h, th.job.key, |slots|), d + 1)
  {
    var start := Home(h, th.job.key, |slots|);
    ViewsAt(slots, At(start, d, |slots|));
    PassedStep(A.Views(slots), th.job.key, start, d);
  }

  lemma TakenGrows(h: Hash, slots: seq<Slot>, key: Bytes, d: nat)
    requires d < |slots| && AllTaken(h, slots, key, d) && SlotAt(h, slots, key, d).state == OCCUPIED
    ensures AllTaken(h, slots, key, d + 1)
  {
    var n, start := |slots|, Home(h, key, |slots|);
    assert forall j | 0 <= j < n && Dist(start, j, n) == d :: j == At(start, d, n);
  }

  /** The writer may go on past an occupied slot ... */
  lemma SearchOn(h: Hash, slots: seq<Slot>, th: Thread, d: nat)
    requires Searching(h, slots, th, d) && d < |slots| && SlotAt(h, slots, th.job.key, d).state == OCCUPIED
    ensures Searching(h, slots, th.(pc := Load(d + 1)), d + 1)
  {
    PathGrows(h, slots, th, d);
    if th.grave.None? {
      TakenGrows(h, slots, th.job.key, d);
    }
  }

  /** ... and past a tombstone, remembering the first one. */
  lemma SearchRemembers(h: Hash, slots: seq<Slot>, th: Thread, d: nat)
    requires th.job.JSet? && Searching(h, slots, th, d) && d < |slots|
             && SlotAt(h, slots, th.job.key, d).state == TOMBSTONE
    ensures var idx := At(Home(h, th.job.key, |slots|), d, |slots|);
            Searching(h, slots, Goto(Remember(th, idx), Load(d + 1)), d + 1)
  {
    PathGrows(h, slots, th, d);
  }

  /** Where the search ends the writer owns its target: the remembered tombstone or the empty slot. */
  lemma SearchEnds(h: Hash, slots: seq<Slot>, th: Thread, d: nat, idx: nat)
    requires Searching(h, slots, th, d) && idx < |slots|
    requires th.grave == Some(idx)
             || (d < |slots| && idx == At(Home(h, th.job.key, |slots|), d, |slots|) && slots[idx].state == EMPTY)
    ensures Owns(h, slots, th.job.key, idx)
  {
  }

  /** A search that visited every slot and remembers no tombstone has seen a full table. */
  lemma SearchFails(h: Hash, slots: seq<Slot>, th: Thread)
    requires Searching(h, slots, th, |slots|) && th.grave.None?
    ensures FullOfOthers(slots, th.job.key)
  {
  }

  lemma SearchBounds(h: Hash, slots: seq<Slot>, th: Thread, d: nat)
    requires Searching(h, slots, th, d)
    ensures 0 < |slots| && d <= |slots| && (th.grave.Some? ==> th.grave.value < |slots|)
  {
  }

  lemma SearchAnyPc(h: Hash, slots: seq<Slot>, th: Thread, d: nat, pc: Pc)
    requires Searching(h, slots, th, d)
    ensures Searching(h, slots, Goto(th, pc), d)
  {
  }

  lemma WriterLoad(h: Hash, mem: Memory, th: Thread, d: nat)
    requires PlainSet(th.job) && th.pc == Load(d) && Searching(h, mem.slots, th, d)
    ensures Writer(h, mem.slots, StepLoad(h, mem, th, d))
  {
    hide Searching, Owns;
    var slots := mem.slots;
    SearchBounds(h, slots, th, d);
    if d < |slots| {
      var idx := At(Home(h, th.job.key, |slots|), d, |slots|);
      match slots[idx].state {
        case EMPTY => SearchEnds(h, slots, th, d, if th.grave.Some? then th.grave.value else idx);
        case TOMBSTONE => SearchRemembers(h, slots, th, d);
        case OCCUPIED => SearchAnyPc(h, slots, th, d, LoadFp(d));
      }
    } else if th.grave.Some? {
      SearchEnds(h, slots, th, d, th.grave.value);
    } else {
      SearchFails(h, slots, th);
    }
  }

  lemma CopyStart(s: Slot)
    ensures KeyCopied(s, Min(s.keyLen, MAX_KEY_LEN), [])
  {
  }

  lemma AbsentKey(h: Hash, slots: seq<Slot>, th: Thread, d: nat, i: nat)
    requires Searching(h, slots, th, d) && i < |slots| && slots[i].state == OCCUPIED
    ensures ReadKey(slots[i]) != th.job.key
  {
  }

  lemma WriterReads(h: Hash, mem: Memory, th: Thread, now: u64)
    requires Sound(h, mem.slots) && Writer(h, mem.slots, th)
    requires th.pc.LoadFp? || th.pc.LoadExpiry? || th.pc.LoadKeyLen? || th.pc.CopyKey?
    ensures Writer(h, mem.slots, StepRead(h, mem, th, now))
  {
    hide Sound, Searching, KeyCopied, ReadKey;
    var slots, key, d := mem.slots, th.job.key, th.pc.d;
    var idx := At(Home(h, key, |slots|), d, |slots|);
    FpOfKey(h, slots, idx);
    CopyStart(slots[idx]);
    SearchOn(h, slots, th, d);
    SearchAnyPc(h, slots, th, d, StepRead(h, mem, th, now).pc);
    if th.pc.CopyKey? {
      CopyStep(slots[idx], th.pc.len, th.pc.got);
      AbsentKey(h, slots, th, d, idx);
    }
  }

  // ---- writer steps that write ----

  /** Writing to a slot that is not occupied, without publishing it, is invisible to everyone. */
  lemma HiddenWrite(h: Hash, slots: seq<Slot>, idx: nat, slot: Slot)
    requires Sound(h, slots) && idx < |slots| && slots[idx].state != OCCUPIED && slot.state == slots[idx].state
    ensures A.Views(slots[idx := slot]) == A.Views(slots)
    ensures Sound(h, slots[idx := slot]) && Grows(slots, slots[idx := slot])
  {
  }

  lemma SameKeys(slots: seq<Slot>, idx: nat, slot: Slot, key: Bytes)
    requires idx < |slots| && slots[idx].state != OCCUPIED && slot.state == slots[idx].state
    requires !KeyStored(slots, key)
    ensures !KeyStored(slots[idx := slot], key)
  {
    var b := slots[idx := slot];
    forall i | 0 <= i < |b| && b[i].state == OCCUPIED ensures ReadKey(b[i]) != key {
      assert b[i] == slots[i];
    }
  }

  lemma StillOwns(h: Hash, slots: seq<Slot>, key: Bytes, idx: nat, slot: Slot)
    requires Sound(h, slots) && Owns(h, slots, key, idx) && slot.state == slots[idx].state
    ensures Owns(h, slots[idx := slot], key, idx)
  {
    HiddenWrite(h, slots, idx, slot);
    SameKeys(slots, idx, slot, key);
  }

  lemma KeyByte(s: Slot, key: Bytes, i: nat)
    requires i <= |key| <= MAX_KEY_LEN && s.keyBuf[..i] == key[..i]
    ensures var s' := WriteKeyByte(s, key, i);
            s'.state == s.state && if i < |key| then s'.keyBuf[..i + 1] == key[..i + 1] else KeyWritten(s', key)
  {
  }

  lemma ValByte(s: Slot, value: Bytes, i: nat)
    requires i <= |value| <= MAX_VAL_LEN && s.valBuf[..i] == value[..i]
    ensures var s' := WriteValByte(s, value, i);
            s'.state == s.state && (forall key :: KeyWritten(s, key) ==> KeyWritten(s', key))
            && if i < |value| then s'.valBuf[..i + 1] == value[..i + 1] else ValWritten(s', value)
  {
  }

  lemma OwnsIdx(h: Hash, slots: seq<Slot>, key: Bytes, idx: nat)
    requires Owns(h, slots, key, idx)
    ensures idx < |slots| && slots[idx].state != OCCUPIED
  {
  }

  lemma MetaKeeps(s: Slot, s': Slot, key: Bytes, value: Bytes)
    requires s' == s.(fingerprint := s'.fingerprint, expiresAt := s'.expiresAt)
    ensures KeyWritten(s, key) ==> KeyWritten(s', key)
    ensures ValWritten(s, value) ==> ValWritten(s', value)
  {
  }

  lemma EmptyPrefix(s: Slot, value: Bytes)
    ensures s.valBuf[..0] == value[..0]
  {
  }

  /** The claim's writes before publication: memory stays sound, the claim advances. */
  lemma WriterClaims(h: Hash, mem: Memory, th: Thread, now: u64)
    requires Sound(h, mem.slots) && Writer(h, mem.slots, th)
    requires th.pc.ClaimKey? || th.pc.ClaimVal? || th.pc.ClaimFp? || th.pc.ClaimExpiry?
    ensures var (mem', th') := StepThread(h, mem, th, now);
            Sound(h, mem'.slots) && Grows(mem.slots, mem'.slots) && Writer(h, mem'.slots, th')
  {
    hide Sound, Owns, KeyWritten, ValWritten, WriteKeyByte, WriteValByte, Grows, StepRead, Here;
    var slots, idx := mem.slots, th.pc.idx;
    OwnsIdx(h, slots, th.job.key, idx);
    var slot := Written(h, th, slots[idx]);
    if th.pc.ClaimKey? {
      KeyByte(slots[idx], th.job.key, th.pc.i);
    } else if th.pc.ClaimVal? {
      ValByte(slots[idx], th.job.value, th.pc.i);
    } else {
      MetaKeeps(slots[idx], slot, th.job.key, th.job.value);
    }
    HiddenWrite(h, slots, idx, slot);
    StillOwns(h, slots, th.job.key, idx, slot);
    EmptyPrefix(slots[idx], th.job.value);
  }

  /** The publishing store makes exactly the written entry visible and keeps the table sound. */
  lemma {:induction false} WriterPublishes(h: Hash, slots: seq<Slot>, key: Bytes, value: Bytes, idx: nat)
    requires Sound(h, slots) && Owns(h, slots, key, idx) && KeyWritten(slots[idx], key) && ValWritten(slots[idx], value)
    requires slots[idx].fingerprint == h(key) && slots[idx].expiresAt == 0
    ensures var after := slots[idx := slots[idx].(state := OCCUPIED)];
            Sound(h, after) && Grows(slots, after) && Keeps(after, key, value)
  {
    var after := slots[idx := slots[idx].(state := OCCUPIED)];
    var c := A.Views(slots);
    assert ReadKey(after[idx]) == key && ReadValue(after[idx]) == value;
    StoredIsKeyStored(slots, key);
    ViewsAt(slots, idx);
    assert A.Views(after) == c[idx := Occupied(h(key), key, value, 0)];
    ClaimKeepsInv(h, c, idx, key, value, 0);
  }

  lemma GrowsSame(slots: seq<Slot>)
    ensures Grows(slots, slots)
  {
  }

  lemma WriterQuiet(h: Hash, mem: Memory, th: Thread, now: u64)
    requires Writer(h, mem.slots, th)
             && !(th.pc.ClaimKey? || th.pc.ClaimVal? || th.pc.ClaimFp? || th.pc.ClaimExpiry? || th.pc.Publish?)
    ensures StepThread(h, mem, th, now).0.slots == mem.slots
    ensures !th.pc.Count? ==> StepThread(h, mem, th, now).1 == StepRead(h, mem, th, now)
    ensures th.pc.Count? ==> StepThread(h, mem, th, now).1 == Goto(th, Done(Put(Inserted)))
  {
    hide StepRead, Searching, Inside, KeyCopied, Keeps;
  }

  lemma WriterPublishStep(h: Hash, mem: Memory, th: Thread, now: u64)
    requires Sound(h, mem.slots) && Writer(h, mem.slots, th) && th.pc.Publish?
    ensures var (mem', th') := StepThread(h, mem, th, now);
            Sound(h, mem'.slots) && Grows(mem.slots, mem'.slots) && Writer(h, mem'.slots, th')
  {
    hide Sound, Owns, KeyWritten, ValWritten, Grows, StepRead, Here, Keeps;
    OwnsIdx(h, mem.slots, th.job.key, th.pc.idx);
    WriterPublishes(h, mem.slots, th.job.key, th.job.value, th.pc.idx);
  }

  /** Any step of the writer keeps the memory sound, only grows it, and stays on plan. */
  lemma WriterStep(h: Hash, mem: Memory, th: Thread, now: u64)
    requires Sound(h, mem.slots) && Writer(h, mem.slots, th)
    ensures var (mem', th') := StepThread(h, mem, th, now);
            Sound(h, mem'.slots) && Grows(mem.slots, mem'.slots) && Writer(h, mem'.slots, th')
  {
    hide Sound, Grows, StepThread, Searching, Owns, Keeps, Inside, KeyCopied, KeyWritten, ValWritten, StepRead,
        StepLoad;
    if th.pc.ClaimKey? || th.pc.ClaimVal? || th.pc.ClaimFp? || th.pc.ClaimExpiry? {
      WriterClaims(h, mem, th, now);
    } else if th.pc.Publish? {
      WriterPublishStep(h, mem, th, now);
    } else {
      WriterQuiet(h, mem, th, now);
      GrowsSame(mem.slots);
      ReadStays(h, mem, th, now);
      if th.pc.Load? {
        WriterLoad(h, mem, th, th.pc.d);
      } else if th.pc.LoadFp? || th.pc.LoadExpiry? || th.pc.LoadKeyLen? || th.pc.CopyKey? {
        WriterReads(h, mem, th, now);
      }
    }
  }

  // ---- the whole system ----

  /** Thread `w` is the writer, all others are readers, the table is sound. */
  ghost predicate Setting(h: Hash, s: Sys, w: nat) {
    && w < |s.threads| && Sound(h, s.mem.slots) && Writer(h, s.mem.slots, s.threads[w])
    && forall r | 0 <= r < |s.threads| && r != w :: Reader(h, s.mem.slots, s.threads[r])
  }

  /** The writer is only called with fitting SETs of absent keys without TTL, the others with GETs. */
  predicate Permitted(s: Sys, e: Event, w: nat) {
    e.Invoke? ==> if e.tid == w then PlainSet(e.job) && !KeyStored(s.mem.slots, e.job.key) else e.job.JGet?
  }

  ghost predicate RunPermitted(h: Hash, s: Sys, events: seq<Event>, w: nat)
    decreases events
  {
    events != [] ==> Permitted(s, events[0], w) && RunPermitted(h, Next(h, s, events[0]), events[1..], w)
  }

  lemma StartsSearching(h: Hash, slots: seq<Slot>, job: Job)
    requires Sound(h, slots) && PlainSet(job) && !KeyStored(slots, job.key)
    ensures Writer(h, slots, Thread(job, Load(0), None, false))
  {
  }

  lemma StartsReading(h: Hash, slots: seq<Slot>, job: Job)
    requires Sound(h, slots) && job.JGet?
    ensures Reader(h, slots, Thread(job, Load(0), None, KeyStored(slots, job.key)))
  {
  }

  lemma SettingInvoke(h: Hash, s: Sys, e: Event, w: nat)
    requires Setting(h, s, w) && Permitted(s, e, w) && e.Invoke?
    ensures Setting(h, Next(h, s, e), w) && Next(h, s, e).mem == s.mem
  {
    hide Sound, Writer, Reader, KeyStored;
    if e.tid < |s.threads| {
      if e.tid == w {
        StartsSearching(h, s.mem.slots, e.job);
      } else {
        StartsReading(h, s.mem.slots, e.job);
      }
    }
  }

  lemma SettingTick(h: Hash, s: Sys, e: Event, w: nat)
    requires Setting(h, s, w) && e.Tick?
    ensures Setting(h, Next(h, s, e), w) && Grows(s.mem.slots, Next(h, s, e).mem.slots)
  {
    hide Sound, Writer, Reader, KeyStored, Grows, StepThread;
    var slots := s.mem.slots;
    GrowsSame(slots);
    if e.tid < |s.threads| {
      var th := s.threads[e.tid];
      var (mem', th') := StepThread(h, s.mem, th, e.now);
      if e.tid == w {
        WriterStep(h, s.mem, th, e.now);
        forall r | 0 <= r < |s.threads| && r != w ensures Reader(h, mem'.slots, s.threads[r]) {
          ReaderFrame(h, slots, mem'.slots, s.threads[r]);
        }
      } else {
        ReaderStep(h, s.mem, th, e.now);
      }
    }
  }

  /** The setting, and every stored entry, survive any permitted interleaving. */
  lemma {:induction false} SettingHolds(h: Hash, s: Sys, events: seq<Event>, w: nat)
    requires Setting(h, s, w) && RunPermitted(h, s, events, w)
    ensures Setting(h, Exec(h, s, events), w)
    ensures forall k, v | Keeps(s.mem.slots, k, v) :: Keeps(Exec(h, s, events).mem.slots, k, v)
    decreases events
  {
    if events != [] {
      hide Setting, Next, Permitted, Grows, Keeps;
      var s' := Next(h, s, events[0]);
      if events[0].Invoke? {
        SettingInvoke(h, s, events[0], w);
      } else {
        SettingTick(h, s, events[0], w);
        forall k, v | Keeps(s.mem.slots, k, v) ensures Keeps(s'.mem.slots, k, v) {
          GrowthKeeps(s.mem.slots, s'.mem.slots, k, v);
        }
      }
      SettingHolds(h, s', events[1..], w);
    }
  }

  /**
   * Publication safety: at every point of every permitted interleaving, a finished GET answered
   * `NotFound`, and then only if its key was not stored when it was called, or `Found` with
   * exactly the bytes stored under its key, which no one else can have changed.
   */
  lemma {:induction false} EveryGetIsSafe(h: Hash, s: Sys, events: seq<Event>, w: nat, r: nat)
    requires Setting(h, s, w) && RunPermitted(h, s, events, w) && r < |s.threads| && r != w
    requires Exec(h, s, events).threads[r].pc.Done?
    ensures var after := Exec(h, s, events);
            var th := after.threads[r];
            && th.pc.result.Got?
            && (|| (th.pc.result.get.NotFound? && !th.present)
                || (th.pc.result.get.Found? && Keeps(after.mem.slots, th.job.key, th.pc.result.get.value)))
            && forall v | Keeps(after.mem.slots, th.job.key, v) && th.pc.result.get.Found? ::
                 v == th.pc.result.get.value
  {
    SettingHolds(h, s, events, w);
    var after := Exec(h, s, events);
    var th := after.threads[r];
    assert Reader(h, after.mem.slots, th);
    hide Exec, Keeps;
    if th.pc.result.get.Found? {
      forall v | Keeps(after.mem.slots, th.job.key, v) ensures v == th.pc.result.get.value {
        KeepsUnique(h, after.mem.slots, th.job.key, v, th.pc.result.get.value);
      }
    }
  }

  lemma StepKeepsJob(h: Hash, s: Sys, e: Event, r: nat)
    requires r < |s.threads| && (e.Invoke? ==> e.tid != r)
    ensures var th := Next(h, s, e).threads[r]; th.job == s.threads[r].job && th.present == s.threads[r].present
  {
    hide Written, Here, KeyStored, Clip;
  }

  /** A thread that is not called again keeps its job. */
  lemma {:induction false} JobKept(h: Hash, s: Sys, events: seq<Event>, r: nat)
    requires r < |s.threads| && forall i | 0 <= i < |events| :: events[i].Invoke? ==> events[i].tid != r
    ensures var th := Exec(h, s, events).threads[r]; th.job == s.threads[r].job && th.present == s.threads[r].present
    decreases events
  {
    if events != [] {
      StepKeepsJob(h, s, events[0], r);
      hide Next;
      JobKept(h, Next(h, s, events[0]), events[1..], r);
    }
  }

  lemma KeepsIsStored(slots: seq<Slot>, key: Bytes, value: Bytes)
    requires Keeps(slots, key, value)
    ensures KeyStored(slots, key)
  {
  }

  lemma PermittedGet(s: Sys, r: nat, key: Bytes, w: nat)
    requires r != w
    ensures Permitted(s, Invoke(r, JGet(key)), w)
  {
  }

  ghost predicate NotCalled(events: seq<Event>, r: nat) {
    forall i | 0 <= i < |events| :: events[i].Invoke? ==> events[i].tid != r
  }

  /** The state right after thread `r` is called with a GET of `key`. */
  function Called(h: Hash, s: Sys, r: nat, key: Bytes): (s': Sys)
    ensures |s'.threads| == |s.threads| && |s'.mem.slots| == |s.mem.slots|
  {
    Next(h, s, Invoke(r, JGet(key)))
  }

  /** A GET of a stored key answers with its value, whatever the other threads do meanwhile. */
  lemma {:induction false} GetOfStoredFinds(h: Hash, s: Sys, events: seq<Event>, w: nat, r: nat, key: Bytes,
                                            value: Bytes)
    requires Setting(h, s, w) && Keeps(s.mem.slots, key, value)
    requires r < |s.threads| && r != w && Free(s.threads[r])
    requires RunPermitted(h, Called(h, s, r, key), events, w) && NotCalled(events, r)
    requires Exec(h, Called(h, s, r, key), events).threads[r].pc.Done?
    ensures Exec(h, Called(h, s, r, key), events).threads[r].pc == Done(Got(Found(value)))
  {
    KeepsIsStored(s.mem.slots, key, value);
    var s1 := Called(h, s, r, key);
    assert s1.threads[r] == Thread(JGet(key), Load(0), None, true) && s1.mem == s.mem;
    assert forall i | 0 <= i < |events| :: events[i].Invoke? ==> events[i].tid != r;
    assert s1 == Next(h, s, Invoke(r, JGet(key)));
    hide *;
    PermittedGet(s, r, key, w);
    SettingInvoke(h, s, Invoke(r, JGet(key)), w);
    JobKept(h, s1, events, r);
    SettingHolds(h, s1, events, w);
    EveryGetIsSafe(h, s1, events, w, r);
  }

  /** When the writer has answered `Inserted` its entry is stored. */
  lemma InsertedIsKept(h: Hash, s: Sys, w: nat)
    requires Setting(h, s, w) && s.threads[w].pc == Done(Put(Inserted))
    ensures var job := s.threads[w].job;
            job.JSet? && Keeps(s.mem.slots, job.key, job.value)
  {
    hide Sound, Reader, Keeps;
  }

  /**
   * A GET called at any time after the SET of its key returned always answers with the value that
   * was set, whatever the writer (with later SETs) and the other readers do before and meanwhile.
   */
  lemma {:induction false} GetAfterSetFinds(h: Hash, s: Sys, before: seq<Event>, events: seq<Event>, w: nat, r: nat)
    requires Setting(h, s, w) && s.threads[w].pc == Done(Put(Inserted)) && s.threads[w].job.JSet?
    requires RunPermitted(h, s, before, w)
    requires r < |s.threads| && r != w && Free(Exec(h, s, before).threads[r])
    requires var s1 := Called(h, Exec(h, s, before), r, s.threads[w].job.key);
             RunPermitted(h, s1, events, w) && NotCalled(events, r) && Exec(h, s1, events).threads[r].pc.Done?
    ensures var job := s.threads[w].job;
            Exec(h, Called(h, Exec(h, s, before), r, job.key), events).threads[r].pc == Done(Got(Found(job.value)))
  {
    var job := s.threads[w].job;
    hide *;
    InsertedIsKept(h, s, w);
    SettingHolds(h, s, before, w);
    GetOfStoredFinds(h, Exec(h, s, before), events, w, r, job.key, job.value);
  }

  /** A finished SET stored its entry, or was refused because every slot is occupied by another key. */
  lemma {:induction false} EverySetIsStored(h: Hash, s: Sys, events: seq<Event>, w: nat)
    requires Setting(h, s, w) && RunPermitted(h, s, events, w) && Exec(h, s, events).threads[w].pc.Done?
    ensures var after := Exec(h, s, events);
            var th := after.threads[w];
            th.job.JSet?
            && ((th.pc == Done(Put(Full)) && FullOfOthers(after.mem.slots, th.job.key))
                || (th.pc == Done(Put(Inserted)) && Keeps(after.mem.slots, th.job.key, th.job.value)))
  {
    SettingHolds(h, s, events, w);
    hide Exec, Sound, Reader, Keeps, FullOfOthers;
  }

  /** A new arena with idle threads is such a system. */
  lemma {:induction false} NewArenaIsSetting(h: Hash, n: nat, threads: seq<Thread>, w: nat)
    requires n > 0 && w < |threads| && forall i | 0 <= i < |threads| :: threads[i].pc.Idle?
    ensures Setting(h, Sys(Memory(seq(n, _ => A.BLANK_SLOT), 0), threads), w)
  {
    assert A.Views(seq(n, _ => A.BLANK_SLOT)) == Fresh(n);
    Refinement.FreshIsEmptyMap(h, n);
  }
}

/** What DEL, EXISTS, MGET, MSET and SET with options mean for the stored map. */
module Commands {
  import opened Bytes
  import opened SlotLayout
  import opened Table
  import opened TableProofs
  import opened ClientModel
  import opened Refinement
  import opened Dispatch
  import opened Replies
  import C = ClientModel

  // ---- DEL ----

  /** The keys of the list that can be stored at all. */
  function Fitting(keys: seq<Bytes>): set<Bytes> { set k | k in keys && |k| <= MAX_KEY_LEN }

  lemma DelOne(h: Hash, s: Store, key: Bytes)
    requires Inv(h, s.cells)
    ensures var (r, s') := C.Del(h, s, key);
            var hit := |key| <= MAX_KEY_LEN && key in Contents(s.cells);
            && Inv(h, s'.cells) && (r == Ok(true) <==> hit)
            && Contents(s'.cells) == if hit then Contents(s.cells) - {key} else Contents(s.cells)
  {
    if |key| <= MAX_KEY_LEN {
      var c := s.cells;
      DelMeans(h, c, key);
      ContentsIsHolds(c);
      var (r, c') := Table.Del(h, c, key);
      if r.Deleted? {
        var i :| 0 <= i < |c| && c[i].Occupied? && c[i].key == key && c' == c[i := Tombstone];
        ContentsAfterBury(c, i);
        assert Stored(c, key);
      }
    }
  }

  lemma FittingStep(keys: seq<Bytes>)
    requires keys != []
    ensures Fitting(keys) == Fitting(keys[1..]) + (if |keys[0]| <= MAX_KEY_LEN then {keys[0]} else {})
  {
    forall k | k in Fitting(keys) ensures k == keys[0] || k in Fitting(keys[1..]) {
      if k != keys[0] { assert k in keys[1..]; }
    }
  }

  lemma DelHit(m: Dict, a: set<Bytes>, key: Bytes)
    requires key in m
    ensures |(a + {key}) * m.Keys| == |a * (m - {key}).Keys| + 1
    ensures m - (a + {key}) == (m - {key}) - a
  {
    assert (a + {key}) * m.Keys == a * (m - {key}).Keys + {key};
  }

  lemma DelMiss(m: Dict, a: set<Bytes>, key: Bytes)
    requires key !in m
    ensures (a + {key}) * m.Keys == a * m.Keys && m - (a + {key}) == m - a
  {
  }

  /** Deleting the first key and then the others deletes them all, each counted once. */
  lemma DelCounting(m: Dict, keys: seq<Bytes>)
    requires keys != []
    ensures var a := Fitting(keys[1..]);
            if |keys[0]| <= MAX_KEY_LEN && keys[0] in m
            then |Fitting(keys) * m.Keys| == |a * (m - {keys[0]}).Keys| + 1 && m - Fitting(keys) == (m - {keys[0]}) - a
            else |Fitting(keys) * m.Keys| == |a * m.Keys| && m - Fitting(keys) == m - a
  {
    FittingStep(keys);
    hide Fitting;
    var a := Fitting(keys[1..]);
    if |keys[0]| <= MAX_KEY_LEN {
      if keys[0] in m { DelHit(m, a, keys[0]); } else { DelMiss(m, a, keys[0]); }
    } else {
      assert a + {} == a;
    }
  }

  lemma DelNone(m: Dict)
    ensures Fitting([]) * m.Keys == {} && m - Fitting([]) == m
  {
  }

  lemma DelAllStep(h: Hash, s: Store, keys: seq<Bytes>)
    requires |s.cells| > 0
    ensures if keys == [] then DelAll(h, s, keys) == (0, s) else
            var (a, s1) := C.Del(h, s, keys[0]);
            var (n, s2) := DelAll(h, s1, keys[1..]);
            DelAll(h, s, keys) == (if a == Ok(true) then n + 1 else n, s2)
  {
    hide C.Del;
  }

  lemma NonEmptyInv(h: Hash, s: Store)
    requires Inv(h, s.cells)
    ensures |s.cells| > 0
  {
  }

  /**
   * DEL with any list of keys, for any hash: the reply is the number of distinct keys that were
   * stored (expired or not), and exactly those are gone.
   */
  lemma {:induction false} DelAllMeans(h: Hash, s: Store, keys: seq<Bytes>)
    requires Inv(h, s.cells)
    ensures var (n, s') := DelAll(h, s, keys);
            && Inv(h, s'.cells)
            && n == |Fitting(keys) * Contents(s.cells).Keys|
            && Contents(s'.cells) == Contents(s.cells) - Fitting(keys)
    decreases keys
  {
    hide *;
    var m := Contents(s.cells);
    NonEmptyInv(h, s);
    DelAllStep(h, s, keys);
    if keys == [] {
      DelNone(m);
    } else {
      DelCounting(m, keys);
      DelOne(h, s, keys[0]);
      DelAllMeans(h, C.Del(h, s, keys[0]).1, keys[1..]);
    }
  }

  // ---- EXISTS and MGET ----

  /** Some look-up of `key`, the i-th being at reading k + i, comes when the entry has expired. */
  predicate Caught(e: Entry, key: Bytes, keys: seq<Bytes>, clock: Clock, k: nat) {
    |key| <= MAX_KEY_LEN && exists i | 0 <= i < |keys| && keys[i] == key :: IsExpired(e.expiry, clock(k + i))
  }

  /** What looking the keys up leaves of the map. */
  function Seen(m: Dict, keys: seq<Bytes>, clock: Clock, k: nat): Dict {
    map x | x in m && !Caught(m[x], x, keys, clock, k) :: m[x]
  }

  /** What the i-th look-up finds: the value, unless it or an earlier look-up came too late. */
  function Look(m: Dict, keys: seq<Bytes>, i: nat, clock: Clock, k: nat): Option<Bytes>
    requires i < |keys|
  {
    var key := keys[i];
    if |key| <= MAX_KEY_LEN && key in m && !Caught(m[key], key, keys[..i + 1], clock, k) then Some(m[key].value)
    else None
  }

  function Answers(m: Dict, keys: seq<Bytes>, clock: Clock, k: nat): (a: seq<Option<Bytes>>)
    ensures |a| == |keys|
  {
    seq(|keys|, i requires 0 <= i < |keys| => Look(m, keys, i, clock, k))
  }

  function CountSome(a: seq<Option<Bytes>>): nat {
    if a == [] then 0 else CountSome(a[1..]) + (if a[0].Some? then 1 else 0)
  }

  /** Number of keys before the first one that is too long. */
  function Leading(keys: seq<Bytes>): (n: nat)
    ensures n <= |keys| && forall i :: 0 <= i < n ==> |keys[i]| <= MAX_KEY_LEN
    ensures n < |keys| ==> |keys[n]| > MAX_KEY_LEN
  {
    if keys == [] || |keys[0]| > MAX_KEY_LEN then 0 else Leading(keys[1..]) + 1
  }

  lemma CaughtFirst(e: Entry, key: Bytes, first: Bytes, more: seq<Bytes>, clock: Clock, k: nat)
    ensures Caught(e, key, [first] + more, clock, k) <==>
            (|key| <= MAX_KEY_LEN && key == first && IsExpired(e.expiry, clock(k)))
            || Caught(e, key, more, clock, k + 1)
  {
    var keys := [first] + more;
    if Caught(e, key, more, clock, k + 1) {
      var i :| 0 <= i < |more| && more[i] == key && IsExpired(e.expiry, clock(k + 1 + i));
      assert keys[i + 1] == key && IsExpired(e.expiry, clock(k + (i + 1)));
    }
    if |key| <= MAX_KEY_LEN && key == first && IsExpired(e.expiry, clock(k)) {
      assert keys[0] == key && IsExpired(e.expiry, clock(k + 0));
    }
    if Caught(e, key, keys, clock, k) {
      var i :| 0 <= i < |keys| && keys[i] == key && IsExpired(e.expiry, clock(k + i));
      if i > 0 {
        assert more[i - 1] == key && IsExpired(e.expiry, clock(k + 1 + (i - 1)));
      }
    }
  }

  /** The first look-up, then the others on what it leaves. */
  lemma SeenFirst(m: Dict, first: Bytes, more: seq<Bytes>, clock: Clock, k: nat)
    ensures Seen(m, [first] + more, clock, k) == Seen(MapGet(m, first, clock(k)).1, more, clock, k + 1)
  {
    hide Caught;
    forall x | x in m ensures Caught(m[x], x, [first] + more, clock, k) <==>
                              (|x| <= MAX_KEY_LEN && x == first && IsExpired(m[x].expiry, clock(k)))
                              || Caught(m[x], x, more, clock, k + 1)
    {
      CaughtFirst(m[x], x, first, more, clock, k);
    }
  }

  lemma SeenNone(m: Dict, clock: Clock, k: nat)
    ensures Seen(m, [], clock, k) == m && Answers(m, [], clock, k) == []
  {
  }

  lemma LookFirst(m: Dict, first: Bytes, more: seq<Bytes>, clock: Clock, k: nat)
    ensures var (r, _) := MapGet(m, first, clock(k));
            Look(m, [first] + more, 0, clock, k) == if r.Ok? then r.value else None
  {
    var keys := [first] + more;
    assert keys[..1] == [first] + [];
    if first in m {
      CaughtFirst(m[first], first, first, [], clock, k);
    }
  }

  lemma LookLater(m: Dict, first: Bytes, more: seq<Bytes>, i: nat, clock: Clock, k: nat)
    requires i < |more|
    ensures Look(m, [first] + more, i + 1, clock, k) == Look(MapGet(m, first, clock(k)).1, more, i, clock, k + 1)
  {
    hide Caught;
    var keys, key := [first] + more, more[i];
    assert keys[..i + 2] == [first] + more[..i + 1];
    if key in m {
      CaughtFirst(m[key], key, first, more[..i + 1], clock, k);
    }
  }

  lemma AnswersFirst(m: Dict, first: Bytes, more: seq<Bytes>, clock: Clock, k: nat)
    ensures var (r, m1) := MapGet(m, first, clock(k));
            Answers(m, [first] + more, clock, k)
            == [if r.Ok? then r.value else None] + Answers(m1, more, clock, k + 1)
  {
    hide Look, MapGet;
    LookFirst(m, first, more, clock, k);
    var all, rest := Answers(m, [first] + more, clock, k), Answers(MapGet(m, first, clock(k)).1, more, clock, k + 1);
    forall i | 0 <= i < |rest| ensures all[i + 1] == rest[i] {
      LookLater(m, first, more, i, clock, k);
    }
  }

  /** The live value of a key at one instant. */
  function LiveValue(m: Dict, key: Bytes, now: u64): Option<Bytes> {
    if |key| <= MAX_KEY_LEN && key in m && !IsExpired(m[key].expiry, now) then Some(m[key].value) else None
  }

  ghost predicate NonDecreasing(clock: Clock) { forall i: nat, j: nat | i <= j :: clock(i) <= clock(j) }

  /** If the clock does not go back, every look-up finds what is live at its own reading. */
  lemma {:induction false} AnswersInOrder(m: Dict, keys: seq<Bytes>, clock: Clock, k: nat, i: nat)
    requires i < |keys| && NonDecreasing(clock)
    ensures Answers(m, keys, clock, k)[i] == LiveValue(m, keys[i], clock(k + i))
  {
    var key, now := keys[i], clock(k + i);
    var upTo := keys[..i + 1];
    assert upTo[i] == key;
    if key in m {
      var e := m[key];
      if Caught(e, key, upTo, clock, k) {
        var j :| 0 <= j < |upTo| && upTo[j] == key && IsExpired(e.expiry, clock(k + j));
        assert clock(k + j) <= now;
      }
    }
  }

  lemma CountSomeFirst(a: Option<Bytes>, more: seq<Option<Bytes>>)
    ensures CountSome([a] + more) == CountSome(more) + (if a.Some? then 1 else 0)
  {
    assert ([a] + more)[1..] == more;
  }

  lemma ExistsAllStep(h: Hash, s: Store, keys: seq<Bytes>, clock: Clock, k: nat)
    requires |s.cells| > 0
    ensures if keys == [] then ExistsAll(h, s, keys, clock, k) == (0, s) else
            var (r, s1) := C.Get(h, s, keys[0], clock(k));
            var (n, s2) := ExistsAll(h, s1, keys[1..], clock, k + 1);
            ExistsAll(h, s, keys, clock, k) == (if r.Ok? && r.value.Some? then n + 1 else n, s2)
  {
    hide C.Get;
  }

  lemma NoneCounted()
    ensures CountSome([]) == 0
  {
  }

  /**
   * EXISTS counts the keys of its argument list that its look-ups find, repeated keys every time,
   * and removes the expired entries it meets.
   */
  lemma {:induction false} ExistsAllMeans(h: Hash, s: Store, ks: set<Bytes>, keys: seq<Bytes>, clock: Clock, k: nat)
    requires Good(h, s, ks) && |s.cells| > 0 && UsesAll(keys, ks)
    ensures var (n, s') := ExistsAll(h, s, keys, clock, k);
            && n == CountSome(Answers(Contents(s.cells), keys, clock, k))
            && Good(h, s', ks) && |s'.cells| == |s.cells|
            && Contents(s'.cells) == Seen(Contents(s.cells), keys, clock, k)
    decreases keys
  {
    hide C.Get, ExistsAll, Contents, Good, MapGet, Answers, Seen, CountSome;
    ExistsAllStep(h, s, keys, clock, k);
    var m := Contents(s.cells);
    if keys == [] {
      SeenNone(m, clock, k);
      NoneCounted();
    } else {
      var first, more := keys[0], keys[1..];
      assert keys == [first] + more;
      GetRefines(h, s, ks, first, clock(k));
      var (r, s1) := C.Get(h, s, first, clock(k));
      ExistsAllMeans(h, s1, ks, more, clock, k + 1);
      SeenFirst(m, first, more, clock, k);
      AnswersFirst(m, first, more, clock, k);
      CountSomeFirst(if r.Ok? then r.value else None, Answers(Contents(s1.cells), more, clock, k + 1));
    }
  }

  lemma MgetStep(h: Hash, s: Store, keys: seq<Bytes>, clock: Clock, k: nat)
    requires |s.cells| > 0
    ensures if keys == [] then C.Mget(h, s, keys, clock, k) == (Ok([]), s) else
            var (a, s1) := C.Get(h, s, keys[0], clock(k));
            var (rest, s2) := C.Mget(h, s1, keys[1..], clock, k + 1);
            C.Mget(h, s, keys, clock, k) ==
            if a.Err? then (Err(a.error), s1)
            else (if rest.Err? then Err(rest.error) else Ok([a.value] + rest.value), s2)
  {
    hide C.Get;
  }

  lemma LeadingStep(keys: seq<Bytes>)
    ensures Leading(keys) == if keys == [] || |keys[0]| > MAX_KEY_LEN then 0 else Leading(keys[1..]) + 1
  {
  }

  lemma TooLongGet(m: Dict, key: Bytes, now: u64)
    ensures if |key| > MAX_KEY_LEN then MapGet(m, key, now) == (Err(KeyTooLong(|key|)), m)
            else MapGet(m, key, now).0.Ok?
  {
  }

  /**
   * MGET fails exactly when some key is too long, with the first such key, after the look-ups
   * before it; otherwise it returns in order what its look-ups find. Expired entries it meets go.
   */
  lemma {:induction false} MgetMeans(h: Hash, s: Store, ks: set<Bytes>, keys: seq<Bytes>, clock: Clock, k: nat)
    requires Good(h, s, ks) && |s.cells| > 0 && UsesAll(keys, ks)
    ensures var (r, s') := C.Mget(h, s, keys, clock, k);
            var n := Leading(keys);
            && r == (if n == |keys| then Ok(Answers(Contents(s.cells), keys, clock, k)) else Err(KeyTooLong(|keys[n]|)))
            && Good(h, s', ks) && |s'.cells| == |s.cells|
            && Contents(s'.cells) == Seen(Contents(s.cells), keys[..n], clock, k)
    decreases keys
  {
    hide C.Get, C.Mget, Contents, Good, MapGet, Answers, Seen, Leading;
    MgetStep(h, s, keys, clock, k);
    LeadingStep(keys);
    var m := Contents(s.cells);
    SeenNone(m, clock, k);
    if keys != [] {
      var first, more := keys[0], keys[1..];
      assert keys == [first] + more;
      GetRefines(h, s, ks, first, clock(k));
      TooLongGet(m, first, clock(k));
      if |first| > MAX_KEY_LEN {
        assert keys[..0] == [];
      } else {
        var s1 := C.Get(h, s, first, clock(k)).1;
        MgetMeans(h, s1, ks, more, clock, k + 1);
        var n := Leading(more);
        assert keys[..n + 1] == [first] + more[..n];
        SeenFirst(m, first, more[..n], clock, k);
        AnswersFirst(m, first, more, clock, k);
      }
    }
  }

  // ---- MSET ----

  /** The pairs written from left to right, the i-th at reading k + i. */
  function PutAll(m: Dict, pairs: seq<(Bytes, Bytes)>, ttl: u64, clock: Clock, k: nat): Dict
    decreases pairs
  {
    if pairs == [] then m
    else PutAll(m[pairs[0].0 := Entry(pairs[0].1, TtlToExpiry(ttl, clock(k)))], pairs[1..], ttl, clock, k + 1)
  }

  /** How many pairs fit, one after the other, into a map of capacity `n`. */
  function Written(n: nat, m: Dict, pairs: seq<(Bytes, Bytes)>, ttl: u64, clock: Clock, k: nat): (done: nat)
    ensures done <= |pairs|
    decreases pairs
  {
    if pairs == [] || MapSet(n, m, pairs[0].0, pairs[0].1, ttl, clock(k)).0.Err? then 0
    else Written(n, m[pairs[0].0 := Entry(pairs[0].1, TtlToExpiry(ttl, clock(k)))], pairs[1..], ttl, clock, k + 1) + 1
  }

  lemma MapSetCases(n: nat, m: Dict, key: Bytes, value: Bytes, ttl: u64, now: u64)
    ensures var (r, m') := MapSet(n, m, key, value, ttl, now);
            if r.Err? then m' == m else m' == m[key := Entry(value, TtlToExpiry(ttl, now))]
  {
  }

  lemma MsetStep(h: Hash, s: Store, pairs: seq<(Bytes, Bytes)>, ttl: u64, clock: Clock, k: nat)
    requires |s.cells| > 0
    ensures if pairs == [] then C.Mset(h, s, pairs, ttl, clock, k) == (Ok(0), s) else
            var (a, s1) := C.Set(h, s, pairs[0].0, pairs[0].1, ttl, clock(k));
            var (rest, s2) := C.Mset(h, s1, pairs[1..], ttl, clock, k + 1);
            C.Mset(h, s, pairs, ttl, clock, k) ==
            if a.Err? then (Err(a.error), s1) else (if rest.Err? then Err(rest.error) else Ok(rest.value + 1), s2)
  {
    hide C.Set;
  }

  lemma WrittenStep(n: nat, m: Dict, pairs: seq<(Bytes, Bytes)>, ttl: u64, clock: Clock, k: nat)
    ensures PutAll(m, [], ttl, clock, k) == m
    ensures if pairs == [] then Written(n, m, pairs, ttl, clock, k) == 0 else
            var (a, m1) := MapSet(n, m, pairs[0].0, pairs[0].1, ttl, clock(k));
            if a.Err? then Written(n, m, pairs, ttl, clock, k) == 0 && m1 == m
            else
              var done := Written(n, m1, pairs[1..], ttl, clock, k + 1);
              && Written(n, m, pairs, ttl, clock, k) == done + 1
              && PutAll(m, pairs[..done + 1], ttl, clock, k) == PutAll(m1, pairs[1..][..done], ttl, clock, k + 1)
  {
    if pairs != [] {
      MapSetCases(n, m, pairs[0].0, pairs[0].1, ttl, clock(k));
      var (a, m1) := MapSet(n, m, pairs[0].0, pairs[0].1, ttl, clock(k));
      hide MapSet;
      if a.Ok? {
        var done := Written(n, m1, pairs[1..], ttl, clock, k + 1);
        assert pairs[..done + 1][0] == pairs[0] && pairs[..done + 1][1..] == pairs[1..][..done];
      }
    }
  }

  /** Why MSET stops after `done` pairs. */
  function Refusal(n: nat, m: Dict, pairs: seq<(Bytes, Bytes)>, done: nat, ttl: u64, now: u64): Result<bool>
    requires done < |pairs|
  {
    MapSet(n, m, pairs[done].0, pairs[done].1, ttl, now).0
  }

  /**
   * MSET writes its pairs from left to right as long as the map takes them; when it stops early,
   * the pairs before stay written and the answer is the map's refusal of the next one.
   */
  lemma {:induction false} MsetMeans(h: Hash, s: Store, ks: set<Bytes>, pairs: seq<(Bytes, Bytes)>, ttl: u64,
                                     clock: Clock, k: nat)
    requires Good(h, s, ks) && |s.cells| > 0 && forall i | 0 <= i < |pairs| :: Uses(pairs[i].0, ks)
    ensures var (r, s') := C.Mset(h, s, pairs, ttl, clock, k);
            var n, m := |s.cells|, Contents(s.cells);
            var done := Written(n, m, pairs, ttl, clock, k);
            && Good(h, s', ks) && |s'.cells| == n
            && Contents(s'.cells) == PutAll(m, pairs[..done], ttl, clock, k)
            && if done == |pairs| then r == Ok(done)
               else r.Err? && Refusal(n, Contents(s'.cells), pairs, done, ttl, clock(k + done)) == Err(r.error)
    decreases pairs
  {
    hide C.Set, C.Mset, Contents, Good, MapSet, Written, PutAll;
    var n, m := |s.cells|, Contents(s.cells);
    MsetStep(h, s, pairs, ttl, clock, k);
    WrittenStep(n, m, pairs, ttl, clock, k);
    if pairs != [] {
      var (key, value) := pairs[0];
      SetRefines(h, s, ks, key, value, ttl, clock(k));
      var (a, s1) := C.Set(h, s, key, value, ttl, clock(k));
      if a.Ok? {
        MsetMeans(h, s1, ks, pairs[1..], ttl, clock, k + 1);
      } else {
        assert pairs[..0] == [];
      }
    } else {
      assert pairs[..0] == [];
    }
  }

  // ---- SET with a time to live, end to end ----

  /** A call that neither writes nor deletes `key`; looking it up is allowed. */
  ghost predicate LeavesAlone(call: Call, key: Bytes) {
    !call.op.OpFlush? && (call.op.key == key ==> call.op.OpGet? || call.op.OpExists?)
  }

  /** The entry is unchanged if present, and present as long as it has not expired by `t`. */
  ghost predicate Kept(m: Dict, key: Bytes, e: Entry, t: u64) {
    (key in m ==> m[key] == e) && (!IsExpired(e.expiry, t) ==> key in m)
  }

  lemma StepKeeps(n: nat, m: Dict, call: Call, key: Bytes, e: Entry, t: u64)
    requires Kept(m, key, e, t) && LeavesAlone(call, key) && call.now <= t
    ensures Kept(MapStep(n, m, call).1, key, e, t)
  {
  }

  lemma {:induction false} RunKeeps(n: nat, m: Dict, calls: seq<Call>, key: Bytes, e: Entry, t: u64)
    requires Kept(m, key, e, t)
    requires forall i | 0 <= i < |calls| :: LeavesAlone(calls[i], key) && calls[i].now <= t
    ensures Kept(MapRun(n, m, calls).1, key, e, t)
    decreases calls
  {
    if calls != [] {
      StepKeeps(n, m, calls[0], key, e, t);
      RunKeeps(n, MapStep(n, m, calls[0]).1, calls[1..], key, e, t);
    }
  }

  /**
   * After an accepted SET, any calls that leave the key alone and any clock readings up to `t`, a
   * GET at `t` finds the value exactly when the stored expiry lies after `t`.
   */
  lemma {:induction false} SetThenGet(h: Hash, s: Store, ks: set<Bytes>, args: seq<Bytes>, now: u64,
                                      calls: seq<Call>, t: u64)
    requires Good(h, s, ks) && |s.cells| > 0 && |args| >= 2 && args[0] in ks
    requires SetCommand(h, s, args, now).0 == OkReply
    requires RunUses(calls, ks)
    requires forall i | 0 <= i < |calls| :: LeavesAlone(calls[i], args[0]) && calls[i].now <= t
    ensures var s2 := Run(h, SetCommand(h, s, args, now).1, calls).1;
            var expiry := TtlToExpiry(EffectiveTtl(Settings(args, 2)), now);
            C.Get(h, s2, args[0], t).0 == Ok(if IsExpired(expiry, t) then None else Some(args[1]))
  {
    hide EffectiveTtl, Settings, TtlToExpiry, C.Set, C.Get, Good, Contents, MapStep, Step;
    var key, value := args[0], args[1];
    var ttl := EffectiveTtl(Settings(args, 2));
    var e := Entry(value, TtlToExpiry(ttl, now));
    SetRefines(h, s, ks, key, value, ttl, now);
    MapSetCases(|s.cells|, Contents(s.cells), key, value, ttl, now);
    var s1 := SetCommand(h, s, args, now).1;
    assert Kept(Contents(s1.cells), key, e, t);
    RunRefinesMap(h, s1, ks, calls);
    RunKeeps(|s1.cells|, Contents(s1.cells), calls, key, e, t);
    var s2 := Run(h, s1, calls).1;
    GetRefines(h, s2, ks, key, t);
  }

  lemma PxExpiry(p: u64, now: u64)
    requires p > 0 && p + 999 < TWO64 && now + 1000 * ((p + 999) / 1000) < TWO64
    ensures TtlToExpiry(Seconds(Px(p)), now) == now + 1000 * ((p + 999) / 1000)
    ensures p <= 1000 * ((p + 999) / 1000) < p + 1000
  {
  }

  /**
   * PX end to end: when nothing overflows, a SET whose last effective option is PX p makes the
   * key readable throughout [now, now + p) and absent from now + 1000 * ceil(p / 1000) on.
   */
  lemma {:induction false} PxEndToEnd(h: Hash, s: Store, ks: set<Bytes>, args: seq<Bytes>, p: u64, now: u64,
                                      calls: seq<Call>, t: u64)
    requires Good(h, s, ks) && |s.cells| > 0 && |args| >= 2 && args[0] in ks
    requires var options := Settings(args, 2); options != [] && options[|options| - 1] == Px(p)
    requires p > 0 && p + 999 < TWO64 && now + 1000 * ((p + 999) / 1000) < TWO64
    requires SetCommand(h, s, args, now).0 == OkReply
    requires RunUses(calls, ks)
    requires forall i | 0 <= i < |calls| :: LeavesAlone(calls[i], args[0]) && calls[i].now <= t
    ensures var s2 := Run(h, SetCommand(h, s, args, now).1, calls).1;
            var r := C.Get(h, s2, args[0], t).0;
            && (t < now + p ==> r == Ok(Some(args[1])))
            && (t >= now + 1000 * ((p + 999) / 1000) ==> r == Ok(None))
  {
    hide TtlToExpiry, Seconds, C.Get, SetCommand, Run;
    SetThenGet(h, s, ks, args, now, calls, t);
    PxExpiry(p, now);
  }
}

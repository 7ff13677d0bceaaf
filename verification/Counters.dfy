/** INCR and DECR as arithmetic, resting on the refinement of GET and SET and on decimal text. */
module Counters {
  import opened Bytes
  import opened Decimal
  import opened SlotLayout
  import opened Table
  import opened ClientModel
  import opened Refinement
  import opened Replies
  import opened Dispatch
  import C = ClientModel
  import Utf8

  /** The key stores exactly the canonical decimal text of `n`, without expiry. */
  ghost predicate Counts(s: Store, key: Bytes, n: nat) {
    key in Contents(s.cells) && Contents(s.cells)[key] == Entry(PrintNat(n), 0)
  }

  lemma NumberOfText(n: u64)
    ensures Number(Some(PrintNat(n))) == n && |PrintNat(n)| <= MAX_VAL_LEN
  {
    var s := PrintNat(n);
    assert forall i | 0 <= i < |s| :: IsDigit(s[i]);
    Utf8.AsciiIsValid(s);
    ParsePrintU64(n);
    PrintFits(n);
  }

  /** One INCR or DECR on a counter, or on an absent key when there is room for it. */
  lemma {:induction false} BumpCounts(h: Hash, s: Store, ks: set<Bytes>, key: Bytes, n: u64, next: u64 -> u64,
                                      nowGet: u64, nowSet: u64)
    requires Good(h, s, ks) && key in ks && |key| <= MAX_KEY_LEN
    requires Counts(s, key, n) || (n == 0 && key !in Contents(s.cells) && |Contents(s.cells)| < |s.cells|)
    ensures var (r, s') := Bump(h, s, key, next, nowGet, nowSet);
            && r == Ok(next(n)) && Counts(s', key, next(n)) && Good(h, s', ks) && |s'.cells| == |s.cells|
            && Contents(s'.cells) == Contents(s.cells)[key := Entry(PrintNat(next(n)), 0)]
  {
    NumberOfText(n);
    NumberOfText(next(n));
    GetRefines(h, s, ks, key, nowGet);
    var s1 := C.Get(h, s, key, nowGet).1;
    SetRefines(h, s1, ks, key, PrintNat(next(n)), 0, nowSet);
  }

  /** Repeated bumps at any clock readings: all the answers, and the final store. */
  function Bumps(h: Hash, s: Store, key: Bytes, next: u64 -> u64,
                 clock: seq<(u64, u64)>): (r: (seq<Result<u64>>, Store))
    requires |s.cells| > 0
    ensures |r.1.cells| == |s.cells|
    decreases clock
  {
    if clock == [] then ([], s) else
    var (a, s1) := Bump(h, s, key, next, clock[0].0, clock[0].1);
    var (rest, s2) := Bumps(h, s1, key, next, clock[1..]);
    ([a] + rest, s2)
  }

  lemma BumpsStep(h: Hash, s: Store, key: Bytes, next: u64 -> u64, clock: seq<(u64, u64)>)
    requires |s.cells| > 0
    ensures Bumps(h, s, key, next, []) == ([], s)
    ensures clock != [] ==>
              var (a, s1) := Bump(h, s, key, next, clock[0].0, clock[0].1);
              var (rest, s2) := Bumps(h, s1, key, next, clock[1..]);
              Bumps(h, s, key, next, clock) == ([a] + rest, s2)
  {
    hide Bump;
  }

  lemma GoodIsNonEmpty(h: Hash, s: Store, ks: set<Bytes>)
    requires Good(h, s, ks)
    ensures |s.cells| > 0
  {
  }

  lemma NextValues(n: u64)
    ensures n + 1 < TWO64 ==> Increment(n) == n + 1
    ensures Decrement(n) == if n > 0 then n - 1 else 0
  {
  }

  lemma {:induction false} CountUp(h: Hash, s: Store, ks: set<Bytes>, key: Bytes, n: u64, clock: seq<(u64, u64)>)
    requires Good(h, s, ks) && key in ks && |key| <= MAX_KEY_LEN && n + |clock| < TWO64
    requires Counts(s, key, n) || (n == 0 && key !in Contents(s.cells) && |Contents(s.cells)| < |s.cells|)
    ensures var (answers, s') := Bumps(h, s, key, Increment, clock);
            && Good(h, s', ks) && |s'.cells| == |s.cells|
            && |answers| == |clock| && (forall i | 0 <= i < |clock| :: answers[i] == Ok(n + i + 1))
            && (clock != [] ==> Counts(s', key, n + |clock|))
    decreases clock
  {
    hide *;
    GoodIsNonEmpty(h, s, ks);
    BumpsStep(h, s, key, Increment, clock);
    if clock != [] {
      NextValues(n);
      BumpCounts(h, s, ks, key, n, Increment, clock[0].0, clock[0].1);
      var s1 := Bump(h, s, key, Increment, clock[0].0, clock[0].1).1;
      CountUp(h, s1, ks, key, n + 1, clock[1..]);
      if clock[1..] == [] {
        BumpsStep(h, s1, key, Increment, clock[1..]);
      }
    }
  }

  /** Subtraction that stops at zero. */
  function Monus(n: nat, m: nat): nat { if n > m then n - m else 0 }

  lemma MonusStep(n: u64)
    ensures Monus(n, 0) == n
    ensures Decrement(n) == Monus(n, 1)
    ensures forall m: nat :: Monus(Decrement(n), m) == Monus(n, m + 1)
  {
  }

  lemma {:induction false} CountDown(h: Hash, s: Store, ks: set<Bytes>, key: Bytes, n: u64, clock: seq<(u64, u64)>)
    requires Good(h, s, ks) && key in ks && |key| <= MAX_KEY_LEN
    requires Counts(s, key, n) || (n == 0 && key !in Contents(s.cells) && |Contents(s.cells)| < |s.cells|)
    ensures var (answers, s') := Bumps(h, s, key, Decrement, clock);
            && |answers| == |clock|
            && (forall i | 0 <= i < |clock| :: answers[i] == Ok(Monus(n, i + 1)))
            && (clock != [] || Counts(s, key, n) ==> Counts(s', key, Monus(n, |clock|)))
    decreases clock
  {
    hide *;
    GoodIsNonEmpty(h, s, ks);
    BumpsStep(h, s, key, Decrement, clock);
    MonusStep(n);
    if clock != [] {
      BumpCounts(h, s, ks, key, n, Decrement, clock[0].0, clock[0].1);
      var s1 := Bump(h, s, key, Decrement, clock[0].0, clock[0].1).1;
      CountDown(h, s1, ks, key, Decrement(n), clock[1..]);
      assert forall i | 1 <= i < |clock| :: Monus(Decrement(n), i) == Monus(n, i + 1);
    }
  }

  /**
   * n INCRs on an absent key and then m DECRs, for any n and m: the INCRs answer 1 to n, the DECRs
   * answer n - 1, n - 2 and so on down to 0, and unless there was no call at all max(n - m, 0) is
   * stored as canonical decimal without expiry, whatever the clock does in between.
   */
  lemma {:induction false} UpThenDown(h: Hash, s: Store, ks: set<Bytes>, key: Bytes, ups: seq<(u64, u64)>,
                                      downs: seq<(u64, u64)>)
    returns (up: seq<Result<u64>>, s1: Store, down: seq<Result<u64>>, s2: Store)
    requires Good(h, s, ks) && key in ks && |key| <= MAX_KEY_LEN && |ups| < TWO64
    requires key !in Contents(s.cells) && |Contents(s.cells)| < |s.cells|
    ensures (up, s1) == Bumps(h, s, key, Increment, ups)
    ensures |s1.cells| > 0 && (down, s2) == Bumps(h, s1, key, Decrement, downs)
    ensures |up| == |ups| && forall i | 0 <= i < |ups| :: up[i] == Ok(i + 1)
    ensures |down| == |downs| && forall i | 0 <= i < |downs| :: down[i] == Ok(Monus(|ups|, i + 1))
    ensures if ups == [] && downs == [] then s2 == s else Counts(s2, key, Monus(|ups|, |downs|))
  {
    var none: u64, n: u64 := 0, |ups|;
    hide *;
    GoodIsNonEmpty(h, s, ks);
    CountUp(h, s, ks, key, none, ups);
    BumpsStep(h, s, key, Increment, ups);
    var (a, t) := Bumps(h, s, key, Increment, ups);
    CountDown(h, t, ks, key, n, downs);
    BumpsStep(h, t, key, Decrement, downs);
    MonusStep(n);
    var (b, u) := Bumps(h, t, key, Decrement, downs);
    assert forall i | 0 <= i < |ups| :: a[i] == Ok(none + i + 1);
    up, s1, down, s2 := a, t, b, u;
  }

  /** At the u64 limit INCR wraps to zero instead of failing. */
  lemma {:induction false} IncrWrapsAtLimit(h: Hash, s: Store, ks: set<Bytes>, key: Bytes, nowGet: u64, nowSet: u64)
    requires Good(h, s, ks) && key in ks && |key| <= MAX_KEY_LEN && Counts(s, key, TWO64 - 1)
    ensures var (r, s') := Incr(h, s, key, nowGet, nowSet); r == Ok(0) && Counts(s', key, 0)
  {
    BumpCounts(h, s, ks, key, TWO64 - 1, Increment, nowGet, nowSet);
  }

  function NextOf(verb: Verb): u64 -> u64 { if verb == INCR then Increment else Decrement }

  lemma BumpExecutes(h: Hash, s: Store, verb: Verb, name: Bytes, key: Bytes, clock: Clock)
    requires |s.cells| > 0 && (verb == INCR || verb == DECR)
    ensures var (a, s') := Bump(h, s, key, NextOf(verb), clock(0), clock(1));
            Execute(h, s, verb, name, [key], clock)
            == (if a.Err? then ErrReply(a.error) else IntReply(AsI64(a.value)), s')
  {
    hide Bump, AsI64;
  }

  lemma SignedView(n: u64)
    ensures (AsI64(n) - n) % TWO64 == 0
    ensures AsI64(n) == n <==> n < 0x8000_0000_0000_0000
    ensures AsI64(n) < 0 <==> n >= 0x8000_0000_0000_0000
  {
  }

  /**
   * INCR and DECR reply with the stored number if and only if it is below 2^63; from there on the
   * reply is the negative number with the same 64 bits.
   */
  lemma {:induction false} CounterReplyIff(h: Hash, s: Store, ks: set<Bytes>, key: Bytes, n: u64, verb: Verb,
                                           name: Bytes, clock: Clock)
    requires Good(h, s, ks) && key in ks && |key| <= MAX_KEY_LEN && (verb == INCR || verb == DECR)
    requires Counts(s, key, n) || (n == 0 && key !in Contents(s.cells) && |Contents(s.cells)| < |s.cells|)
    ensures var (r, s') := Execute(h, s, verb, name, [key], clock);
            var next := NextOf(verb)(n);
            && Counts(s', key, next) && r.IntReply? && (r.n - next) % TWO64 == 0
            && (r.n == next <==> next < 0x8000_0000_0000_0000) && (r.n < 0 <==> next >= 0x8000_0000_0000_0000)
  {
    hide *;
    GoodIsNonEmpty(h, s, ks);
    BumpExecutes(h, s, verb, name, key, clock);
    BumpCounts(h, s, ks, key, n, NextOf(verb), clock(0), clock(1));
    SignedView(NextOf(verb)(n));
  }
}

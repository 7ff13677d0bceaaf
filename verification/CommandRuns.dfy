/** Whole runs of commands: they answer as the plain map does, and keep the invariant for any hash. */
module CommandRuns {
  import opened Bytes
  import opened Decimal
  import opened SlotLayout
  import opened Table
  import opened TableProofs
  import opened Resp
  import opened ClientModel
  import opened Refinement
  import opened Accounting
  import opened Replies
  import opened Dispatch
  import opened Commands
  import C = ClientModel

  // ---- the commands on the plain map ----

  function MapBump(n: nat, m: Dict, key: Bytes, next: u64 -> u64, nowGet: u64, nowSet: u64): (Result<u64>, Dict) {
    var (current, m1) := MapGet(m, key, nowGet);
    if current.Err? then (Err(current.error), m1) else
    var v := next(Number(current.value));
    var (written, m2) := MapSet(n, m1, key, PrintNat(v), 0, nowSet);
    (if written.Err? then Err(written.error) else Ok(v), m2)
  }

  function MapSetCommand(n: nat, m: Dict, args: seq<Bytes>, now: u64): (Reply, Dict) {
    if |args| < 2 then (WrongArgs(SET), m) else
    var (a, m') := MapSet(n, m, args[0], args[1], EffectiveTtl(Settings(args, 2)), now);
    (if a.Err? then ErrReply(a.error) else OkReply, m')
  }

  /** MGET on the map: all look-ups, or those before the first key that is too long. */
  function MapMget(m: Dict, keys: seq<Bytes>, clock: Clock): (Reply, Dict) {
    var n := Leading(keys);
    (if n == |keys| then ValuesReply(Answers(m, keys, clock, 0)) else ErrReply(KeyTooLong(|keys[n]|)),
     Seen(m, keys[..n], clock, 0))
  }

  /** MSET on the map: the pairs it takes, and its refusal of the next one. */
  function MapMset(n: nat, m: Dict, pairs: seq<(Bytes, Bytes)>, clock: Clock): (Reply, Dict) {
    var done := Written(n, m, pairs, 0, clock, 0);
    var m' := PutAll(m, pairs[..done], 0, clock, 0);
    if done == |pairs| then (OkReply, m') else
    match Refusal(n, m', pairs, done, 0, clock(done))
    case Err(e) => (ErrReply(e), m')
    case Ok(_) => (OkReply, m')
  }

  /** One command on the map of capacity `n`; `used` is what INFO reports. */
  function MapExecute(n: nat, m: Dict, used: u64, verb: Verb, name: Bytes, args: seq<Bytes>,
                      clock: Clock): (Reply, Dict) {
    match verb
    case PING => (if args == [] then PongReply else BulkReply(args[0]), m)
    case GET =>
      if |args| != 1 then (WrongArgs(GET), m) else
      var (a, m') := MapGet(m, args[0], clock(0));
      (match a case Err(e) => ErrReply(e) case Ok(None) => NilReply case Ok(Some(v)) => BulkReply(v), m')
    case SET => MapSetCommand(n, m, args, clock(0))
    case DEL =>
      if args == [] then (WrongArgs(DEL), m) else (IntReply(|Fitting(args) * m.Keys|), m - Fitting(args))
    case EXISTS =>
      if args == [] then (WrongArgs(EXISTS), m)
      else (IntReply(CountSome(Answers(m, args, clock, 0))), Seen(m, args, clock, 0))
    case MGET => if args == [] then (WrongArgs(MGET), m) else MapMget(m, args, clock)
    case MSET => if args == [] || |args| % 2 != 0 then (WrongArgs(MSET), m) else MapMset(n, m, Pairs(args), clock)
    case INCR =>
      if |args| != 1 then (WrongArgs(INCR), m) else
      var (a, m') := MapBump(n, m, args[0], Increment, clock(0), clock(1));
      (if a.Err? then ErrReply(a.error) else IntReply(AsI64(a.value)), m')
    case DECR =>
      if |args| != 1 then (WrongArgs(DECR), m) else
      var (a, m') := MapBump(n, m, args[0], Decrement, clock(0), clock(1));
      (if a.Err? then ErrReply(a.error) else IntReply(AsI64(a.value)), m')
    case TTL => (if |args| != 1 then WrongArgs(TTL) else IntReply(-1), m)
    case FLUSH => (OkReply, map[])
    case INFO => (InfoReply(used, n), m)
    case COMMAND => (CommandsReply, m)
    case OTHER => (UnknownCommand(name), m)
  }

  function MapRespond(n: nat, m: Dict, used: u64, v: RespValue, clock: Clock): (Reply, Dict) {
    match ExtractCommand(v)
    case BadCommand(why) => (BadReply(why), m)
    case Command(name, args) => MapExecute(n, m, used, VerbOf(name), name, args, clock)
  }

  // ---- keys in use ----

  ghost predicate UsesPairs(pairs: seq<(Bytes, Bytes)>, ks: set<Bytes>) {
    forall i | 0 <= i < |pairs| :: Uses(pairs[i].0, ks)
  }

  /** The keys among a command's arguments are in use. */
  ghost predicate CommandUses(verb: Verb, args: seq<Bytes>, ks: set<Bytes>) {
    match verb
    case GET => args != [] ==> Uses(args[0], ks)
    case SET => args != [] ==> Uses(args[0], ks)
    case INCR => args != [] ==> Uses(args[0], ks)
    case DECR => args != [] ==> Uses(args[0], ks)
    case DEL => UsesAll(args, ks)
    case EXISTS => UsesAll(args, ks)
    case MGET => UsesAll(args, ks)
    case MSET => |args| % 2 == 0 ==> UsesPairs(Pairs(args), ks)
    case _ => true
  }

  ghost predicate ValueUses(v: RespValue, ks: set<Bytes>) {
    var e := ExtractCommand(v);
    e.Command? ==> CommandUses(VerbOf(e.name), e.args, ks)
  }

  // ---- refinement, command by command ----

  /** The store shows map `m` and is as well-formed as before. */
  ghost predicate Mirrors(h: Hash, s: Store, ks: set<Bytes>, n: nat, m: Dict) {
    Good(h, s, ks) && |s.cells| == n && Contents(s.cells) == m
  }

  lemma MirrorsIsGood(h: Hash, s: Store, ks: set<Bytes>, n: nat, m: Dict)
    requires Mirrors(h, s, ks, n, m)
    ensures |s.cells| == n > 0
  {
  }

  lemma GetMirrors(h: Hash, s: Store, ks: set<Bytes>, n: nat, m: Dict, key: Bytes, now: u64)
    requires Mirrors(h, s, ks, n, m) && Uses(key, ks)
    ensures n > 0
    ensures var (r, s') := C.Get(h, s, key, now);
            var (r', m') := MapGet(m, key, now);
            r == r' && Mirrors(h, s', ks, n, m')
  {
    GetRefines(h, s, ks, key, now);
  }

  lemma SetMirrors(h: Hash, s: Store, ks: set<Bytes>, n: nat, m: Dict, key: Bytes, value: Bytes, ttl: u64, now: u64)
    requires Mirrors(h, s, ks, n, m) && Uses(key, ks)
    ensures n > 0
    ensures var (r, s') := C.Set(h, s, key, value, ttl, now);
            var (r', m') := MapSet(n, m, key, value, ttl, now);
            r == r' && Mirrors(h, s', ks, n, m')
  {
    SetRefines(h, s, ks, key, value, ttl, now);
  }

  lemma DelAllMirrors(h: Hash, s: Store, ks: set<Bytes>, n: nat, m: Dict, keys: seq<Bytes>)
    requires Mirrors(h, s, ks, n, m)
    ensures |s.cells| > 0
    ensures var (r, s') := DelAll(h, s, keys);
            r == |Fitting(keys) * m.Keys| && Mirrors(h, s', ks, n, m - Fitting(keys))
  {
    hide Fitting, DelAll, Contents;
    DelAllMeans(h, s, keys);
  }

  lemma ExistsAllMirrors(h: Hash, s: Store, ks: set<Bytes>, n: nat, m: Dict, keys: seq<Bytes>, clock: Clock)
    requires Mirrors(h, s, ks, n, m) && UsesAll(keys, ks)
    ensures |s.cells| > 0
    ensures var (r, s') := ExistsAll(h, s, keys, clock, 0);
            r == CountSome(Answers(m, keys, clock, 0)) && Mirrors(h, s', ks, n, Seen(m, keys, clock, 0))
  {
    MirrorsIsGood(h, s, ks, n, m);
    hide ExistsAll, Contents, Good, Answers, Seen;
    ExistsAllMeans(h, s, ks, keys, clock, 0);
  }

  lemma MgetMirrors(h: Hash, s: Store, ks: set<Bytes>, n: nat, m: Dict, keys: seq<Bytes>, clock: Clock)
    requires Mirrors(h, s, ks, n, m) && UsesAll(keys, ks)
    ensures |s.cells| > 0
    ensures var (a, s') := C.Mget(h, s, keys, clock, 0);
            var (r, m') := MapMget(m, keys, clock);
            (if a.Err? then ErrReply(a.error) else ValuesReply(a.value)) == r && Mirrors(h, s', ks, n, m')
  {
    MirrorsIsGood(h, s, ks, n, m);
    hide C.Mget, Contents, Good, Answers, Seen, Leading;
    MgetMeans(h, s, ks, keys, clock, 0);
  }

  lemma MsetMirrors(h: Hash, s: Store, ks: set<Bytes>, n: nat, m: Dict, pairs: seq<(Bytes, Bytes)>, clock: Clock)
    requires Mirrors(h, s, ks, n, m) && UsesPairs(pairs, ks)
    ensures |s.cells| > 0
    ensures var (a, s') := C.Mset(h, s, pairs, 0, clock, 0);
            var (r, m') := MapMset(n, m, pairs, clock);
            (if a.Err? then ErrReply(a.error) else OkReply) == r && Mirrors(h, s', ks, n, m')
  {
    MirrorsIsGood(h, s, ks, n, m);
    hide C.Mset, Contents, Good, Written, PutAll, Refusal;
    MsetMeans(h, s, ks, pairs, 0, clock, 0);
  }

  lemma BumpMirrors(h: Hash, s: Store, ks: set<Bytes>, n: nat, m: Dict, key: Bytes, next: u64 -> u64, t: u64, t': u64)
    requires Mirrors(h, s, ks, n, m) && Uses(key, ks)
    ensures |s.cells| > 0
    ensures var (r, s') := Bump(h, s, key, next, t, t');
            var (r', m') := MapBump(n, m, key, next, t, t');
            r == r' && Mirrors(h, s', ks, n, m')
  {
    MirrorsIsGood(h, s, ks, n, m);
    hide C.Get, C.Set, MapGet, MapSet, Mirrors, Uses, Number, PrintNat;
    GetMirrors(h, s, ks, n, m, key, t);
    var (a, s1) := C.Get(h, s, key, t);
    if a.Ok? {
      var v := next(Number(a.value));
      SetMirrors(h, s1, ks, n, MapGet(m, key, t).1, key, PrintNat(v), 0, t');
    }
  }

  lemma FlushMirrors(h: Hash, s: Store, ks: set<Bytes>, n: nat, m: Dict)
    requires Mirrors(h, s, ks, n, m)
    ensures Mirrors(h, C.Flush(s), ks, n, map[])
  {
    FreshIsEmptyMap(h, n);
  }

  lemma {:induction false} ExecuteMirrors(h: Hash, s: Store, ks: set<Bytes>, n: nat, m: Dict,
                                          verb: Verb, name: Bytes, args: seq<Bytes>, clock: Clock)
    requires Mirrors(h, s, ks, n, m) && CommandUses(verb, args, ks)
    ensures |s.cells| > 0
    ensures var (r, s') := Execute(h, s, verb, name, args, clock);
            var (r', m') := MapExecute(n, m, s.used, verb, name, args, clock);
            r == r' && Mirrors(h, s', ks, n, m')
  {
    MirrorsIsGood(h, s, ks, n, m);
    hide C.Get, C.Set, MapGet, MapSet, Mirrors, C.Mget, C.Mset, Bump, MapBump, C.Flush, DelAll, ExistsAll, Fitting;
    hide Answers, Seen, CountSome, MapMget, MapMset, Pairs, Settings, EffectiveTtl, AsI64, UsesAll, Uses, UsesPairs;
    match verb
    case GET =>
      if |args| == 1 {
        GetMirrors(h, s, ks, n, m, args[0], clock(0));
      }
    case SET =>
      if |args| >= 2 {
        SetMirrors(h, s, ks, n, m, args[0], args[1], EffectiveTtl(Settings(args, 2)), clock(0));
      }
    case DEL => DelAllMirrors(h, s, ks, n, m, args);
    case EXISTS => ExistsAllMirrors(h, s, ks, n, m, args, clock);
    case MGET => MgetMirrors(h, s, ks, n, m, args, clock);
    case MSET =>
      if |args| % 2 == 0 {
        MsetMirrors(h, s, ks, n, m, Pairs(args), clock);
      }
    case INCR =>
      if |args| == 1 {
        BumpMirrors(h, s, ks, n, m, args[0], Increment, clock(0), clock(1));
      }
    case DECR =>
      if |args| == 1 {
        BumpMirrors(h, s, ks, n, m, args[0], Decrement, clock(0), clock(1));
      }
    case FLUSH => FlushMirrors(h, s, ks, n, m);
    case _ =>
  }

  /** One parsed value: the reply is that of the plain map, whose contents the store keeps showing. */
  lemma {:induction false} RespondMirrors(h: Hash, s: Store, ks: set<Bytes>, v: RespValue, clock: Clock)
    requires Good(h, s, ks) && ValueUses(v, ks)
    ensures var (r, s') := Respond(h, s, v, clock);
            var (r', m') := MapRespond(|s.cells|, Contents(s.cells), s.used, v, clock);
            r == r' && Good(h, s', ks) && |s'.cells| == |s.cells| && Contents(s'.cells) == m'
  {
    hide Execute, MapExecute, CommandUses, VerbOf;
    var e := ExtractCommand(v);
    if e.Command? {
      ExecuteMirrors(h, s, ks, |s.cells|, Contents(s.cells), VerbOf(e.name), e.name, e.args, clock);
    }
  }

  // ---- whole runs of commands ----

  /** A parsed value and the clock readings of its table operations. */
  datatype Request = Request(value: RespValue, clock: Clock)

  function RespondAll(h: Hash, s: Store, requests: seq<Request>): (r: (seq<Reply>, Store))
    requires |s.cells| > 0
    ensures |r.1.cells| == |s.cells| && |r.0| == |requests|
    decreases requests
  {
    if requests == [] then ([], s) else
    var (a, s1) := Respond(h, s, requests[0].value, requests[0].clock);
    var (rest, s2) := RespondAll(h, s1, requests[1..]);
    ([a] + rest, s2)
  }

  /** The same on the plain map; INFO reports 0. */
  function MapRespondAll(n: nat, m: Dict, requests: seq<Request>): (r: (seq<Reply>, Dict))
    ensures |r.0| == |requests|
    decreases requests
  {
    if requests == [] then ([], m) else
    var (a, m1) := MapRespond(n, m, 0, requests[0].value, requests[0].clock);
    var (rest, m2) := MapRespondAll(n, m1, requests[1..]);
    ([a] + rest, m2)
  }

  /** Equal replies, except that INFO may report another `used_count`. */
  predicate Agree(r: Reply, r': Reply) { r == r' || (r.InfoReply? && r'.InfoReply? && r.capacity == r'.capacity) }

  lemma UsedOnlyShows(n: nat, m: Dict, used: u64, v: RespValue, clock: Clock)
    ensures var (r, m1) := MapRespond(n, m, used, v, clock);
            var (r', m2) := MapRespond(n, m, 0, v, clock);
            Agree(r, r') && m1 == m2
  {
    hide VerbOf, Fitting, Answers, Seen, CountSome, MapMget, MapMset, MapBump, MapGet, MapSetCommand, Pairs, AsI64;
  }

  /**
   * Every sequence of parsed values at any clock readings is answered as the plain map answers it
   * (INFO's counter aside), provided distinct keys in use have distinct fingerprints.
   */
  lemma {:induction false} CommandsRefineMap(h: Hash, s: Store, ks: set<Bytes>, requests: seq<Request>)
    requires Good(h, s, ks) && forall i | 0 <= i < |requests| :: ValueUses(requests[i].value, ks)
    ensures var (replies, s') := RespondAll(h, s, requests);
            var (replies', m') := MapRespondAll(|s.cells|, Contents(s.cells), requests);
            && (forall i | 0 <= i < |requests| :: Agree(replies[i], replies'[i]))
            && Good(h, s', ks) && Contents(s'.cells) == m'
    decreases requests
  {
    if requests != [] {
      var q := requests[0];
      var m := Contents(s.cells);
      RespondMirrors(h, s, ks, q.value, q.clock);
      UsedOnlyShows(|s.cells|, m, s.used, q.value, q.clock);
      hide Good, Contents, Respond, MapRespond, Agree, ValueUses;
      CommandsRefineMap(h, Respond(h, s, q.value, q.clock).1, ks, requests[1..]);
    }
  }

  // ---- every command is a run of client calls ----

  lemma {:induction false} RunAppend(h: Hash, s: Store, a: seq<Call>, b: seq<Call>)
    requires |s.cells| > 0
    ensures Run(h, s, a + b).1 == Run(h, Run(h, s, a).1, b).1
    decreases a
  {
    hide Step;
    if a == [] {
      assert a + b == b;
    } else {
      assert (a + b)[1..] == a[1..] + b;
      RunAppend(h, Step(h, s, a[0]).1, a[1..], b);
    }
  }

  lemma OneCall(h: Hash, s: Store, call: Call)
    requires |s.cells| > 0
    ensures Run(h, s, [call]).1 == Step(h, s, call).1 && Run(h, s, []).1 == s
  {
    hide Step;
    assert [call][1..] == [];
    assert Run(h, Step(h, s, call).1, []).1 == Step(h, s, call).1;
  }

  /** First one call, then a run. */
  lemma CallThenRun(h: Hash, s: Store, call: Call, more: seq<Call>)
    requires |s.cells| > 0
    ensures Run(h, s, [call] + more).1 == Run(h, Step(h, s, call).1, more).1
  {
    OneCall(h, s, call);
    RunAppend(h, s, [call], more);
  }

  // The client calls behind each command; a batch stops after the call that fails.

  function DelCalls(keys: seq<Bytes>): seq<Call> {
    if keys == [] then [] else [Call(OpDel(keys[0]), 0)] + DelCalls(keys[1..])
  }

  function ExistsCalls(keys: seq<Bytes>, clock: Clock, k: nat): seq<Call> {
    if keys == [] then [] else [Call(OpExists(keys[0]), clock(k))] + ExistsCalls(keys[1..], clock, k + 1)
  }

  function MgetCalls(keys: seq<Bytes>, clock: Clock, k: nat): seq<Call> {
    if keys == [] then []
    else [Call(OpGet(keys[0]), clock(k))] + (if |keys[0]| > MAX_KEY_LEN then [] else MgetCalls(keys[1..], clock, k + 1))
  }

  function MsetCalls(h: Hash, s: Store, pairs: seq<(Bytes, Bytes)>, ttl: u64, clock: Clock, k: nat): seq<Call>
    requires |s.cells| > 0
    decreases pairs
  {
    if pairs == [] then [] else
    var (a, s1) := C.Set(h, s, pairs[0].0, pairs[0].1, ttl, clock(k));
    [Call(OpSet(pairs[0].0, pairs[0].1, ttl), clock(k))]
    + (if a.Err? then [] else MsetCalls(h, s1, pairs[1..], ttl, clock, k + 1))
  }

  function BumpCalls(h: Hash, s: Store, key: Bytes, next: u64 -> u64, t: u64, t': u64): seq<Call>
    requires |s.cells| > 0
  {
    var a := C.Get(h, s, key, t).0;
    [Call(OpGet(key), t)]
    + (if a.Err? then [] else [Call(OpSet(key, PrintNat(next(Number(a.value))), 0), t')])
  }

  function SetCalls(args: seq<Bytes>, now: u64): seq<Call> {
    if |args| < 2 then [] else [Call(OpSet(args[0], args[1], EffectiveTtl(Settings(args, 2))), now)]
  }

  function CallsOf(h: Hash, s: Store, verb: Verb, args: seq<Bytes>, clock: Clock): seq<Call>
    requires |s.cells| > 0
  {
    match verb
    case GET => if |args| == 1 then [Call(OpGet(args[0]), clock(0))] else []
    case SET => SetCalls(args, clock(0))
    case DEL => DelCalls(args)
    case EXISTS => ExistsCalls(args, clock, 0)
    case MGET => MgetCalls(args, clock, 0)
    case MSET => if |args| % 2 == 0 then MsetCalls(h, s, Pairs(args), 0, clock, 0) else []
    case INCR => if |args| == 1 then BumpCalls(h, s, args[0], Increment, clock(0), clock(1)) else []
    case DECR => if |args| == 1 then BumpCalls(h, s, args[0], Decrement, clock(0), clock(1)) else []
    case FLUSH => [Call(OpFlush, clock(0))]
    case _ => []
  }

  function RequestCalls(h: Hash, s: Store, q: Request): seq<Call>
    requires |s.cells| > 0
  {
    match ExtractCommand(q.value)
    case BadCommand(_) => []
    case Command(name, args) => CallsOf(h, s, VerbOf(name), args, q.clock)
  }

  /** The client calls a sequence of requests makes. */
  function AllCalls(h: Hash, s: Store, requests: seq<Request>): seq<Call>
    requires |s.cells| > 0
    decreases requests
  {
    if requests == [] then [] else
    RequestCalls(h, s, requests[0])
    + AllCalls(h, Respond(h, s, requests[0].value, requests[0].clock).1, requests[1..])
  }

  lemma {:induction false} DelAllIsRun(h: Hash, s: Store, keys: seq<Bytes>)
    requires |s.cells| > 0
    ensures DelAll(h, s, keys).1 == Run(h, s, DelCalls(keys)).1
    decreases keys
  {
    if keys != [] {
      var call := Call(OpDel(keys[0]), 0);
      var s1 := C.Del(h, s, keys[0]).1;
      assert Step(h, s, call).1 == s1;
      hide C.Del, Run, Step;
      DelAllIsRun(h, s1, keys[1..]);
      CallThenRun(h, s, call, DelCalls(keys[1..]));
    }
  }

  lemma {:induction false} ExistsAllIsRun(h: Hash, s: Store, keys: seq<Bytes>, clock: Clock, k: nat)
    requires |s.cells| > 0
    ensures ExistsAll(h, s, keys, clock, k).1 == Run(h, s, ExistsCalls(keys, clock, k)).1
    decreases keys
  {
    if keys != [] {
      var call := Call(OpExists(keys[0]), clock(k));
      var s1 := C.Exists(h, s, keys[0], clock(k)).1;
      assert Step(h, s, call).1 == s1;
      hide C.Exists, Run, Step;
      ExistsAllIsRun(h, s1, keys[1..], clock, k + 1);
      CallThenRun(h, s, call, ExistsCalls(keys[1..], clock, k + 1));
    }
  }

  lemma {:induction false} MgetIsRun(h: Hash, s: Store, keys: seq<Bytes>, clock: Clock, k: nat)
    requires |s.cells| > 0
    ensures C.Mget(h, s, keys, clock, k).1 == Run(h, s, MgetCalls(keys, clock, k)).1
    decreases keys
  {
    if keys != [] {
      var call := Call(OpGet(keys[0]), clock(k));
      var (a, s1) := C.Get(h, s, keys[0], clock(k));
      assert Step(h, s, call).1 == s1 && (a.Err? <==> |keys[0]| > MAX_KEY_LEN);
      OneCall(h, s, call);
      hide C.Get, Run, Step;
      if a.Ok? {
        MgetIsRun(h, s1, keys[1..], clock, k + 1);
        CallThenRun(h, s, call, MgetCalls(keys[1..], clock, k + 1));
      } else {
        assert [call] + [] == [call];
      }
    }
  }

  lemma {:induction false} MsetIsRun(h: Hash, s: Store, pairs: seq<(Bytes, Bytes)>, ttl: u64, clock: Clock, k: nat)
    requires |s.cells| > 0
    ensures C.Mset(h, s, pairs, ttl, clock, k).1 == Run(h, s, MsetCalls(h, s, pairs, ttl, clock, k)).1
    decreases pairs
  {
    if pairs != [] {
      var call := Call(OpSet(pairs[0].0, pairs[0].1, ttl), clock(k));
      var (a, s1) := C.Set(h, s, pairs[0].0, pairs[0].1, ttl, clock(k));
      assert Step(h, s, call).1 == s1;
      OneCall(h, s, call);
      hide C.Set, Run, Step;
      if a.Ok? {
        MsetIsRun(h, s1, pairs[1..], ttl, clock, k + 1);
        CallThenRun(h, s, call, MsetCalls(h, s1, pairs[1..], ttl, clock, k + 1));
      } else {
        assert [call] + [] == [call];
      }
    }
  }

  lemma BumpIsRun(h: Hash, s: Store, key: Bytes, next: u64 -> u64, t: u64, t': u64)
    requires |s.cells| > 0
    ensures Bump(h, s, key, next, t, t').1 == Run(h, s, BumpCalls(h, s, key, next, t, t')).1
  {
    var one := Call(OpGet(key), t);
    var (a, s1) := C.Get(h, s, key, t);
    assert Step(h, s, one).1 == s1;
    OneCall(h, s, one);
    if a.Ok? {
      var text := PrintNat(next(Number(a.value)));
      var two := Call(OpSet(key, text, 0), t');
      assert Step(h, s1, two).1 == C.Set(h, s1, key, text, 0, t').1;
      hide C.Get, C.Set, Run, Step, PrintNat, Number;
      OneCall(h, s1, two);
      CallThenRun(h, s, one, [two]);
    } else {
      assert [one] + [] == [one];
    }
  }

  lemma SetCommandIsRun(h: Hash, s: Store, args: seq<Bytes>, now: u64)
    requires |s.cells| > 0
    ensures SetCommand(h, s, args, now).1 == Run(h, s, SetCalls(args, now)).1
  {
    hide Settings, EffectiveTtl, C.Set;
    if |args| >= 2 {
      OneCall(h, s, Call(OpSet(args[0], args[1], EffectiveTtl(Settings(args, 2))), now));
    }
  }

  lemma BatchOfNone(h: Hash, s: Store, clock: Clock)
    requires |s.cells| > 0
    ensures DelAll(h, s, []).1 == s && ExistsAll(h, s, [], clock, 0).1 == s && C.Mget(h, s, [], clock, 0).1 == s
    ensures Pairs([]) == [] && C.Mset(h, s, [], 0, clock, 0).1 == s
  {
  }

  /** The command does to the store what its client calls do, one after the other. */
  lemma {:induction false} ExecuteIsRun(h: Hash, s: Store, verb: Verb, name: Bytes, args: seq<Bytes>, clock: Clock)
    requires |s.cells| > 0
    ensures Execute(h, s, verb, name, args, clock).1 == Run(h, s, CallsOf(h, s, verb, args, clock)).1
  {
    var get := Call(OpGet(if args == [] then [] else args[0]), clock(0));
    OneCall(h, s, get);
    OneCall(h, s, Call(OpFlush, clock(0)));
    hide C.Get, C.Mget, C.Mset, Bump, DelAll, ExistsAll, Pairs, Run, SetCommand;
    hide DelCalls, ExistsCalls, MgetCalls, MsetCalls, BumpCalls, SetCalls;
    match verb
    case SET => SetCommandIsRun(h, s, args, clock(0));
    case DEL => BatchOfNone(h, s, clock); DelAllIsRun(h, s, args);
    case EXISTS => BatchOfNone(h, s, clock); ExistsAllIsRun(h, s, args, clock, 0);
    case MGET => BatchOfNone(h, s, clock); MgetIsRun(h, s, args, clock, 0);
    case MSET =>
      BatchOfNone(h, s, clock);
      if |args| % 2 == 0 {
        MsetIsRun(h, s, Pairs(args), 0, clock, 0);
      }
    case INCR =>
      if |args| == 1 {
        BumpIsRun(h, s, args[0], Increment, clock(0), clock(1));
      }
    case DECR =>
      if |args| == 1 {
        BumpIsRun(h, s, args[0], Decrement, clock(0), clock(1));
      }
    case _ =>
  }

  /** Whatever the clients send, the store changes as under the client calls of their commands. */
  lemma {:induction false} CommandsAreRun(h: Hash, s: Store, requests: seq<Request>)
    requires |s.cells| > 0
    ensures RespondAll(h, s, requests).1 == Run(h, s, AllCalls(h, s, requests)).1
    decreases requests
  {
    if requests != [] {
      var q := requests[0];
      var e := ExtractCommand(q.value);
      if e.Command? {
        ExecuteIsRun(h, s, VerbOf(e.name), e.name, e.args, q.clock);
      }
      var s1 := Respond(h, s, q.value, q.clock).1;
      var first := RequestCalls(h, s, q);
      assert s1 == Run(h, s, first).1;
      hide Respond, Run, Execute, ExtractCommand, RequestCalls;
      CommandsAreRun(h, s1, requests[1..]);
      RunAppend(h, s, first, AllCalls(h, s1, requests[1..]));
    }
  }

  /**
   * For every hash function, every sequence of commands keeps the table invariant, and the counter
   * INFO reports is the number of stored entries plus the evictions minus the fallback inserts of
   * all its client calls, modulo 2^64.
   */
  lemma {:induction false} CommandsKeepInvAndBalance(h: Hash, s: Store, t: Tally, requests: seq<Request>)
    requires Inv(h, s.cells) && Balanced(s, t)
    ensures var s' := RespondAll(h, s, requests).1;
            Inv(h, s'.cells) && Balanced(s', RunTally(h, s, t, AllCalls(h, s, requests)))
  {
    CommandsAreRun(h, s, requests);
    hide RespondAll, Run, AllCalls;
    RunKeepsInvAndBalance(h, s, t, AllCalls(h, s, requests));
  }
}

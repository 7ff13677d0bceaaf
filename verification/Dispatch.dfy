/** The command dispatcher: from a parsed value to a command, its effect on the store and its reply. */
module Dispatch {
  import opened Bytes
  import opened Decimal
  import opened Table
  import opened Resp
  import opened Replies
  import opened ClientModel
  import C = ClientModel
  import Cl = Client
  import Utf8

  // ---- commands ----

  datatype Extracted = Command(name: Bytes, args: seq<Bytes>) | BadCommand(why: CommandError)

  predicate AllBulk(items: seq<RespValue>) { forall i | 0 <= i < |items| :: items[i].BulkString? }

  function Payloads(items: seq<RespValue>): (p: seq<Bytes>)
    requires AllBulk(items)
    ensures |p| == |items|
  {
    seq(|items|, i requires 0 <= i < |items| => items[i].data)
  }

  function ExtractCommand(v: RespValue): Extracted {
    if !v.Array? || v.items == [] then BadCommand(ExpectedArray)
    else if !v.items[0].BulkString? then BadCommand(NameNotBulk)
    else if !Utf8.Valid(v.items[0].data) then BadCommand(NonUtf8Name)
    else if !AllBulk(v.items[1..]) then BadCommand(ArgsNotBulk)
    else Command(Upper(v.items[0].data), Payloads(v.items[1..]))
  }

  const EX: Bytes := Text("EX")
  const PX: Bytes := Text("PX")

  // ---- SET options ----

  /** One effective option of SET. */
  datatype Setting = Ex(seconds: u64) | Px(millis: u64)

  /** A number in a command; malformed text counts as 0. */
  function Argument(text: Bytes): u64 {
    match ParseU64(text) case Some(n) => n case None => 0
  }

  /** Left to right: an option word takes the next argument, anything else is skipped. */
  function Settings(args: seq<Bytes>, i: nat): seq<Setting>
    requires i <= |args|
    decreases |args| - i
  {
    if i + 1 >= |args| then []
    else if Upper(args[i]) == EX then [Ex(Argument(args[i + 1]))] + Settings(args, i + 2)
    else if Upper(args[i]) == PX then [Px(Argument(args[i + 1]))] + Settings(args, i + 2)
    else Settings(args, i + 1)
  }

  /** TTL in whole seconds; milliseconds are rounded up, with a wrapping addition. */
  function Seconds(s: Setting): u64 {
    match s case Ex(n) => n case Px(ms) => Wrap(ms + 999) / 1000
  }

  function EffectiveTtl(settings: seq<Setting>): u64 {
    if settings == [] then 0 else Seconds(settings[|settings| - 1])
  }

  /** One turn of the option scan. */
  lemma SettingsStep(args: seq<Bytes>, i: nat, seen: seq<Setting>)
    requires i < |args|
    ensures var opt := Upper(args[i]);
            seen + Settings(args, i) ==
            if i + 1 < |args| && opt == EX then (seen + [Ex(Argument(args[i + 1]))]) + Settings(args, i + 2)
            else if i + 1 < |args| && opt == PX then (seen + [Px(Argument(args[i + 1]))]) + Settings(args, i + 2)
            else seen + Settings(args, i + 1)
  {
    hide Argument, Upper;
    if i + 1 < |args| {
      var rest := Settings(args, i + 2);
      assert forall x: Setting :: seen + ([x] + rest) == (seen + [x]) + rest;
    }
  }

  lemma SettingsEnd(args: seq<Bytes>, seen: seq<Setting>)
    ensures seen + Settings(args, |args|) == seen
  {
  }

  /** The scanning loop: the TTL it ends with is that of the last effective option. */
  method ScanOptions(args: seq<Bytes>) returns (ttl: u64)
    requires |args| >= 2
    ensures ttl == EffectiveTtl(Settings(args, 2))
  {
    hide Seconds, Argument, Upper, Settings, EX, PX;
    ttl := 0;
    var i := 2;
    ghost var seen: seq<Setting> := [];
    assert [] + Settings(args, 2) == Settings(args, 2);
    while i < |args|
      invariant 2 <= i <= |args|
      invariant seen + Settings(args, i) == Settings(args, 2)
      invariant ttl == EffectiveTtl(seen)
    {
      SettingsStep(args, i, seen);
      var opt := Upper(args[i]);
      if opt == EX && i + 1 < |args| {
        ttl := Seconds(Ex(Argument(args[i + 1])));
        seen := seen + [Ex(Argument(args[i + 1]))];
        i := i + 2;
      } else if opt == PX && i + 1 < |args| {
        ttl := Seconds(Px(Argument(args[i + 1])));
        seen := seen + [Px(Argument(args[i + 1]))];
        i := i + 2;
      } else {
        i := i + 1;
      }
    }
    SettingsEnd(args, seen);
  }

  // ---- what each command computes ----

  function DelAll(h: Hash, s: Store, keys: seq<Bytes>): (r: (nat, Store))
    requires |s.cells| > 0
    ensures |r.1.cells| == |s.cells|
    decreases keys
  {
    if keys == [] then (0, s) else
    var (a, s1) := C.Del(h, s, keys[0]);
    var (n, s2) := DelAll(h, s1, keys[1..]);
    (if a == Ok(true) then n + 1 else n, s2)
  }

  function ExistsAll(h: Hash, s: Store, keys: seq<Bytes>, clock: Clock, k: nat): (r: (nat, Store))
    requires |s.cells| > 0
    ensures |r.1.cells| == |s.cells|
    decreases keys
  {
    if keys == [] then (0, s) else
    var (a, s1) := C.Exists(h, s, keys[0], clock(k));
    var (n, s2) := ExistsAll(h, s1, keys[1..], clock, k + 1);
    (if a == Ok(true) then n + 1 else n, s2)
  }

  /** Two arguments at a time. */
  function Pairs(args: seq<Bytes>): seq<(Bytes, Bytes)>
    requires |args| % 2 == 0
  {
    if args == [] then [] else [(args[0], args[1])] + Pairs(args[2..])
  }

  /** `n as i64`. */
  function AsI64(n: u64): (r: int)
    ensures IsI64(r)
  {
    if n < 0x8000_0000_0000_0000 then n else n - TWO64
  }

  function SetCommand(h: Hash, s: Store, args: seq<Bytes>, now: u64): (r: (Reply, Store))
    requires |s.cells| > 0
    ensures |r.1.cells| == |s.cells|
  {
    if |args| < 2 then (WrongArgs(SET), s) else
    var (a, s') := C.Set(h, s, args[0], args[1], EffectiveTtl(Settings(args, 2)), now);
    (if a.Err? then ErrReply(a.error) else OkReply, s')
  }

  // ---- the dispatcher ----

  function VerbOf(name: Bytes): Verb {
    if name == VerbName(PING) then PING
    else if name == VerbName(GET) then GET
    else if name == VerbName(SET) then SET
    else if name == VerbName(DEL) then DEL
    else if name == VerbName(EXISTS) then EXISTS
    else if name == VerbName(MGET) then MGET
    else if name == VerbName(MSET) then MSET
    else if name == VerbName(INCR) then INCR
    else if name == VerbName(DECR) then DECR
    else if name == VerbName(TTL) then TTL
    else if name == VerbName(FLUSH) || name == Text("FLUSHALL") || name == Text("FLUSHDB") then FLUSH
    else if name == VerbName(INFO) then INFO
    else if name == VerbName(COMMAND) then COMMAND
    else OTHER
  }

  /** One command, its i-th table operation at reading i. */
  function Execute(h: Hash, s: Store, verb: Verb, name: Bytes, args: seq<Bytes>, clock: Clock): (r: (Reply, Store))
    requires |s.cells| > 0
    ensures |r.1.cells| == |s.cells|
  {
    match verb
    case PING => (if args == [] then PongReply else BulkReply(args[0]), s)
    case GET =>
      if |args| != 1 then (WrongArgs(GET), s) else
      var (a, s') := C.Get(h, s, args[0], clock(0));
      (match a case Err(e) => ErrReply(e) case Ok(None) => NilReply case Ok(Some(v)) => BulkReply(v), s')
    case SET => SetCommand(h, s, args, clock(0))
    case DEL => if args == [] then (WrongArgs(DEL), s) else var (n, s') := DelAll(h, s, args); (IntReply(n), s')
    case EXISTS => if args == [] then (WrongArgs(EXISTS), s)
        else var (n, s') := ExistsAll(h, s, args, clock, 0); (IntReply(n), s')
    case MGET =>
      if args == [] then (WrongArgs(MGET), s) else
      var (a, s') := C.Mget(h, s, args, clock, 0);
      (if a.Err? then ErrReply(a.error) else ValuesReply(a.value), s')
    case MSET =>
      if args == [] || |args| % 2 != 0 then (WrongArgs(MSET), s) else
      var (a, s') := C.Mset(h, s, Pairs(args), 0, clock, 0);
      (if a.Err? then ErrReply(a.error) else OkReply, s')
    case INCR =>
      if |args| != 1 then (WrongArgs(INCR), s) else
      var (a, s') := C.Incr(h, s, args[0], clock(0), clock(1));
      (if a.Err? then ErrReply(a.error) else IntReply(AsI64(a.value)), s')
    case DECR =>
      if |args| != 1 then (WrongArgs(DECR), s) else
      var (a, s') := C.Decr(h, s, args[0], clock(0), clock(1));
      (if a.Err? then ErrReply(a.error) else IntReply(AsI64(a.value)), s')
    case TTL => (if |args| != 1 then WrongArgs(TTL) else IntReply(-1), s)
    case FLUSH => (OkReply, C.Flush(s))
    case INFO => (InfoReply(s.used, |s.cells|), s)
    case COMMAND => (CommandsReply, s)
    case OTHER => (UnknownCommand(name), s)
  }

  function Respond(h: Hash, s: Store, v: RespValue, clock: Clock): (r: (Reply, Store))
    requires |s.cells| > 0
    ensures |r.1.cells| == |s.cells|
  {
    match ExtractCommand(v)
    case BadCommand(why) => (BadReply(why), s)
    case Command(name, args) => Execute(h, s, VerbOf(name), name, args, clock)
  }

  method DelKeys(client: Cl.Client, keys: seq<Bytes>) returns (deleted: nat)
    requires client.Valid()
    modifies client.arena, client.arena.slots
    ensures (deleted, client.Store()) == DelAll(client.arena.hash, old(client.Store()), keys)
  {
    hide C.Del;
    deleted := 0;
    var i := 0;
    ghost var all := DelAll(client.arena.hash, client.Store(), keys);
    while i < |keys|
      invariant 0 <= i <= |keys|
      invariant var rest := DelAll(client.arena.hash, client.Store(), keys[i..]);
                all == (deleted + rest.0, rest.1)
    {
      assert keys[i..][1..] == keys[i + 1..];
      var one := client.Del(keys[i]);
      if one == Ok(true) {
        deleted := deleted + 1;
      }
      i := i + 1;
    }
  }

  method CountExisting(client: Cl.Client, keys: seq<Bytes>, clock: Clock) returns (count: nat)
    requires client.Valid()
    modifies client.arena, client.arena.slots
    ensures (count, client.Store()) == ExistsAll(client.arena.hash, old(client.Store()), keys, clock, 0)
  {
    hide C.Exists;
    count := 0;
    var i := 0;
    ghost var all := ExistsAll(client.arena.hash, client.Store(), keys, clock, 0);
    while i < |keys|
      invariant 0 <= i <= |keys|
      invariant var rest := ExistsAll(client.arena.hash, client.Store(), keys[i..], clock, i);
                all == (count + rest.0, rest.1)
    {
      assert keys[i..][1..] == keys[i + 1..];
      var one := client.Exists(keys[i], clock(i));
      if one == Ok(true) {
        count := count + 1;
      }
      i := i + 1;
    }
  }

  method SetOne(client: Cl.Client, args: seq<Bytes>, now: u64) returns (r: Reply)
    requires client.Valid()
    modifies client.arena, client.arena.slots
    ensures (r, client.Store()) == SetCommand(client.arena.hash, old(client.Store()), args, now)
  {
    hide C.Set, EffectiveTtl, Settings;
    if |args| < 2 {
      return WrongArgs(SET);
    }
    var ttl := ScanOptions(args);
    var a := client.Set(args[0], args[1], ttl, now);
    r := if a.Err? then ErrReply(a.error) else OkReply;
  }

  method ExecuteCommand(client: Cl.Client, verb: Verb, name: Bytes, args: seq<Bytes>, clock: Clock) returns (r: Reply)
    requires client.Valid()
    modifies client.arena, client.arena.slots
    ensures (r, client.Store()) == Execute(client.arena.hash, old(client.Store()), verb, name, args, clock)
  {
    hide C.Get, C.Mget, C.Mset, C.Incr, C.Decr, C.Flush, DelAll, ExistsAll, Pairs, AsI64;
    match verb {
      case PING => r := if args == [] then PongReply else BulkReply(args[0]);
      case GET =>
        if |args| != 1 {
          return WrongArgs(GET);
        }
        var a := client.Get(args[0], clock(0));
        r := match a case Err(e) => ErrReply(e) case Ok(None) => NilReply case Ok(Some(v)) => BulkReply(v);
      case SET => r := SetOne(client, args, clock(0));
      case DEL =>
        if args == [] {
          return WrongArgs(DEL);
        }
        var n := DelKeys(client, args);
        r := IntReply(n);
      case EXISTS =>
        if args == [] {
          return WrongArgs(EXISTS);
        }
        var n := CountExisting(client, args, clock);
        r := IntReply(n);
      case MGET =>
        if args == [] {
          return WrongArgs(MGET);
        }
        var a := client.Mget(args, clock);
        r := if a.Err? then ErrReply(a.error) else ValuesReply(a.value);
      case MSET =>
        if args == [] || |args| % 2 != 0 {
          return WrongArgs(MSET);
        }
        var a := client.Mset(Pairs(args), 0, clock);
        r := if a.Err? then ErrReply(a.error) else OkReply;
      case INCR =>
        if |args| != 1 {
          return WrongArgs(INCR);
        }
        var a := client.Incr(args[0], clock(0), clock(1));
        r := if a.Err? then ErrReply(a.error) else IntReply(AsI64(a.value));
      case DECR =>
        if |args| != 1 {
          return WrongArgs(DECR);
        }
        var a := client.Decr(args[0], clock(0), clock(1));
        r := if a.Err? then ErrReply(a.error) else IntReply(AsI64(a.value));
      case TTL => r := if |args| != 1 then WrongArgs(TTL) else IntReply(-1);
      case FLUSH =>
        client.FlushAll();
        r := OkReply;
      case INFO => r := InfoReply(client.arena.usedCount, client.arena.slots.Length);
      case COMMAND => r := CommandsReply;
      case OTHER => r := UnknownCommand(name);
    }
  }

  /** One parsed value in, one protocol value out. */
  method DispatchCommand(client: Cl.Client, ratio: Ratio, v: RespValue, clock: Clock) returns (r: RespValue)
    requires client.Valid()
    modifies client.arena, client.arena.slots
    ensures var (reply, s') := Respond(client.arena.hash, old(client.Store()), v, clock);
            r == Render(ratio, reply) && client.Store() == s'
  {
    hide Execute, VerbOf, Render;
    match ExtractCommand(v) {
      case BadCommand(why) =>
        r := Render(ratio, BadReply(why));
      case Command(name, args) =>
        var reply := ExecuteCommand(client, VerbOf(name), name, args, clock);
        r := Render(ratio, reply);
    }
  }
}

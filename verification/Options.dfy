/** The options of SET as a client spells them, and the time to live they add up to. */
module Options {
  import opened Bytes
  import opened Decimal
  import opened Replies
  import opened Dispatch
  import opened Wire

  /** "EX" or "PX" and the text after it, or a word that is neither. */
  datatype Opt = WithEx(word: Bytes, amount: Bytes) | WithPx(word: Bytes, amount: Bytes) | Skipped(word: Bytes)

  predicate Spelled(o: Opt) {
    match o
    case WithEx(w, _) => IsWord(w, "EX")
    case WithPx(w, _) => IsWord(w, "PX")
    case Skipped(w) => !IsWord(w, "EX") && !IsWord(w, "PX")
  }

  predicate AllSpelled(opts: seq<Opt>) { forall i | 0 <= i < |opts| :: Spelled(opts[i]) }

  function Words(o: Opt): seq<Bytes> { if o.Skipped? then [o.word] else [o.word, o.amount] }

  function Flatten(opts: seq<Opt>): seq<Bytes> { if opts == [] then [] else Words(opts[0]) + Flatten(opts[1..]) }

  /** The u64 a text is a numeral for; 0 if it is none. */
  ghost function Amount(text: Bytes): u64 {
    if n: u64 :| NatText(text, n) then n else 0
  }

  /** Seconds, from the last option that is not skipped; milliseconds are rounded up. */
  ghost function TtlOf(opts: seq<Opt>): u64 {
    if opts == [] then 0 else
    match opts[|opts| - 1]
    case WithEx(_, t) => Amount(t)
    case WithPx(_, t) => (Amount(t) + 999) % 0x1_0000_0000_0000_0000 / 1000
    case Skipped(_) => TtlOf(opts[..|opts| - 1])
  }

  lemma ArgumentIsAmount(text: Bytes)
    ensures Argument(text) == Amount(text)
  {
    forall n: u64 ensures ParseU64(text) == Some(n) <==> NatText(text, n) {
      ParseU64Iff(text, n);
    }
    if n: u64 :| ParseU64(text) == Some(n) {
      assert NatText(text, n);
    }
  }

  lemma OptionWords(w: Bytes)
    ensures Upper(w) == EX <==> IsWord(w, "EX")
    ensures Upper(w) == PX <==> IsWord(w, "PX")
    ensures EX != PX
  {
    UpperIsWord(w, "EX");
    UpperIsWord(w, "PX");
    assert Text("EX")[0] == 69 && Text("PX")[0] == 80;
  }

  function SettingsOf(opts: seq<Opt>): seq<Setting> {
    if opts == [] then [] else
    (match opts[0]
     case WithEx(_, t) => [Ex(Argument(t))]
     case WithPx(_, t) => [Px(Argument(t))]
     case Skipped(_) => [])
    + SettingsOf(opts[1..])
  }

  lemma SettingsUnfold(args: seq<Bytes>, i: nat)
    requires i <= |args|
    ensures Settings(args, i) ==
            if i + 1 >= |args| then []
            else if Upper(args[i]) == EX then [Ex(Argument(args[i + 1]))] + Settings(args, i + 2)
            else if Upper(args[i]) == PX then [Px(Argument(args[i + 1]))] + Settings(args, i + 2)
            else Settings(args, i + 1)
  {
    hide Upper, EX, PX, Argument;
  }

  lemma FirstWords(pre: seq<Bytes>, opts: seq<Opt>, tail: seq<Bytes>)
    requires AllSpelled(opts) && opts != []
    ensures var o, args, i := opts[0], pre + Flatten(opts) + tail, |pre|;
            && (pre + Words(o)) + Flatten(opts[1..]) + tail == args && Spelled(o) && AllSpelled(opts[1..])
            && i + |Words(o)| <= |args| && args[i] == o.word && (!o.Skipped? ==> args[i + 1] == o.amount)
            && |args| == i + |Words(o)| + |Flatten(opts[1..])| + |tail|
  {
    hide Spelled;
  }

  lemma FirstSetting(opts: seq<Opt>)
    ensures SettingsOf(opts) == if opts == [] then [] else
              (match opts[0]
               case WithEx(_, t) => [Ex(Argument(t))]
               case WithPx(_, t) => [Px(Argument(t))]
               case Skipped(_) => []) + SettingsOf(opts[1..])
  {
    hide Argument;
  }

  lemma FlattenNone()
    ensures Flatten([]) == []
  {
  }

  lemma SpelledWords(o: Opt)
    requires Spelled(o)
    ensures (o.WithEx? <==> Upper(o.word) == EX) && (o.WithPx? <==> Upper(o.word) == PX)
    ensures |Words(o)| == if o.Skipped? then 1 else 2
  {
    OptionWords(o.word);
    hide IsWord, Upper, EX, PX;
  }

  /** The scan reads exactly the options that are spelled, wherever it starts. */
  lemma {:induction false} ScanReads(pre: seq<Bytes>, opts: seq<Opt>, tail: seq<Bytes>)
    requires AllSpelled(opts) && |tail| <= 1
    ensures Settings(pre + Flatten(opts) + tail, |pre|) == SettingsOf(opts)
    decreases opts
  {
    hide *;
    var args, i := pre + Flatten(opts) + tail, |pre|;
    SettingsUnfold(args, i);
    FirstSetting(opts);
    FlattenNone();
    if opts != [] {
      var o, more := opts[0], opts[1..];
      FirstWords(pre, opts, tail);
      SpelledWords(o);
      ScanReads(pre + Words(o), more, tail);
      if o.Skipped? && i + 1 >= |args| {
        SettingsUnfold(args, i + 1);
      }
    }
  }

  lemma {:induction false} SettingsOfSnoc(opts: seq<Opt>, o: Opt)
    ensures SettingsOf(opts + [o]) == SettingsOf(opts) + SettingsOf([o])
  {
    hide Argument;
    if opts == [] {
      assert opts + [o] == [o];
    } else {
      assert (opts + [o])[1..] == opts[1..] + [o];
      SettingsOfSnoc(opts[1..], o);
    }
  }

  lemma OneSetting(o: Opt)
    ensures SettingsOf([o]) == (match o
                                case WithEx(_, t) => [Ex(Argument(t))]
                                case WithPx(_, t) => [Px(Argument(t))]
                                case Skipped(_) => [])
    ensures o.WithEx? ==> Seconds(SettingsOf([o])[0]) == Amount(o.amount)
    ensures o.WithPx? ==> Seconds(SettingsOf([o])[0]) == (Amount(o.amount) + 999) % 0x1_0000_0000_0000_0000 / 1000
  {
    FirstSetting([o]);
    FirstSetting([]);
    assert [o][1..] == [];
    hide Argument, Amount, SettingsOf;
    if !o.Skipped? {
      ArgumentIsAmount(o.amount);
    }
  }

  lemma {:induction false} LastCounts(opts: seq<Opt>)
    ensures EffectiveTtl(SettingsOf(opts)) == TtlOf(opts)
  {
    if opts != [] {
      var front, o := opts[..|opts| - 1], opts[|opts| - 1];
      assert opts == front + [o];
      SettingsOfSnoc(front, o);
      LastCounts(front);
      OneSetting(o);
      hide Argument, Amount, Seconds;
    }
  }

  /** SET's time to live, from its arguments as sent: a last word alone, even EX or PX, is ignored. */
  lemma {:induction false} OptionsMean(key: Bytes, value: Bytes, opts: seq<Opt>, tail: seq<Bytes>)
    requires AllSpelled(opts) && |tail| <= 1
    ensures EffectiveTtl(Settings([key, value] + Flatten(opts) + tail, 2)) == TtlOf(opts)
  {
    ScanReads([key, value], opts, tail);
    LastCounts(opts);
  }

  /** Every argument list is options and at most one word left over. */
  lemma {:induction false} EveryListIsOptions(args: seq<Bytes>) returns (opts: seq<Opt>, tail: seq<Bytes>)
    ensures AllSpelled(opts) && |tail| <= 1 && args == Flatten(opts) + tail
    decreases args
  {
    if |args| <= 1 {
      return [], args;
    }
    var o := if IsWord(args[0], "EX") then WithEx(args[0], args[1])
             else if IsWord(args[0], "PX") then WithPx(args[0], args[1]) else Skipped(args[0]);
    var n := |Words(o)|;
    var more, rest := EveryListIsOptions(args[n..]);
    opts, tail := [o] + more, rest;
    assert args == Words(o) + args[n..];
    assert opts[1..] == more;
    assert Words(o) + (Flatten(more) + tail) == (Words(o) + Flatten(more)) + tail;
  }
}

/**
 The copying of string arguments into a slot's arena, the middle section of `Logger::enqueue`
 (Support/lib/Log.cpp:489-509).  A `String` argument arrives as a pointer into the caller's memory;
 it leaves as a pointer into the slot's 256 byte arena, clipped to what still fits, or as the empty
 literal when nothing fits.  Every other argument is carried by value and must not be touched.
 */
module LoggerArena {
  import opened Common

  /** `Logger::kStrBufPerSlot` */
  const STR_BUF_PER_SLOT: nat := 256

  /** Where a string argument's bytes live. */
  datatype StrView =
    | Caller(text: bytes)            // on the caller's stack
    | InArena(offset: nat, len: nat) // in the slot's arena
    | EmptyLiteral                   // {"", 0}

  datatype LogArg =
    | Plain(tag: nat, bits: nat)     // every tag but String, the inline SmallString included
    | String(view: StrView)

  /** A record as a caller hands it over: its strings are still in the caller's memory. */
  predicate FromCaller(args: seq<LogArg>) {
    forall i | 0 <= i < |args| :: args[i].String? ==> args[i].view.Caller?
  }

  /** The bytes a view denotes, given the arena it may point into. */
  function Read(view: StrView, arena: bytes): bytes {
    match view
    case Caller(text) => text
    case InArena(o, n) => if o + n <= |arena| then arena[o..o + n] else []
    case EmptyLiteral => []
  }

  /** The texts of the String arguments, in order. */
  function Texts(args: seq<LogArg>, arena: bytes): seq<bytes> {
    if args == [] then []
    else (if args[0].String? then [Read(args[0].view, arena)] else []) + Texts(args[1..], arena)
  }

  /** How many bytes of the text are taken when `used` bytes of the arena are occupied. */
  function Taken(text: bytes, used: nat): (n: nat)
    requires used <= STR_BUF_PER_SLOT
    ensures n <= |text| && used + n <= STR_BUF_PER_SLOT
  {
    Min(|text|, STR_BUF_PER_SLOT - used)
  }

  /** What one argument becomes. */
  function Rewritten(arg: LogArg, used: nat): LogArg
    requires used <= STR_BUF_PER_SLOT
    requires arg.String? ==> arg.view.Caller?
  {
    if !arg.String? then arg
    else
      var n := Taken(arg.view.text, used);
      String(if n > 0 then InArena(used, n) else EmptyLiteral)
  }

  function UsedAfter(arg: LogArg, used: nat): (u: nat)
    requires used <= STR_BUF_PER_SLOT
    requires arg.String? ==> arg.view.Caller?
    ensures used <= u <= STR_BUF_PER_SLOT
  {
    if !arg.String? then used else used + Taken(arg.view.text, used)
  }

  /** What the whole argument list becomes. */
  function Layout(args: seq<LogArg>, used: nat): (r: seq<LogArg>)
    requires used <= STR_BUF_PER_SLOT && FromCaller(args)
    ensures |r| == |args|
  {
    if args == [] then [] else [Rewritten(args[0], used)] + Layout(args[1..], UsedAfter(args[0], used))
  }

  /** The text that fits: what the caller passed, all of it, cut off where the arena ends. */
  function Fitting(args: seq<LogArg>, used: nat): (t: bytes)
    requires used <= STR_BUF_PER_SLOT
    ensures used + |t| <= STR_BUF_PER_SLOT
  {
    var all := Concat(Texts(args, []));
    all[..Min(|all|, STR_BUF_PER_SLOT - used)]
  }

  /** `std::memcpy(arena + at, text, n)` */
  method Memcpy(arena: array<byte>, at: nat, text: bytes, n: nat)
    requires at + n <= arena.Length && n <= |text|
    modifies arena
    ensures arena[..] == old(arena[..at]) + text[..n] + old(arena[at + n..])
  {
    forall k | 0 <= k < n {
      arena[at + k] := text[k];
    }
  }

  /** The bytes one argument puts into the arena. */
  function Part(arg: LogArg, used: nat): (t: bytes)
    requires used <= STR_BUF_PER_SLOT
    requires arg.String? ==> arg.view.Caller?
    ensures used + |t| == UsedAfter(arg, used)
  {
    if arg.String? then arg.view.text[..Taken(arg.view.text, used)] else []
  }

  /** One iteration of the loop. */
  method CopyArg(arg: LogArg, arena: array<byte>, used: nat) returns (now: LogArg, next: nat)
    requires arena.Length == STR_BUF_PER_SLOT && used <= STR_BUF_PER_SLOT
    requires arg.String? ==> arg.view.Caller?
    modifies arena
    ensures now == Rewritten(arg, used) && next == UsedAfter(arg, used)
    ensures arena[..] == old(arena[..used]) + Part(arg, used) + old(arena[next..])
  {
    now, next := arg, used;
    if arg.String? {
      var text := arg.view.text;
      var toCopy := Min(|text|, STR_BUF_PER_SLOT - used);
      if toCopy > 0 {
        Memcpy(arena, used, text, toCopy);
        now, next := String(InArena(used, toCopy)), used + toCopy;
      } else {
        now := String(EmptyLiteral);
      }
    }
  }

  /** The loop of `enqueue`, in place on the record's arguments and on the arena. */
  method CopyStringArgs(args: array<LogArg>, arena: array<byte>)
    requires arena.Length == STR_BUF_PER_SLOT
    requires FromCaller(args[..])
    modifies args, arena
    ensures FromCaller(old(args[..]))
    ensures args[..] == Layout(old(args[..]), 0)
    // the arena starts with exactly the text that fits and is untouched beyond it
    ensures var t := Fitting(old(args[..]), 0);
            arena[..] == t + old(arena[..])[|t|..]
    // and reading the rewritten arguments back yields that text
    ensures Concat(Texts(args[..], arena[..])) == Fitting(old(args[..]), 0)
  {
    ghost var before := args[..];
    ghost var was := arena[..];
    var used: nat := 0;
    var i := 0;
    while i < args.Length
      invariant 0 <= i <= args.Length && used <= STR_BUF_PER_SLOT
      invariant Progress(before, was, i, used, args[..], arena[..])
    {
      ghost var args0, arena0 := args[..], arena[..];
      ProgressStep(before, was, i, used, args0, arena0);
      args[i], used := CopyArg(args[i], arena, used);
      assert args[..] == args0[i := args[i]];
      i := i + 1;
    }
    StoredText(before, 0, arena[..]);
  }

  /**
   The loop invariant: what is done, followed by what the rest will become, is the final result,
   both for the arguments and for the arena.
   */
  ghost predicate Progress(before: seq<LogArg>, was: bytes, i: nat, used: nat, now: seq<LogArg>, arena: bytes) {
    && i <= |before| == |now| && used <= STR_BUF_PER_SLOT == |was| == |arena|
    && FromCaller(before)
    && now[i..] == before[i..]
    && Layout(before, 0) == now[..i] + Layout(before[i..], used)
    && Fitting(before, 0) == arena[..used] + Fitting(before[i..], used)
    && arena[used..] == was[used..]
  }

  lemma Regroup<T>(a: seq<T>, x: T, b: seq<T>)
    ensures a + ([x] + b) == (a + [x]) + b
  {
  }

  lemma LayoutFrom(before: seq<LogArg>, i: nat, used: nat)
    requires i < |before| && used <= STR_BUF_PER_SLOT && FromCaller(before)
    ensures Layout(before[i..], used)
         == [Rewritten(before[i], used)] + Layout(before[i + 1..], UsedAfter(before[i], used))
  {
    assert before[i..][0] == before[i] && before[i..][1..] == before[i + 1..];
  }

  lemma SuffixStep(before: seq<LogArg>, now: seq<LogArg>, i: nat, arg: LogArg)
    requires i < |before| == |now| && now[i..] == before[i..]
    ensures now[i] == before[i] && now[i := arg][i + 1..] == before[i + 1..] && now[i := arg][..i + 1] == now[..i] + [arg]
  {
    assert now[i] == now[i..][0] == before[i..][0];
    assert now[i..][1..] == before[i..][1..];
  }

  lemma ArgumentsStep(before: seq<LogArg>, i: nat, used: nat, now: seq<LogArg>)
    requires i < |before| == |now| && used <= STR_BUF_PER_SLOT && FromCaller(before) && now[i..] == before[i..]
    requires Layout(before, 0) == now[..i] + Layout(before[i..], used)
    ensures now[i] == before[i]
    ensures var next := now[i := Rewritten(now[i], used)];
            && next[i + 1..] == before[i + 1..]
            && Layout(before, 0) == next[..i + 1] + Layout(before[i + 1..], UsedAfter(now[i], used))
  {
    var arg := Rewritten(before[i], used);
    SuffixStep(before, now, i, arg);
    LayoutFrom(before, i, used);
    Regroup(now[..i], arg, Layout(before[i + 1..], UsedAfter(before[i], used)));
  }

  lemma TextStep(before: seq<LogArg>, was: bytes, i: nat, used: nat, arena: bytes)
    requires i < |before| && used <= STR_BUF_PER_SLOT == |was| == |arena| && FromCaller(before)
    requires Fitting(before, 0) == arena[..used] + Fitting(before[i..], used) && arena[used..] == was[used..]
    ensures var next := UsedAfter(before[i], used);
            var filled := arena[..used] + Part(before[i], used) + arena[next..];
            && |filled| == |arena|
            && Fitting(before, 0) == filled[..next] + Fitting(before[i + 1..], next) && filled[next..] == was[next..]
  {
    var arg, next := before[i], UsedAfter(before[i], used);
    assert before[i..][0] == arg && before[i..][1..] == before[i + 1..];
    FittingStep(before[i..], used);
    var head, part, rest := arena[..used], Part(arg, used), Fitting(before[i + 1..], next);
    assert head + (part + rest) == (head + part) + rest;
    var filled := head + part + arena[next..];
    assert filled[..next] == head + part;
    assert filled[next..] == arena[used..][next - used..] == was[used..][next - used..] == was[next..];
  }

  lemma ProgressStep(before: seq<LogArg>, was: bytes, i: nat, used: nat, now: seq<LogArg>, arena: bytes)
    requires i < |before| && Progress(before, was, i, used, now, arena)
    ensures now[i] == before[i]
    ensures Progress(before, was, i + 1, UsedAfter(now[i], used), now[i := Rewritten(now[i], used)],
                     arena[..used] + Part(now[i], used) + arena[UsedAfter(now[i], used)..])
  {
    ArgumentsStep(before, i, used, now);
    TextStep(before, was, i, used, arena);
  }

  /** The first argument contributes exactly the bytes the loop copies for it. */
  lemma FittingStep(args: seq<LogArg>, used: nat)
    requires used <= STR_BUF_PER_SLOT && FromCaller(args) && args != []
    ensures Fitting(args, used)
         == Part(args[0], used) + Fitting(args[1..], UsedAfter(args[0], used))
  {
    var rest := Texts(args[1..], []);
    if args[0].String? {
      assert ([args[0].view.text] + rest)[1..] == rest;
    } else {
      assert [] + rest == rest;
    }
  }

  lemma SplitRange(arena: bytes, at: nat, first: bytes, second: bytes)
    requires at + |first| + |second| <= |arena|
    requires arena[at..at + |first + second|] == first + second
    ensures arena[at..at + |first|] == first
    ensures arena[at + |first|..at + |first| + |second|] == second
  {
    var both := arena[at..at + |first + second|];
    assert both[..|first|] == first && both[|first|..] == second;
  }

  /** Reading the rewritten arguments from the arena gives back all the text that fits. */
  lemma {:induction false} StoredText(args: seq<LogArg>, used: nat, arena: bytes)
    requires used <= STR_BUF_PER_SLOT <= |arena| && FromCaller(args)
    requires arena[used..used + |Fitting(args, used)|] == Fitting(args, used)
    ensures Concat(Texts(Layout(args, used), arena)) == Fitting(args, used)
  {
    if args != [] {
      FittingStep(args, used);
      var after := Layout(args, used);
      var next := UsedAfter(args[0], used);
      var rest := Fitting(args[1..], next);
      SplitRange(arena, used, Part(args[0], used), rest);
      StoredText(args[1..], next, arena);
      assert after[1..] == Layout(args[1..], next);
      var texts := Texts(after[1..], arena);
      if args[0].String? {
        var first := Read(after[0].view, arena);
        assert ([first] + texts)[1..] == texts;
        assert first == Part(args[0], used);
      } else {
        assert [] + texts == texts;
      }
    }
  }

  /** No two rewritten string arguments share an arena byte, and none leaves the arena. */
  lemma {:induction false} RangesDisjoint(args: seq<LogArg>, used: nat, i: nat, j: nat)
    requires used <= STR_BUF_PER_SLOT && FromCaller(args) && i < |args| && j < |args|
    ensures var a, b := Layout(args, used)[i], Layout(args, used)[j];
            a.String? && a.view.InArena? ==>
              && used <= a.view.offset
              && a.view.len > 0
              && a.view.offset + a.view.len <= STR_BUF_PER_SLOT
              && (i < j && b.String? && b.view.InArena? ==> a.view.offset + a.view.len <= b.view.offset)
  {
    if i > 0 {
      RangesDisjoint(args[1..], UsedAfter(args[0], used), i - 1, if j > 0 then j - 1 else 0);
    } else if j > 0 {
      RangesDisjoint(args[1..], UsedAfter(args[0], used), j - 1, j - 1);
    }
  }

  /** Non-string arguments survive; a string argument keeps a prefix of its own text. */
  lemma {:induction false} ArgumentsKept(args: seq<LogArg>, used: nat, arena: bytes, i: nat)
    requires used <= STR_BUF_PER_SLOT <= |arena| && FromCaller(args) && i < |args|
    requires arena[used..used + |Fitting(args, used)|] == Fitting(args, used)
    ensures !args[i].String? ==> Layout(args, used)[i] == args[i]
    ensures args[i].String? ==>
              && Layout(args, used)[i].String?
              && Read(Layout(args, used)[i].view, arena) <= args[i].view.text
  {
    FittingStep(args, used);
    var next := UsedAfter(args[0], used);
    SplitRange(arena, used, Part(args[0], used), Fitting(args[1..], next));
    if i > 0 {
      ArgumentsKept(args[1..], next, arena, i - 1);
    }
  }
}

/**
 What the logger promises in terms of what its callers passed: the records, the stop flag and the start
 of a flush are read off the schedule, not off the history in the state.
 */
module LoggerRecords {
  import opened Common
  import opened LoggerArena
  import opened LoggerProtocol
  import opened LoggerInvariant
  import opened LoggerSteps
  import opened LoggerTheorems
  import opened LoggerCounters
  import opened LoggerWords

  // ----- the text of a record -----

  /** All bytes of the string arguments, one after the other. */
  function StringBytes(args: seq<LogArg>): bytes {
    if args == [] then []
    else
      var most, last := StringBytes(args[..|args| - 1]), args[|args| - 1];
      if last.String? && last.view.Caller? then most + last.view.text else most
  }

  /** The line a record stands for: its by-value part and at most 256 bytes of its strings. */
  function CallerLine(r: Record): Line {
    var all := StringBytes(r.args);
    Line(r.header, if |all| <= 256 then all else all[..256])
  }

  lemma {:induction false} BytesCons(arg: LogArg, rest: seq<LogArg>)
    ensures StringBytes([arg] + rest)
         == (if arg.String? && arg.view.Caller? then arg.view.text else []) + StringBytes(rest)
  {
    var all := [arg] + rest;
    if rest == [] {
      assert all == [arg] && all[..0] == [];
    } else {
      BytesCons(arg, rest[..|rest| - 1]);
      assert all[..|all| - 1] == [arg] + rest[..|rest| - 1];
    }
  }

  lemma {:induction false} BytesAreTexts(args: seq<LogArg>)
    ensures Concat(Texts(args, [])) == StringBytes(args)
  {
    if args != [] {
      BytesAreTexts(args[1..]);
      BytesCons(args[0], args[1..]);
      assert [args[0]] + args[1..] == args;
      var rest := Texts(args[1..], []);
      if args[0].String? {
        var first := Read(args[0].view, []);
        assert ([first] + rest)[1..] == rest;
        assert !args[0].view.Caller? ==> first == [];
      } else {
        assert [] + rest == rest;
      }
    }
  }

  lemma LineIsCallers(r: Record)
    ensures LineOf(r) == CallerLine(r)
  {
    BytesAreTexts(r.args);
    var all := StringBytes(r.args);
    assert all[..|all|] == all;
  }

  // ----- what the schedule says -----

  /** At position i of the schedule call c begins, for the first time, with this record. */
  predicate BeginsAt(schedule: seq<Action>, i: nat, c: CallId, record: Record) {
    i < |schedule| && schedule[i] == Begin(c, record) && !BegunBefore(schedule, i, c)
  }

  predicate BegunBefore(schedule: seq<Action>, i: nat, c: CallId)
    requires i <= |schedule|
  {
    exists j | 0 <= j < i :: schedule[j].Begin? && schedule[j].c == c
  }

  predicate StoppedBefore(schedule: seq<Action>, i: nat)
    requires i <= |schedule|
  {
    exists j | 0 <= j < i :: schedule[j].SetStop?
  }

  predicate FlushedBefore(schedule: seq<Action>, i: nat, f: FlushId)
    requires i <= |schedule|
  {
    exists j | 0 <= j < i :: schedule[j] == FlushBegin(f)
  }

  /** Flush f begins at position i, for the first time. */
  predicate FlushesAt(schedule: seq<Action>, i: nat, f: FlushId) {
    i < |schedule| && schedule[i] == FlushBegin(f) && !FlushedBefore(schedule, i, f)
  }

  // ----- the state agrees with the schedule -----

  /** What a step leaves of the calls and flushes there are, and of the stop flag. */
  ghost predicate Keeps(s: State, t: State) {
    && (forall c | c in s.calls :: c in t.calls && t.calls[c].line == s.calls[c].line && t.calls[c].early == s.calls[c].early)
    && (forall f | f in s.flushers :: f in t.flushers && t.flushers[f].start == s.flushers[f].start)
  }

  lemma ProcessKeepsAll(s: State)
    requires |s.slots| > 0 && Processing(s.consumer)
    ensures var t := ProcessNext(s); t.calls == s.calls && t.flushers == s.flushers && t.stop == s.stop
  {
  }

  lemma IdleKeepsAll(s: State)
    ensures var t := IdleNext(s); t.calls == s.calls && t.flushers == s.flushers && t.stop == s.stop
  {
  }

  lemma ConsumerKeepsAll(s: State)
    requires |s.slots| > 0
    ensures var t := ConsumerNext(s); t.calls == s.calls && t.flushers == s.flushers && t.stop == s.stop
  {
    if Processing(s.consumer) {
      ProcessKeepsAll(s);
    } else {
      IdleKeepsAll(s);
    }
  }

  lemma FlusherKeepsStart(s: State, f: FlushId)
    requires f in s.flushers
    ensures var t := FlushNext(s, f);
            && t.calls == s.calls && t.stop == s.stop && t.flushers.Keys == s.flushers.Keys
            && forall g | g in s.flushers :: t.flushers[g].start == s.flushers[g].start
  {
  }

  /** A step adds a call, a flush or the stop flag exactly where its action says so. */
  lemma StepAdds(s: State, a: Action)
    requires |s.slots| > 0
    ensures var t := Next(s, a);
            && Keeps(s, t)
            && t.calls.Keys == s.calls.Keys + (if a.Begin? then {a.c} else {})
            && t.flushers.Keys == s.flushers.Keys + (if a.FlushBegin? then {a.f} else {})
            && t.stop == (s.stop || a.SetStop?)
  {
    match a
    case CallStep(c, spurious) => if c in s.calls { CallMoves(s, c, spurious); }
    case ConsumerStep => ConsumerKeepsAll(s);
    case FlushStep(f) => if f in s.flushers { FlusherKeepsStart(s, f); }
    case _ =>
  }

  lemma BeginAdds(s: State, c: CallId, record: Record)
    requires |s.slots| > 0 && c !in s.calls
    ensures c in Next(s, Begin(c, record)).calls
    ensures Next(s, Begin(c, record)).calls[c].line == CallerLine(record)
    ensures Next(s, Begin(c, record)).calls[c].early == !s.stop
  {
    LineIsCallers(record);
  }

  lemma FlushBeginAdds(s: State, f: FlushId)
    requires |s.slots| > 0 && f !in s.flushers
    ensures f in Next(s, FlushBegin(f)).flushers && Next(s, FlushBegin(f)).flushers[f].start == s.enq
  {
  }

  ghost predicate Fresh(s0: State) {
    |s0.slots| > 0 && s0.calls == map[] && s0.flushers == map[] && !s0.stop
  }

  lemma BegunMore(most: seq<Action>, last: Action, c: CallId)
    ensures BegunBefore(most + [last], |most| + 1, c) <==> BegunBefore(most, |most|, c) || (last.Begin? && last.c == c)
  {
    var all := most + [last];
    assert all[|most|] == last && forall j | 0 <= j < |most| :: all[j] == most[j];
  }

  lemma FlushedMore(most: seq<Action>, last: Action, f: FlushId)
    ensures FlushedBefore(most + [last], |most| + 1, f) <==> FlushedBefore(most, |most|, f) || last == FlushBegin(f)
  {
    var all := most + [last];
    assert all[|most|] == last && forall j | 0 <= j < |most| :: all[j] == most[j];
  }

  lemma StoppedMore(most: seq<Action>, last: Action)
    ensures StoppedBefore(most + [last], |most| + 1) <==> StoppedBefore(most, |most|) || last.SetStop?
  {
    var all := most + [last];
    assert all[|most|] == last && forall j | 0 <= j < |most| :: all[j] == most[j];
  }

  /** The calls are those begun, the flushes those begun, and the stop flag is set once it was. */
  lemma {:induction false} RunHas(s0: State, schedule: seq<Action>)
    requires Fresh(s0)
    ensures var s := Run(s0, schedule);
            && (forall c: CallId :: c in s.calls <==> BegunBefore(schedule, |schedule|, c))
            && (forall f: FlushId :: f in s.flushers <==> FlushedBefore(schedule, |schedule|, f))
            && (s.stop <==> StoppedBefore(schedule, |schedule|))
    decreases |schedule|
  {
    if schedule != [] {
      var n := |schedule| - 1;
      var most, last := schedule[..n], schedule[n];
      assert schedule == most + [last];
      RunHas(s0, most);
      StepAdds(Run(s0, most), last);
      forall c: CallId ensures c in Run(s0, schedule).calls <==> BegunBefore(schedule, |schedule|, c) {
        BegunMore(most, last, c);
      }
      forall f: FlushId ensures f in Run(s0, schedule).flushers <==> FlushedBefore(schedule, |schedule|, f) {
        FlushedMore(most, last, f);
      }
      StoppedMore(most, last);
    }
  }

  lemma PrefixBegun(schedule: seq<Action>, i: nat, c: CallId)
    requires i <= |schedule|
    ensures BegunBefore(schedule[..i], i, c) <==> BegunBefore(schedule, i, c)
  {
    assert forall j | 0 <= j < i :: schedule[..i][j] == schedule[j];
  }

  lemma PrefixStopped(schedule: seq<Action>, i: nat)
    requires i <= |schedule|
    ensures StoppedBefore(schedule[..i], i) <==> StoppedBefore(schedule, i)
  {
    assert forall j | 0 <= j < i :: schedule[..i][j] == schedule[j];
  }

  lemma PrefixFlushed(schedule: seq<Action>, i: nat, f: FlushId)
    requires i <= |schedule|
    ensures FlushedBefore(schedule[..i], i, f) <==> FlushedBefore(schedule, i, f)
  {
    assert forall j | 0 <= j < i :: schedule[..i][j] == schedule[j];
  }

  lemma RunStep(s0: State, schedule: seq<Action>, i: nat)
    requires |s0.slots| > 0 && i < |schedule|
    ensures Run(s0, schedule[..i + 1]) == Next(Run(s0, schedule[..i]), schedule[i])
  {
    assert schedule[..i + 1][..i] == schedule[..i];
  }

  /** What is there after a part of the schedule is there, unchanged, after all of it. */
  lemma {:induction false} RunKeeps(s0: State, schedule: seq<Action>, i: nat)
    requires |s0.slots| > 0 && i <= |schedule|
    ensures Keeps(Run(s0, schedule[..i]), Run(s0, schedule))
    decreases |schedule| - i
  {
    if i < |schedule| {
      RunStep(s0, schedule, i);
      StepAdds(Run(s0, schedule[..i]), schedule[i]);
      RunKeeps(s0, schedule, i + 1);
    } else {
      assert schedule[..i] == schedule;
    }
  }

  /**
   A call's line is that of the record it began with, and it counts as early if and only if the stop flag
   was not set before.
   */
  lemma CallFromSchedule(s0: State, schedule: seq<Action>, i: nat, c: CallId, record: Record)
    requires Fresh(s0) && BeginsAt(schedule, i, c, record)
    ensures c in Run(s0, schedule).calls
    ensures Run(s0, schedule).calls[c].line == CallerLine(record)
    ensures Run(s0, schedule).calls[c].early <==> !StoppedBefore(schedule, i)
  {
    RunHas(s0, schedule[..i]);
    PrefixBegun(schedule, i, c);
    PrefixStopped(schedule, i);
    BeginAdds(Run(s0, schedule[..i]), c, record);
    RunStep(s0, schedule, i);
    RunKeeps(s0, schedule, i + 1);
  }

  /** Every call there is has begun. */
  lemma {:induction false} FirstBegin(schedule: seq<Action>, n: nat, c: CallId) returns (i: nat, record: Record)
    requires n <= |schedule| && BegunBefore(schedule, n, c)
    ensures i < n && BeginsAt(schedule, i, c, record)
    decreases n
  {
    if BegunBefore(schedule, n - 1, c) {
      i, record := FirstBegin(schedule, n - 1, c);
    } else {
      i, record := n - 1, schedule[n - 1].record;
    }
  }

  lemma CallHasBegun(s0: State, schedule: seq<Action>, c: CallId) returns (i: nat, record: Record)
    requires Fresh(s0) && c in Run(s0, schedule).calls
    ensures BeginsAt(schedule, i, c, record)
  {
    RunHas(s0, schedule);
    i, record := FirstBegin(schedule, |schedule|, c);
  }

  lemma FlushFromSchedule(s0: State, schedule: seq<Action>, i: nat, f: FlushId)
    requires Fresh(s0) && FlushesAt(schedule, i, f)
    ensures f in Run(s0, schedule).flushers && Run(s0, schedule).flushers[f].start == Run(s0, schedule[..i]).enq
  {
    RunHas(s0, schedule[..i]);
    PrefixFlushed(schedule, i, f);
    FlushBeginAdds(Run(s0, schedule[..i]), f);
    RunStep(s0, schedule, i);
    RunKeeps(s0, schedule, i + 1);
  }

  // ----- the promises -----

  /** The line is that of the record with which the call first begins in the schedule. */
  ghost predicate LineOfCall(schedule: seq<Action>, c: CallId, line: Line) {
    exists i: nat, record :: BeginsAt(schedule, i, c, record) && line == CallerLine(record)
  }

  lemma CallLine(s0: State, schedule: seq<Action>, c: CallId)
    requires Fresh(s0) && c in Run(s0, schedule).calls
    ensures LineOfCall(schedule, c, Run(s0, schedule).calls[c].line)
  {
    var i, record := CallHasBegun(s0, schedule, c);
    CallFromSchedule(s0, schedule, i, c, record);
  }

  /**
   At every moment of every schedule each sink holds, for an initial stretch of the claim order and each
   once, the lines of the records the callers passed: header and the first 256 bytes of their strings.
   */
  lemma SinksFollowCallers(cap: nat, sinks: nat, schedule: seq<Action>, i: nat)
    requires cap >= 2 && i < sinks
    ensures var s := Run(Init(cap, sinks), schedule);
            && |s.sinks| == sinks && s.deq <= |s.sinks[i].written| <= s.deq + 1 && |s.sinks[i].written| <= |s.claims|
            && (forall p, q | 0 <= p < q < |s.claims| :: s.claims[p] != s.claims[q])
            && (forall p | 0 <= p < |s.sinks[i].written| :: LineOfCall(schedule, s.claims[p], s.sinks[i].written[p]))
  {
    var s := Run(Init(cap, sinks), schedule);
    assert Reachable(s, cap, sinks);
    SinksFollowClaims(s, cap, sinks, i);
    forall p | 0 <= p < |s.sinks[i].written| ensures LineOfCall(schedule, s.claims[p], s.sinks[i].written[p]) {
      CallLine(Init(cap, sinks), schedule, s.claims[p]);
    }
  }

  /** The line is on the sink for call c, at exactly one place. */
  ghost predicate LineOnce(s: State, i: nat, c: CallId, line: Line)
    requires i < |s.sinks|
  {
    exists p: nat ::
      && p < |s.sinks[i].written| <= |s.claims| && p < s.sinks[i].flushed
      && s.claims[p] == c && s.sinks[i].written[p] == line
      && forall q | 0 <= q < |s.sinks[i].written| && q != p :: s.claims[q] != c
  }

  /**
   Once the consumer has left its loop, every enqueue that began before the stop flag was set was either
   refused, or the line of its record is on every sink exactly once, and flushed.
   */
  lemma EarlyRecordsSettled(cap: nat, sinks: nat, schedule: seq<Action>, i: nat, c: CallId, record: Record)
    requires cap >= 2 && BeginsAt(schedule, i, c, record) && !StoppedBefore(schedule, i)
    requires Run(Init(cap, sinks), schedule).consumer.Exited?
    ensures c in Run(Init(cap, sinks), schedule).calls
    ensures Settled(Run(Init(cap, sinks), schedule), c, record)
  {
    var s := Run(Init(cap, sinks), schedule);
    assert Reachable(s, cap, sinks);
    CallFromSchedule(Init(cap, sinks), schedule, i, c, record);
    SettledHere(s, cap, sinks, c, record);
  }

  ghost predicate Settled(s: State, c: CallId, record: Record)
    requires c in s.calls
  {
    var pc := s.calls[c].pc;
    && (pc.Accepted? || pc.Counting? || pc.Refused?)
    && (pc.Accepted? ==> forall k | 0 <= k < |s.sinks| :: LineOnce(s, k, c, CallerLine(record)))
  }

  lemma SettledHere(s: State, cap: nat, sinks: nat, c: CallId, record: Record)
    requires cap >= 2 && Reachable(s, cap, sinks) && s.consumer.Exited?
    requires c in s.calls && s.calls[c].early && s.calls[c].line == CallerLine(record)
    ensures Settled(s, c, record)
  {
    EarlyCallsSettled(s, cap, sinks, c);
    if s.calls[c].pc.Accepted? {
      ReachableInv(s, cap, sinks);
      assert CallOk(s, c);
      ClaimsDistinct(s);
      forall k | 0 <= k < |s.sinks| ensures LineOnce(s, k, c, CallerLine(record)) {
        assert WrittenOnce(s, k, c);
      }
    }
  }

  /** The same on 64 bit words, while at most 2^63 less a capacity of positions have been claimed. */
  lemma EarlyRecordsSettledOnWords(cap: nat, sinks: nat, schedule: seq<Action>, i: nat, c: CallId, record: Record)
    requires 2 <= cap <= HALF && BeginsAt(schedule, i, c, record) && !StoppedBefore(schedule, i)
    requires WordRun(Init(cap, sinks), schedule).consumer.Exited?
    requires WordRun(Init(cap, sinks), schedule).enq <= HALF - cap
    ensures c in WordRun(Init(cap, sinks), schedule).calls
    ensures Settled(WordRun(Init(cap, sinks), schedule), c, record)
  {
    WordRunAgrees(cap, sinks, schedule);
    EarlyRecordsSettled(cap, sinks, schedule, i, c, record);
  }

  /**
   When a flush has returned after its barrier, every position claimed before the flush began is on every
   sink with its caller's line, and flushed.
   */
  lemma FlushCoversRecords(cap: nat, sinks: nat, schedule: seq<Action>, i: nat, f: FlushId, p: nat, k: nat)
    requires cap >= 2 && FlushesAt(schedule, i, f) && k < sinks && p < Run(Init(cap, sinks), schedule[..i]).enq
    requires var s := Run(Init(cap, sinks), schedule); f in s.flushers && s.flushers[f].pc.Returned?
    ensures var s := Run(Init(cap, sinks), schedule);
            && k < |s.sinks| && p < s.sinks[k].flushed <= |s.sinks[k].written| && p < |s.claims|
            && LineOfCall(schedule, s.claims[p], s.sinks[k].written[p])
  {
    var s := Run(Init(cap, sinks), schedule);
    assert Reachable(s, cap, sinks);
    FlushFromSchedule(Init(cap, sinks), schedule, i, f);
    FlushCoversEarlierClaims(s, cap, sinks, f, p, k);
    CallLine(Init(cap, sinks), schedule, s.claims[p]);
  }

  // ----- the order of the records -----

  lemma ProcessKeepsClaims(s: State)
    requires |s.slots| > 0 && Processing(s.consumer)
    ensures ProcessNext(s).claims == s.claims
  {
  }

  lemma ConsumerKeepsClaims(s: State)
    requires |s.slots| > 0
    ensures ConsumerNext(s).claims == s.claims
  {
    if Processing(s.consumer) {
      ProcessKeepsClaims(s);
    }
  }

  lemma ClaimsStep(s: State, a: Action)
    requires |s.slots| > 0
    ensures s.claims <= Next(s, a).claims
  {
    match a
    case CallStep(c, spurious) => if c in s.calls { CallMoves(s, c, spurious); }
    case ConsumerStep => ConsumerKeepsClaims(s);
    case FlushStep(f) => if f in s.flushers { FlusherIsQuiet(s, f); }
    case _ =>
  }

  /** Positions once claimed stay claimed, by the same calls. */
  lemma {:induction false} ClaimsGrow(s0: State, schedule: seq<Action>, i: nat)
    requires |s0.slots| > 0 && i <= |schedule|
    ensures Run(s0, schedule[..i]).claims <= Run(s0, schedule).claims
    decreases |schedule| - i
  {
    if i < |schedule| {
      RunStep(s0, schedule, i);
      ClaimsStep(Run(s0, schedule[..i]), schedule[i]);
      ClaimsGrow(s0, schedule, i + 1);
    } else {
      assert schedule[..i] == schedule;
    }
  }

  lemma PrefixAt(s: State, t: State, p: nat)
    requires s.claims <= t.claims && p < |s.claims|
    ensures p < |t.claims| && t.claims[p] == s.claims[p]
  {
  }

  /**
   If one call's record was accepted before another call began, it comes first in the claim order, the order
   in which every sink has the lines: the records of one thread are never swapped.
   */
  lemma SubmissionOrder(cap: nat, sinks: nat, schedule: seq<Action>, i: nat, first: CallId, second: CallId, record: Record)
    requires cap >= 2 && BeginsAt(schedule, i, second, record)
    requires var s := Run(Init(cap, sinks), schedule[..i]); first in s.calls && s.calls[first].pc.Accepted?
    requires var t := Run(Init(cap, sinks), schedule); second in t.calls && t.calls[second].pc.Accepted?
    ensures var t := Run(Init(cap, sinks), schedule);
            exists p, q :: 0 <= p < q < |t.claims| && t.claims[p] == first && t.claims[q] == second
  {
    var s0 := Init(cap, sinks);
    var s, t := Run(s0, schedule[..i]), Run(s0, schedule);
    assert Reachable(s, cap, sinks) && Reachable(t, cap, sinks);
    ReachableInv(s, cap, sinks);
    ReachableInv(t, cap, sinks);
    assert CallOk(s, first) && CallOk(t, second);
    ClaimsGrow(s0, schedule, i);
    RunHas(s0, schedule[..i]);
    PrefixBegun(schedule, i, second);
    var p, q := s.calls[first].pc.pos, t.calls[second].pc.pos;
    ClaimsDistinct(s);
    forall k | 0 <= k < |s.claims| ensures t.claims[k] == s.claims[k] != second {
      PrefixAt(s, t, k);
    }
    assert p < |s.claims| <= q;
  }

  // ----- what a flush covers -----

  /** The same state with another history for one flush. */
  ghost function Since(s: State, f: FlushId, n: nat): State
    requires f in s.flushers
  {
    s.(flushers := s.flushers[f := s.flushers[f].(start := n)])
  }

  lemma SinceClaim(s: State, c: CallId, spurious: bool, f: FlushId, n: nat)
    requires |s.slots| > 0 && c in s.calls && f in s.flushers && Claiming(s.calls[c].pc)
    ensures ClaimNext(s, c, spurious).flushers == s.flushers
    ensures ClaimNext(Since(s, f, n), c, spurious) == Since(ClaimNext(s, c, spurious), f, n)
  {
  }

  lemma SinceFill(s: State, c: CallId, f: FlushId, n: nat)
    requires |s.slots| > 0 && c in s.calls && f in s.flushers && Owning(s.calls[c].pc)
    ensures FillNext(s, c).flushers == s.flushers
    ensures FillNext(Since(s, f, n), c) == Since(FillNext(s, c), f, n)
  {
    assert forall p: nat :: SlotAt(Since(s, f, n), p) == SlotAt(s, p);
  }

  lemma SinceLeave(s: State, c: CallId, f: FlushId, n: nat)
    requires c in s.calls && f in s.flushers
    ensures LeaveNext(s, c).flushers == s.flushers
    ensures LeaveNext(Since(s, f, n), c) == Since(LeaveNext(s, c), f, n)
  {
  }

  lemma SinceCall(s: State, c: CallId, spurious: bool, f: FlushId, n: nat)
    requires |s.slots| > 0 && c in s.calls && f in s.flushers
    ensures CallNext(s, c, spurious).flushers == s.flushers
    ensures CallNext(Since(s, f, n), c, spurious) == Since(CallNext(s, c, spurious), f, n)
  {
    if Claiming(s.calls[c].pc) {
      SinceClaim(s, c, spurious, f, n);
    } else if Owning(s.calls[c].pc) {
      SinceFill(s, c, f, n);
    } else {
      SinceLeave(s, c, f, n);
    }
  }

  lemma SinceSink(s: State, k: nat, f: FlushId, n: nat)
    requires k < |s.sinks| && f in s.flushers
    ensures FlushSink(s, k).flushers == s.flushers && FlushSink(Since(s, f, n), k) == Since(FlushSink(s, k), f, n)
  {
  }

  lemma SinceProcess(s: State, f: FlushId, n: nat)
    requires |s.slots| > 0 && Processing(s.consumer) && f in s.flushers
    ensures ProcessNext(s).flushers == s.flushers && ProcessNext(Since(s, f, n)) == Since(ProcessNext(s), f, n)
  {
  }

  lemma SinceIdle(s: State, f: FlushId, n: nat)
    requires f in s.flushers
    ensures IdleNext(s).flushers == s.flushers && IdleNext(Since(s, f, n)) == Since(IdleNext(s), f, n)
  {
    var pc := s.consumer;
    if (pc.FlushingIdle? || pc.FlushingLast?) && pc.k < |s.sinks| {
      SinceSink(s, pc.k, f, n);
    }
  }

  lemma SinceConsumer(s: State, f: FlushId, n: nat)
    requires |s.slots| > 0 && f in s.flushers
    ensures ConsumerNext(s).flushers == s.flushers && ConsumerNext(Since(s, f, n)) == Since(ConsumerNext(s), f, n)
  {
    if Processing(s.consumer) {
      SinceProcess(s, f, n);
    } else if !Consuming(s.consumer) {
      SinceIdle(s, f, n);
    }
  }

  ghost function At(s: State, g: FlushId, pc: FlushPc): State
    requires g in s.flushers
  {
    s.(flushers := s.flushers[g := s.flushers[g].(pc := pc)])
  }

  lemma SinceAt(s: State, g: FlushId, pc: FlushPc, f: FlushId, n: nat)
    requires f in s.flushers && g in s.flushers
    ensures f in At(s, g, pc).flushers && At(Since(s, f, n), g, pc) == Since(At(s, g, pc), f, n)
  {
    assert At(Since(s, f, n), g, pc).flushers == Since(At(s, g, pc), f, n).flushers;
  }

  lemma SinceFlush(s: State, g: FlushId, f: FlushId, n: nat)
    requires |s.slots| > 0 && f in s.flushers && g in s.flushers
    ensures f in FlushNext(s, g).flushers
    ensures FlushNext(Since(s, f, n), g) == Since(FlushNext(s, g), f, n)
  {
    match s.flushers[g].pc
    case Entering => SinceAt(s, g, if s.joined then ReturnedEarly else Targeting, f, n);
    case Targeting => SinceAt(s, g, Waiting(s.enq), f, n);
    case Waiting(t) => SinceAt(s, g, FlushingSinks(t, 0), f, n);
    case FlushingSinks(t, k) =>
      if k < |s.sinks| {
        SinceSink(s, k, f, n);
        SinceAt(FlushSink(s, k), g, FlushingSinks(t, k + 1), f, n);
      } else {
        SinceAt(s, g, Returned, f, n);
      }
    case _ =>
  }

  lemma SinceStep(s: State, a: Action, f: FlushId, n: nat)
    requires |s.slots| > 0 && f in s.flushers
    ensures f in Next(s, a).flushers && Next(Since(s, f, n), a) == Since(Next(s, a), f, n)
  {
    match a
    case CallStep(c, spurious) => if c in s.calls { SinceCall(s, c, spurious, f, n); }
    case ConsumerStep => SinceConsumer(s, f, n);
    case FlushStep(g) => if g in s.flushers { SinceFlush(s, g, f, n); }
    case FlushBegin(g) => assert Next(Since(s, f, n), a).flushers == Since(Next(s, a), f, n).flushers;
    case _ =>
  }

  lemma {:induction false} SinceRun(s0: State, schedule: seq<Action>, i: nat, f: FlushId, n: nat)
    requires |s0.slots| > 0 && i <= |schedule| && f in Run(s0, schedule[..i]).flushers
    requires Inv(Since(Run(s0, schedule[..i]), f, n))
    ensures f in Run(s0, schedule).flushers && Inv(Since(Run(s0, schedule), f, n))
    decreases |schedule| - i
  {
    if i < |schedule| {
      var s := Run(s0, schedule[..i]);
      RunStep(s0, schedule, i);
      SinceStep(s, schedule[i], f, n);
      NextKeepsInv(Since(s, f, n), schedule[i]);
      SinceRun(s0, schedule, i + 1, f, n);
    } else {
      assert schedule[..i] == schedule;
    }
  }

  /** A flush that has not loaded the count yet owes nothing beyond the count. */
  lemma SinceNow(s: State, f: FlushId)
    requires Inv(s) && f in s.flushers && (s.flushers[f].pc.Entering? || s.flushers[f].pc.Targeting?)
    ensures Inv(Since(s, f, s.enq))
  {
    var t := Since(s, f, s.enq);
    forall p: nat | t.enq <= p < Released(t) + |t.slots| ensures SlotAt(t, p).sequence == p {
      assert SlotAt(s, p).sequence == p;
    }
    forall g | g in t.flushers ensures FlusherOk(t, g) {
      assert FlusherOk(s, g);
    }
    forall c | c in t.calls ensures CallOk(t, c) {
      assert CallOk(s, c);
    }
    forall p | 0 <= p < |t.claims| ensures PosOk(t, p) {
      assert PosOk(s, p);
    }
    forall i | 0 <= i < |t.sinks| ensures SinkOk(t, i) {
      assert SinkOk(s, i);
    }
  }

  lemma Covered(t: State, f: FlushId, n: nat, p: nat, k: nat)
    requires Inv(t) && f in t.flushers && t.flushers[f].pc.Returned? && Inv(Since(t, f, n)) && p < n && k < |t.sinks|
    ensures p < t.sinks[k].flushed <= |t.sinks[k].written| && p < |t.claims| && t.claims[p] in t.calls
    ensures t.sinks[k].written[p] == t.calls[t.claims[p]].line
  {
    assert FlusherOk(Since(t, f, n), f) && SinkOk(t, k);
  }

  /** The invariant holds after every schedule. */
  ghost predicate AlwaysSound(s0: State)
    requires |s0.slots| > 0
  {
    forall schedule :: Inv(Run(s0, schedule)) && |Run(s0, schedule).sinks| == |s0.sinks|
  }

  lemma InitSound(cap: nat, sinks: nat)
    requires cap >= 2
    ensures var s0 := Init(cap, sinks); Fresh(s0) && AlwaysSound(s0) && |s0.sinks| == sinks
  {
    forall schedule ensures Inv(Run(Init(cap, sinks), schedule)) && |Run(Init(cap, sinks), schedule).sinks| == sinks {
      ReachableInv(Run(Init(cap, sinks), schedule), cap, sinks);
    }
  }

  lemma LoadedCovered(s0: State, schedule: seq<Action>, i: nat, f: FlushId, p: nat, k: nat)
    requires Fresh(s0) && AlwaysSound(s0) && i <= |schedule|
    requires var s := Run(s0, schedule[..i]);
             f in s.flushers && (s.flushers[f].pc.Entering? || s.flushers[f].pc.Targeting?) && p < s.enq
    requires var t := Run(s0, schedule); f in t.flushers && t.flushers[f].pc.Returned? && k < |s0.sinks|
    ensures var t := Run(s0, schedule);
            && k < |t.sinks| && p < t.sinks[k].flushed <= |t.sinks[k].written| && p < |t.claims|
            && LineOfCall(schedule, t.claims[p], t.sinks[k].written[p])
  {
    var s, t := Run(s0, schedule[..i]), Run(s0, schedule);
    SinceNow(s, f);
    SinceRun(s0, schedule, i, f, s.enq);
    Covered(t, f, s.enq, p, k);
    CallLine(s0, schedule, t.claims[p]);
  }

  /**
   When a flush has returned after its barrier, every position claimed up to the moment at which it loads the
   count is on every sink with its caller's line, and flushed.
   */
  lemma FlushCoversLoaded(cap: nat, sinks: nat, schedule: seq<Action>, i: nat, f: FlushId, p: nat, k: nat)
    requires cap >= 2 && k < sinks && i <= |schedule|
    requires var s := Run(Init(cap, sinks), schedule[..i]);
             f in s.flushers && (s.flushers[f].pc.Entering? || s.flushers[f].pc.Targeting?) && p < s.enq
    requires var t := Run(Init(cap, sinks), schedule); f in t.flushers && t.flushers[f].pc.Returned?
    ensures var t := Run(Init(cap, sinks), schedule);
            && k < |t.sinks| && p < t.sinks[k].flushed <= |t.sinks[k].written| && p < |t.claims|
            && LineOfCall(schedule, t.claims[p], t.sinks[k].written[p])
  {
    InitSound(cap, sinks);
    LoadedCovered(Init(cap, sinks), schedule, i, f, p, k);
  }
}

/** What the logger promises, for every schedule of its threads. */
module LoggerTheorems {
  import opened LoggerProtocol
  import opened LoggerInvariant
  import opened LoggerSteps

  /** The states a logger with this capacity and this many sinks can be in. */
  ghost predicate Reachable(s: State, cap: nat, sinks: nat) {
    cap > 0 && exists schedule :: s == Run(Init(cap, sinks), schedule)
  }

  lemma ReachableInv(s: State, cap: nat, sinks: nat)
    requires cap >= 2 && Reachable(s, cap, sinks)
    ensures Inv(s) && |s.slots| == cap && |s.sinks| == sinks
  {
    var schedule :| s == Run(Init(cap, sinks), schedule);
    InitOk(cap, sinks);
    RunKeepsInv(Init(cap, sinks), schedule);
    RunKeepsSizes(Init(cap, sinks), schedule);
  }

  lemma {:induction false} RunKeepsSizes(s: State, schedule: seq<Action>)
    requires |s.slots| > 0
    ensures |Run(s, schedule).slots| == |s.slots| && |Run(s, schedule).sinks| == |s.sinks|
    decreases |schedule|
  {
    if schedule != [] {
      RunKeepsSizes(s, schedule[..|schedule| - 1]);
      NextKeepsSinkCount(Run(s, schedule[..|schedule| - 1]), schedule[|schedule| - 1]);
    }
  }

  lemma NextKeepsSinkCount(s: State, a: Action)
    requires |s.slots| > 0
    ensures |Next(s, a).sinks| == |s.sinks|
  {
    match a
    case CallStep(c, spurious) => if c in s.calls { CallMoves(s, c, spurious); }
    case FlushStep(f) => if f in s.flushers { FlusherIsQuiet(s, f); }
    case ConsumerStep => ConsumerKeepsSinkCount(s);
    case _ =>
  }

  lemma ProcessKeepsSinkCount(s: State)
    requires |s.slots| > 0 && Processing(s.consumer)
    ensures |ProcessNext(s).sinks| == |s.sinks|
  {
  }

  lemma IdleKeepsSinkCount(s: State)
    ensures |IdleNext(s).sinks| == |s.sinks|
  {
  }

  lemma ConsumerKeepsSinkCount(s: State)
    requires |s.slots| > 0
    ensures |ConsumerNext(s).sinks| == |s.sinks|
  {
    if Processing(s.consumer) {
      ProcessKeepsSinkCount(s);
    } else {
      IdleKeepsSinkCount(s);
    }
  }

  // ----- slots -----

  /** No two claimed and unreleased positions share a slot. */
  ghost predicate SlotsExclusive(s: State)
    requires |s.slots| > 0
  {
    forall p: nat, q: nat | Released(s) <= p < q < s.enq :: Ix(|s.slots|, p) != Ix(|s.slots|, q)
  }

  lemma ExclusiveFromTwo(s: State, cap: nat, sinks: nat)
    requires cap >= 2 && Reachable(s, cap, sinks)
    ensures |s.slots| == cap && SlotsExclusive(s)
  {
    ReachableInv(s, cap, sinks);
    forall p: nat, q: nat | Released(s) <= p < q < s.enq ensures Ix(cap, p) != Ix(cap, q) {
      SlotsDiffer(cap, p, q);
    }
  }

  lemma Extend(s0: State, schedule: seq<Action>, s: State, a: Action) returns (longer: seq<Action>)
    requires |s0.slots| > 0 && s == Run(s0, schedule)
    ensures longer == schedule + [a] && Run(s0, longer) == Next(s, a)
  {
    longer := schedule + [a];
    assert longer[..|longer| - 1] == schedule;
  }

  /** A record without string arguments. */
  const SHORT: Record := Record(7, [])

  lemma ShortLine()
    ensures LineOf(SHORT) == Line(7, [])
  {
  }

  lemma LoadStep(s: State, c: CallId)
    requires |s.slots| > 0 && c in s.calls && s.calls[c].pc.Loading?
    ensures Next(s, CallStep(c, false)) == SetPc(s, c, Checking(s.enq))
  {
  }

  lemma CheckStep(s: State, c: CallId, p: nat)
    requires |s.slots| > 0 && c in s.calls && s.calls[c].pc == Checking(p) && SlotAt(s, p).sequence == p
    ensures Next(s, CallStep(c, false)) == SetPc(s, c, Swapping(p))
  {
  }

  lemma SwapStep(s: State, c: CallId)
    requires |s.slots| > 0 && c in s.calls && s.calls[c].pc == Swapping(s.enq)
    ensures Next(s, CallStep(c, false))
         == SetPc(s.(enq := s.enq + 1, claims := s.claims + [c]), c, Filling(s.enq, 0))
  {
  }

  lemma StoreStep(s: State, c: CallId, p: nat)
    requires |s.slots| > 0 && c in s.calls && s.calls[c].line == Line(7, []) && s.calls[c].pc == Filling(p, 0)
    ensures Next(s, CallStep(c, false))
         == SetPc(SetSlot(s, p, SlotAt(s, p).(item := Item(7, 0))), c, Publishing(p))
  {
  }

  lemma PublishStep(s: State, c: CallId, p: nat)
    requires |s.slots| > 0 && c in s.calls && s.calls[c].pc == Publishing(p)
    ensures Next(s, CallStep(c, false)) == SetPc(SetSlot(s, p, SlotAt(s, p).(sequence := p + 1)), c, Leaving(p))
  {
  }

  lemma LeaveStep(s: State, c: CallId, p: nat)
    requires |s.slots| > 0 && c in s.calls && s.calls[c].pc == Leaving(p)
    ensures Next(s, CallStep(c, false)) == SetPc(s.(inFlight := s.inFlight - 1), c, Accepted(p))
  {
  }

  /** The claim loop, run to its end by one new call that nobody disturbs. */
  lemma SoloClaim(s0: State, schedule: seq<Action>, s: State, c: CallId)
    returns (longer: seq<Action>, t: State)
    requires |s0.slots| > 0 && s == Run(s0, schedule)
    requires c !in s.calls && SlotAt(s, s.enq).sequence == s.enq
    ensures t == Run(s0, longer)
    ensures t == s.(enq := s.enq + 1, claims := s.claims + [c], inFlight := s.inFlight + 1,
                    calls := s.calls[c := Call(Line(7, []), Filling(s.enq, 0), !s.stop)])
  {
    ShortLine();
    longer := Extend(s0, schedule, s, Begin(c, SHORT));
    t := s.(inFlight := s.inFlight + 1, calls := s.calls[c := Call(Line(7, []), Loading, !s.stop)]);
    longer, t := SoloSwap(s0, longer, t, c);
  }

  lemma SoloSwap(s0: State, schedule: seq<Action>, s: State, c: CallId)
    returns (longer: seq<Action>, t: State)
    requires |s0.slots| > 0 && s == Run(s0, schedule)
    requires c in s.calls && s.calls[c].pc.Loading? && SlotAt(s, s.enq).sequence == s.enq
    ensures t == Run(s0, longer)
    ensures t == SetPc(s.(enq := s.enq + 1, claims := s.claims + [c]), c, Filling(s.enq, 0))
  {
    longer := Extend(s0, schedule, s, CallStep(c, false));
    LoadStep(s, c);
    t := SetPc(s, c, Checking(s.enq));
    longer := Extend(s0, longer, t, CallStep(c, false));
    CheckStep(t, c, s.enq);
    t := SetPc(t, c, Swapping(s.enq));
    longer := Extend(s0, longer, t, CallStep(c, false));
    SwapStep(t, c);
    t := SetPc(t.(enq := s.enq + 1, claims := s.claims + [c]), c, Filling(s.enq, 0));
  }

  /** Filling, publishing and leaving, run to the end by one call that nobody disturbs. */
  lemma SoloPublish(s0: State, schedule: seq<Action>, s: State, c: CallId, p: nat)
    returns (longer: seq<Action>, t: State)
    requires |s0.slots| > 0 && s == Run(s0, schedule)
    requires c in s.calls && s.calls[c].line == Line(7, []) && s.calls[c].pc == Filling(p, 0)
    ensures t == Run(s0, longer) && |t.slots| == |s.slots|
    ensures t == s.(slots := t.slots, inFlight := s.inFlight - 1, calls := s.calls[c := s.calls[c].(pc := Accepted(p))])
    ensures SlotAt(t, p).sequence == p + 1
  {
    longer := Extend(s0, schedule, s, CallStep(c, false));
    StoreStep(s, c, p);
    t := SetPc(SetSlot(s, p, SlotAt(s, p).(item := Item(7, 0))), c, Publishing(p));
    longer := Extend(s0, longer, t, CallStep(c, false));
    PublishStep(t, c, p);
    t := SetPc(SetSlot(t, p, SlotAt(t, p).(sequence := p + 1)), c, Leaving(p));
    longer := Extend(s0, longer, t, CallStep(c, false));
    LeaveStep(t, c, p);
    t := SetPc(t.(inFlight := t.inFlight - 1), c, Accepted(p));
  }

  /** With a single slot a published, unread record looks free to the next producer. */
  lemma SharedAtOne(sinks: nat) returns (schedule: seq<Action>)
    ensures !SlotsExclusive(Run(Init(1, sinks), schedule))
  {
    var s0 := Init(1, sinks);
    var t;
    schedule, t := SoloClaim(s0, [], s0, 0);
    schedule, t := SoloPublish(s0, schedule, t, 0, 0);
    assert SlotAt(t, 1).sequence == 1;
    schedule, t := SoloClaim(s0, schedule, t, 1);
    assert Released(t) <= 0 < 1 < t.enq && Ix(1, 0) == Ix(1, 1);
  }

  /**
   Slots, and with them the arenas keyed by the same index, are exclusive in every reachable state
   exactly when the capacity is at least two.  One is a power of two and passes the constructor's
   assertion.
   */
  lemma SlotsExclusiveIffTwo(cap: nat, sinks: nat)
    requires cap > 0
    ensures (forall schedule :: SlotsExclusive(Run(Init(cap, sinks), schedule))) <==> cap >= 2
  {
    if cap >= 2 {
      forall schedule ensures SlotsExclusive(Run(Init(cap, sinks), schedule)) {
        ExclusiveFromTwo(Run(Init(cap, sinks), schedule), cap, sinks);
      }
    } else {
      var schedule := SharedAtOne(sinks);
    }
  }

  /**
   `claim` says "full" exactly when the position it looks at is the next one to be claimed and every slot is
   claimed and unreleased at that very moment.
   */
  lemma RefusedExactly(s: State, cap: nat, sinks: nat, c: CallId)
    requires cap >= 2 && Reachable(s, cap, sinks) && |s.slots| > 0
    requires c in s.calls && !s.calls[c].pc.Refusing?
    ensures c in CallNext(s, c, false).calls
    ensures CallNext(s, c, false).calls[c].pc.Refusing?
       <==> s.calls[c].pc == Checking(s.enq) && s.enq - Released(s) == cap
  {
    ReachableInv(s, cap, sinks);
    assert CallOk(s, c);
    RefusingAfterCheck(s, c);
    if s.calls[c].pc.Checking? {
      SmallerExactly(s, c);
    }
  }

  lemma RefusingAfterCheck(s: State, c: CallId)
    requires |s.slots| > 0 && c in s.calls && !s.calls[c].pc.Refusing?
    ensures c in CallNext(s, c, false).calls
    ensures CallNext(s, c, false).calls[c].pc.Refusing?
       <==> s.calls[c].pc.Checking? && SlotAt(s, s.calls[c].pc.pos).sequence < s.calls[c].pc.pos
  {
  }

  lemma SmallerExactly(s: State, c: CallId)
    requires Inv(s) && c in s.calls && s.calls[c].pc.Checking?
    ensures var pos := s.calls[c].pc.pos;
            SlotAt(s, pos).sequence < pos <==> pos == s.enq && s.enq - Released(s) == |s.slots|
  {
    var pos := s.calls[c].pc.pos;
    assert CallOk(s, c);
    var q := InWindow(|s.slots|, pos, Released(s));
    assert SlotAt(s, q) == SlotAt(s, pos);
    if q < s.enq {
      assert PosOk(s, q);
    } else {
      assert SlotAt(s, q).sequence == q;
    }
  }

  // ----- what the sinks receive -----

  /** The lines of the first n claimed positions, in claim order. */
  ghost function ClaimedLines(s: State, n: nat): (lines: seq<Line>)
    requires n <= |s.claims| && forall p | 0 <= p < n :: s.claims[p] in s.calls
    ensures |lines| == n
  {
    seq(n, p requires 0 <= p < n => s.calls[s.claims[p]].line)
  }

  /**
   At every moment each sink holds exactly the records of an initial stretch of the claim order, each
   with the bytes its own caller passed, each once; the stretch ends at the consumer's position, or
   one further for a sink already served in the current round.
   */
  lemma SinksFollowClaims(s: State, cap: nat, sinks: nat, i: nat)
    requires cap >= 2 && Reachable(s, cap, sinks) && i < sinks
    ensures |s.sinks| == sinks
    ensures s.deq <= WrittenCount(s, i) <= s.deq + 1 && WrittenCount(s, i) <= |s.claims|
    ensures forall p | 0 <= p < |s.claims| :: s.claims[p] in s.calls
    ensures forall p, q | 0 <= p < q < |s.claims| :: s.claims[p] != s.claims[q]
    ensures s.sinks[i].written == ClaimedLines(s, WrittenCount(s, i))
  {
    ReachableInv(s, cap, sinks);
    assert SinkOk(s, i);
    ClaimsDistinct(s);
  }

  lemma ClaimsDistinct(s: State)
    requires |s.slots| > 0 && PositionsOk(s)
    ensures forall p | 0 <= p < |s.claims| :: s.claims[p] in s.calls
    ensures forall p, q | 0 <= p < q < |s.claims| :: s.claims[p] != s.claims[q]
  {
    forall p | 0 <= p < |s.claims| ensures s.claims[p] in s.calls && Claimed(s.calls[s.claims[p]].pc) && s.calls[s.claims[p]].pc.pos == p {
      assert PosOk(s, p);
    }
  }

  // ----- shutdown -----

  /** The record of call c is on the sink, at exactly one place. */
  ghost predicate WrittenOnce(s: State, i: nat, c: CallId)
    requires i < |s.sinks| && c in s.calls
  {
    exists p: nat ::
      && p < |s.sinks[i].written| <= |s.claims|
      && s.claims[p] == c && s.sinks[i].written[p] == s.calls[c].line
      && forall q | 0 <= q < |s.sinks[i].written| && q != p :: s.claims[q] != c
  }

  /**
   Once the consumer has left its loop, every enqueue that had announced itself before the stop flag
   was set was either refused, or its record is on every sink exactly once and flushed.
   */
  lemma EarlyCallsSettled(s: State, cap: nat, sinks: nat, c: CallId)
    requires cap >= 2 && Reachable(s, cap, sinks) && s.consumer.Exited?
    requires c in s.calls && s.calls[c].early
    ensures s.calls[c].pc.Accepted? || s.calls[c].pc.Counting? || s.calls[c].pc.Refused?
    ensures s.calls[c].pc.Accepted? ==>
              forall i | 0 <= i < |s.sinks| ::
                WrittenOnce(s, i, c) && s.calls[c].pc.pos < s.sinks[i].flushed
  {
    ReachableInv(s, cap, sinks);
    if s.calls[c].pc.Accepted? {
      var p := s.calls[c].pc.pos;
      assert CallOk(s, c);
      ClaimsDistinct(s);
      forall i | 0 <= i < |s.sinks| ensures WrittenOnce(s, i, c) && p < s.sinks[i].flushed {
        assert SinkOk(s, i);
        assert p < |s.sinks[i].written| <= |s.claims|;
      }
    }
  }

  /** After the consumer's exit neither the sinks' contents nor its position change any more. */
  lemma {:induction false} ExitIsFinal(s: State, schedule: seq<Action>)
    requires |s.slots| > 0 && s.consumer.Exited?
    ensures var t := Run(s, schedule);
            && t.consumer.Exited? && t.deq == s.deq && |t.sinks| == |s.sinks|
            && forall i | 0 <= i < |s.sinks| :: t.sinks[i].written == s.sinks[i].written
    decreases |schedule|
  {
    if schedule != [] {
      var most := schedule[..|schedule| - 1];
      ExitIsFinal(s, most);
      ExitedStep(Run(s, most), schedule[|schedule| - 1]);
    }
  }

  lemma ExitedStep(s: State, a: Action)
    requires |s.slots| > 0 && s.consumer.Exited?
    ensures var t := Next(s, a);
            && t.consumer.Exited? && t.deq == s.deq && |t.sinks| == |s.sinks|
            && forall i | 0 <= i < |s.sinks| :: t.sinks[i].written == s.sinks[i].written
  {
    match a
    case CallStep(c, spurious) => if c in s.calls { CallMoves(s, c, spurious); }
    case FlushStep(f) => if f in s.flushers { FlusherIsQuiet(s, f); }
    case _ =>
  }

  /**
   An accepted record is ever written, in any continuation after the exit, exactly when its position
   was claimed before the consumer's last look at the enqueue count.
   */
  lemma WrittenIffClaimedInTime(s: State, cap: nat, sinks: nat, more: seq<Action>, c: CallId, i: nat)
    requires cap >= 2 && Reachable(s, cap, sinks) && s.consumer.Exited? && i < sinks
    requires c in Run(s, more).calls && Run(s, more).calls[c].pc.Accepted?
    ensures i < |Run(s, more).sinks|
    ensures WrittenOnce(Run(s, more), i, c) <==> Run(s, more).calls[c].pc.pos < s.deq
  {
    ReachableInv(s, cap, sinks);
    ExitIsFinal(s, more);
    RunKeepsInv(s, more);
    var t := Run(s, more);
    assert CallOk(t, c) && SinkOk(t, i);
    ClaimsDistinct(t);
    var p := t.calls[c].pc.pos;
    if p < s.deq {
      assert p < |t.sinks[i].written| <= |t.claims|;
    }
  }

  /** A logger that is stopped before anything was logged. */
  lemma SoloExit(s0: State) returns (schedule: seq<Action>, s: State)
    requires |s0.slots| > 0 && |s0.sinks| == 1 && s0.sinks[0] == Sink([], 0)
    requires s0.enq == s0.deq && s0.inFlight == 0 && s0.consumer.Peeking? && SlotAt(s0, s0.deq).sequence == s0.deq
    ensures s == Run(s0, schedule) && s == s0.(stop := true, consumer := Exited)
  {
    schedule := Extend(s0, [], s0, SetStop);
    s := s0.(stop := true);
    schedule := Extend(s0, schedule, s, ConsumerStep);
    s := s.(consumer := TestingStop);
    schedule := Extend(s0, schedule, s, ConsumerStep);
    s := s.(consumer := TestingInFlight);
    schedule := Extend(s0, schedule, s, ConsumerStep);
    s := s.(consumer := TestingCount);
    schedule := Extend(s0, schedule, s, ConsumerStep);
    s := s.(consumer := FlushingLast(0));
    schedule, s := SoloLastFlush(s0, schedule, s);
  }

  lemma SoloLastFlush(s0: State, schedule: seq<Action>, s: State) returns (longer: seq<Action>, t: State)
    requires |s0.slots| > 0 && s == Run(s0, schedule)
    requires |s.sinks| == 1 && s.sinks[0] == Sink([], 0) && s.consumer == FlushingLast(0)
    ensures t == Run(s0, longer) && t == s.(consumer := Exited)
  {
    longer := Extend(s0, schedule, s, ConsumerStep);
    t := s.(consumer := FlushingLast(1));
    assert FlushSink(s, 0).sinks == s.sinks;
    longer := Extend(s0, longer, t, ConsumerStep);
    t := t.(consumer := Exited);
  }

  /**
   Such late records exist: a call that begins after the exit is told its record was accepted, and
   the record never reaches a sink.
   */
  lemma LateRecordAcceptedAndLost(cap: nat) returns (schedule: seq<Action>, c: CallId)
    requires cap >= 2
    ensures var s := Run(Init(cap, 1), schedule);
            && s.consumer.Exited? && c in s.calls && s.calls[c].pc.Accepted? && !s.calls[c].early
            && forall more :: |Run(s, more).sinks| == 1 && Run(s, more).sinks[0].written == []
  {
    var s0, s := Init(cap, 1), Init(cap, 1);
    schedule, s := SoloExit(s0);
    c := 0;
    schedule, s := SoloClaim(s0, schedule, s, c);
    schedule, s := SoloPublish(s0, schedule, s, c, 0);
    forall more ensures |Run(s, more).sinks| == 1 && Run(s, more).sinks[0].written == [] {
      ExitIsFinal(s, more);
    }
  }

  // ----- the destructor's summary -----

  ghost function AcceptedCalls(calls: map<CallId, Call>): set<CallId> {
    set c | c in calls && calls[c].pc.Accepted?
  }

  /** Refused callers that have left the in-flight count but not yet reached the dropped count. */
  ghost function UncountedCalls(calls: map<CallId, Call>): set<CallId> {
    set c | c in calls && calls[c].pc.Counting?
  }

  ghost function Elements(s: seq<CallId>): set<CallId> {
    set c | c in s
  }

  lemma {:induction false} DistinctCard(s: seq<CallId>)
    requires forall p, q | 0 <= p < q < |s| :: s[p] != s[q]
    ensures |Elements(s)| == |s|
  {
    if s != [] {
      DistinctCard(s[1..]);
      assert Elements(s) == {s[0]} + Elements(s[1..]);
      assert s[0] !in s[1..];
    }
  }

  /** Every call is in exactly one of four groups. */
  lemma FourGroups(calls: map<CallId, Call>)
    ensures |calls.Keys| == |Region(calls)| + |AcceptedCalls(calls)| + |UncountedCalls(calls)| + |RefusedCalls(calls)|
  {
    var a, b, c, d := Region(calls), AcceptedCalls(calls), UncountedCalls(calls), RefusedCalls(calls);
    assert calls.Keys == a + (b + (c + d));
    assert a !! b + (c + d) && b !! c + d && c !! d;
    assert |c + d| == |c| + |d|;
    assert |b + (c + d)| == |b| + |c + d|;
  }

  /**
   The summary the destructor prints: if no call came after the stop flag, the records written and
   the records dropped, plus the refused callers still between their two counter updates, are all
   the calls there were.  The two printed numbers therefore add up to the number of calls exactly
   when no refused caller has yet to count itself.
   */
  lemma SummaryAddsUp(s: State, cap: nat, sinks: nat)
    requires cap >= 2 && Reachable(s, cap, sinks) && s.consumer.Exited?
    requires forall c | c in s.calls :: s.calls[c].early
    ensures s.deq + s.dropped + |UncountedCalls(s.calls)| == |s.calls|
    ensures s.deq + s.dropped == |s.calls| <==> UncountedCalls(s.calls) == {}
  {
    ReachableInv(s, cap, sinks);
    FourGroups(s.calls);
    assert Region(s.calls) == {};
    AllAcceptedConsumed(s);
  }

  lemma AllAcceptedConsumed(s: State)
    requires Inv(s) && s.consumer.Exited?
    requires forall c | c in s.calls :: s.calls[c].early
    ensures |AcceptedCalls(s.calls)| == s.deq
  {
    ClaimsDistinct(s);
    forall c | c in s.calls && s.calls[c].pc.Accepted? ensures c in s.claims {
      assert CallOk(s, c);
    }
    forall p | 0 <= p < |s.claims| ensures s.calls[s.claims[p]].pc.Accepted? {
      ClaimConsumed(s, p);
    }
    assert AcceptedCalls(s.calls) == Elements(s.claims);
    DistinctCard(s.claims);
    if |s.claims| > 0 {
      ClaimConsumed(s, |s.claims| - 1);
    }
  }

  lemma ClaimConsumed(s: State, p: nat)
    requires Shape(s) && PositionsOk(s) && StopOk(s) && s.consumer.Exited? && p < |s.claims|
    requires forall c | c in s.calls :: s.calls[c].early
    ensures s.claims[p] in s.calls && s.calls[s.claims[p]].pc.Accepted? && p < s.deq
  {
    assert PosOk(s, p);
  }

  // ----- idle flushes -----

  /**
   Whenever the consumer looks into the ring again after finding it empty, everything it has handed to
   the sinks has been flushed.
   */
  lemma IdleFlushes(s: State, cap: nat, sinks: nat, i: nat)
    requires cap >= 2 && Reachable(s, cap, sinks) && |s.slots| > 0 && i < sinks
    requires !s.consumer.Peeking? && !s.consumer.Advancing? && Next(s, ConsumerStep).consumer.Peeking?
    ensures i < |s.sinks| && s.sinks[i].flushed == |s.sinks[i].written| == s.deq
  {
    ReachableInv(s, cap, sinks);
    assert SinkOk(s, i);
    OnlyIdlePeeks(s);
  }

  lemma OnlyIdlePeeks(s: State)
    requires |s.slots| > 0 && !s.consumer.Peeking? && !s.consumer.Advancing? && Next(s, ConsumerStep).consumer.Peeking?
    ensures s.consumer.FlushingIdle? && s.consumer.k >= |s.sinks|
  {
  }

  // ----- flush -----

  /**
   When `flush` returns after its barrier, every position claimed before the call has been handed to
   every sink and pushed through a sink flush, whatever producers, consumer and other flushers do.
   */
  lemma FlushCoversEarlierClaims(s: State, cap: nat, sinks: nat, f: FlushId, p: nat, i: nat)
    requires cap >= 2 && Reachable(s, cap, sinks)
    requires f in s.flushers && s.flushers[f].pc.Returned? && p < s.flushers[f].start && i < sinks
    ensures i < |s.sinks| && p < s.sinks[i].flushed <= |s.sinks[i].written| && p < |s.claims|
    ensures s.claims[p] in s.calls && s.sinks[i].written[p] == s.calls[s.claims[p]].line
  {
    ReachableInv(s, cap, sinks);
    assert FlusherOk(s, f) && SinkOk(s, i);
  }

  /** The early return happens only once everything the consumer will ever write is flushed. */
  lemma EarlyReturnMeansFlushed(s: State, cap: nat, sinks: nat, f: FlushId, i: nat)
    requires cap >= 2 && Reachable(s, cap, sinks)
    requires f in s.flushers && s.flushers[f].pc.ReturnedEarly? && i < sinks
    ensures s.consumer.Exited? && i < |s.sinks| && s.sinks[i].flushed == |s.sinks[i].written| == s.deq
  {
    ReachableInv(s, cap, sinks);
    assert FlusherOk(s, f) && SinkOk(s, i);
  }
}

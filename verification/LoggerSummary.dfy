/**
 A run in which the destructor's summary (Support/lib/Log.cpp:462-475) misses a refused call: the ring
 is filled, one more call is refused and stops between its two counter updates, and the consumer drains.
 */
module LoggerSummary {
  import opened LoggerProtocol
  import opened LoggerInvariant
  import opened LoggerSteps
  import opened LoggerTheorems
  import opened LoggerProgress

  /** The first n calls were accepted. */
  ghost predicate FirstAccepted(calls: map<CallId, Call>, n: nat) {
    && (forall c :: c in calls <==> 0 <= c < n)
    && (forall c | 0 <= c < n :: calls[c].pc == Accepted(c) && calls[c].early)
  }

  lemma OneMoreAccepted(calls: map<CallId, Call>, n: nat, line: Line)
    requires FirstAccepted(calls, n)
    ensures FirstAccepted(calls[n := Call(line, Accepted(n), true)], n + 1)
  {
  }

  /** They hold the first n positions, and the consumer has not moved. */
  ghost predicate Filled(s: State, cap: nat, n: nat) {
    && n <= cap && |s.slots| == cap
    && s.enq == n && s.deq == 0 && s.consumer == Peeking && !s.stop && s.inFlight == 0 && s.dropped == 0
    && FirstAccepted(s.calls, n)
  }

  lemma FillOne(s0: State, schedule: seq<Action>, s: State, cap: nat, n: nat) returns (longer: seq<Action>, t: State)
    requires |s0.slots| > 0 && s == Run(s0, schedule) && Filled(s, cap, n) && n < cap && FreeOk(s)
    ensures t == Run(s0, longer) && Filled(t, cap, n + 1)
  {
    FreeSlot(s, n);
    var c: CallId := n;
    longer, t := SoloClaim(s0, schedule, s, c);
    longer, t := SoloPublish(s0, longer, t, c, n);
    OneMoreAccepted(s.calls, n, Line(7, []));
    assert t.calls == s.calls[n := Call(Line(7, []), Accepted(n), true)];
  }

  lemma {:induction false} Fill(cap: nat, sinks: nat, n: nat) returns (schedule: seq<Action>, s: State)
    requires cap >= 2 && n <= cap
    ensures s == Run(Init(cap, sinks), schedule) && Filled(s, cap, n) && Inv(s)
  {
    var s0 := Init(cap, sinks);
    InitOk(cap, sinks);
    if n == 0 {
      schedule, s := [], s0;
    } else {
      schedule, s := Fill(cap, sinks, n - 1);
      schedule, s := FillOne(s0, schedule, s, cap, n - 1);
      RunKeepsInv(s0, schedule);
    }
  }

  /** A new call that finds the slot taken, up to its second counter update. */
  lemma SoloRefused(s0: State, schedule: seq<Action>, s: State, c: CallId) returns (longer: seq<Action>, t: State)
    requires |s0.slots| > 0 && s == Run(s0, schedule)
    requires c !in s.calls && SlotAt(s, s.enq).sequence < s.enq
    ensures t == Run(s0, longer) && t == s.(calls := s.calls[c := Call(Line(7, []), Counting, !s.stop)])
  {
    ShortLine();
    longer := Extend(s0, schedule, s, Begin(c, SHORT));
    t := s.(inFlight := s.inFlight + 1, calls := s.calls[c := Call(Line(7, []), Loading, !s.stop)]);
    longer, t := SoloTurnedAway(s0, longer, t, c);
  }

  lemma SoloTurnedAway(s0: State, schedule: seq<Action>, s: State, c: CallId) returns (longer: seq<Action>, t: State)
    requires |s0.slots| > 0 && s == Run(s0, schedule)
    requires c in s.calls && s.calls[c].pc.Loading? && SlotAt(s, s.enq).sequence < s.enq
    ensures t == Run(s0, longer) && t == SetPc(s.(inFlight := s.inFlight - 1), c, Counting)
  {
    longer := Extend(s0, schedule, s, CallStep(c, false));
    LoadStep(s, c);
    t := SetPc(s, c, Checking(s.enq));
    longer := Extend(s0, longer, t, CallStep(c, false));
    RefuseStep(t, c, s.enq);
    t := SetPc(t, c, Refusing);
    longer := Extend(s0, longer, t, CallStep(c, false));
    UncountStep(t, c);
    t := SetPc(t.(inFlight := t.inFlight - 1), c, Counting);
  }

  lemma RefuseStep(s: State, c: CallId, p: nat)
    requires |s.slots| > 0 && c in s.calls && s.calls[c].pc == Checking(p) && SlotAt(s, p).sequence < p
    ensures Next(s, CallStep(c, false)) == SetPc(s, c, Refusing)
  {
  }

  lemma UncountStep(s: State, c: CallId)
    requires |s.slots| > 0 && c in s.calls && s.calls[c].pc == Refusing
    ensures Next(s, CallStep(c, false)) == SetPc(s.(inFlight := s.inFlight - 1), c, Counting)
  {
  }

  /** In a full ring the next position's slot still belongs to position 0. */
  lemma FullSlot(s: State, cap: nat)
    requires cap >= 2 && Filled(s, cap, cap) && Inv(s)
    ensures SlotAt(s, s.enq).sequence < s.enq
  {
    assert PosOk(s, 0);
    assert Ix(cap, cap) == Ix(cap, 0);
  }

  /**
   For every capacity from two the consumer can exit, all calls having begun before the stop flag, while
   the two numbers of the summary add up to less than the calls there were.
   */
  lemma SummaryCanMissCalls(cap: nat, sinks: nat) returns (schedule: seq<Action>)
    requires cap >= 2
    ensures var s := Run(Init(cap, sinks), schedule);
            && s.consumer.Exited? && (forall c | c in s.calls :: s.calls[c].early)
            && UncountedCalls(s.calls) != {}
            && s.deq + s.dropped < |s.calls|
  {
    var s0, s := Init(cap, sinks), Init(cap, sinks);
    schedule, s := Fill(cap, sinks, cap);
    FullSlot(s, cap);
    schedule, s := SoloRefused(s0, schedule, s, cap);
    schedule := Extend(s0, schedule, s, SetStop);
    s := s.(stop := true);
    InitOk(cap, sinks);
    RunKeepsInv(s0, schedule);
    var rest := ConsumerDrains(s);
    ConsumerRunLeaves(s, rest);
    RunAppend(s0, schedule, rest);
    schedule := schedule + rest;
    assert cap in UncountedCalls(s.calls);
    SummaryAddsUp(Run(s0, schedule), cap, sinks);
  }
}

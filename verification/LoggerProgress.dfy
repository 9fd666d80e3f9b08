/**
 The destructor's join can always return: whatever calls are in flight when the stop flag is set, each
 of them finishes by steps of its own, and after that the consumer thread, by steps of its own, hands
 over every remaining record and leaves its loop.
 */
module LoggerProgress {
  import opened LoggerProtocol
  import opened LoggerInvariant
  import opened LoggerSteps

  ghost predicate Quiescent(s: State) {
    Inv(s) && s.inFlight == 0
  }

  /** There is something left to do for the consumer. */
  ghost predicate Busy(s: State) {
    !s.consumer.Exited? && (s.stop || (s.deq < s.enq && !PastCount(s.consumer)))
  }

  /** How far the consumer's program counter is from its next advance, or from its exit. */
  ghost function Stage(s: State): nat {
    var more := s.deq < s.enq;
    match s.consumer
    case TestingStop => if more then 13 else 4
    case TestingInFlight => if more then 12 else 3
    case TestingCount => if more then 11 else 2
    case FlushingIdle(_) => if more then 10 else 6
    case Peeking => if more then 9 else 5
    case Reading(_) => 8
    case Writing(_, _) => 7
    case Releasing => 6
    case Advancing => 5
    case FlushingLast(_) => 1
    case Exited => 0
  }

  /** Bytes still to read, or sinks still to serve. */
  ghost function Left(s: State): nat
    requires ConsumerOk(s)
  {
    match s.consumer
    case Reading(got) => |FrontLine(s).text| - |got|
    case Writing(_, k) => |s.sinks| - k
    case FlushingIdle(k) => |s.sinks| - k
    case FlushingLast(k) => |s.sinks| - k
    case _ => 0
  }

  ghost predicate Closer(s: State, s': State)
    requires ConsumerOk(s) && ConsumerOk(s')
  {
    || s'.enq - s'.deq < s.enq - s.deq
    || (s'.enq - s'.deq == s.enq - s.deq && Stage(s') < Stage(s))
    || (s'.enq - s'.deq == s.enq - s.deq && Stage(s') == Stage(s) && Left(s') < Left(s))
  }

  /** With nobody in flight every claimed position has been published. */
  lemma FrontReady(s: State)
    requires Quiescent(s) && s.deq < s.enq && s.consumer.Peeking?
    ensures SlotAt(s, s.deq).sequence == s.deq + 1
  {
    assert PosOk(s, s.deq);
    var c := s.claims[s.deq];
    assert Region(s.calls) == {};
    assert c !in Region(s.calls);
  }

  lemma ProcessCloser(s: State)
    requires Quiescent(s) && Processing(s.consumer) && Busy(s) && Inv(ProcessNext(s))
    ensures Closer(s, ProcessNext(s))
  {
    if s.consumer.Peeking? {
      if s.deq < s.enq {
        FrontReady(s);
      } else {
        FreeSlot(s, s.deq);
      }
    } else {
      FrontSlot(s);
    }
  }

  lemma OthersCloser(s: State)
    requires Quiescent(s) && !Processing(s.consumer) && Busy(s) && Inv(ConsumerNext(s))
    ensures Closer(s, ConsumerNext(s))
  {
  }

  /** What a consumer step leaves alone, and what crossing the count test means. */
  ghost predicate Leaves(s: State, s': State) {
    && s'.enq == s.enq && s'.stop == s.stop && s'.inFlight == s.inFlight
    && s'.calls == s.calls && s'.dropped == s.dropped
    && (PastCount(s.consumer) ==> PastCount(s'.consumer) && s'.deq == s.deq)
    && (PastCount(s'.consumer) && !PastCount(s.consumer) ==> s.enq <= s.deq == s'.deq)
  }

  lemma ProcessLeaves(s: State)
    requires |s.slots| > 0 && Processing(s.consumer)
    ensures Leaves(s, ProcessNext(s))
  {
  }

  lemma ConsumeLeaves(s: State)
    requires |s.slots| > 0 && Consuming(s.consumer)
    ensures Leaves(s, ConsumeNext(s))
  {
  }

  lemma IdleLeaves(s: State)
    requires Idle(s.consumer)
    ensures Leaves(s, IdleNext(s))
  {
  }

  lemma ConsumerLeaves(s: State)
    requires |s.slots| > 0
    ensures Leaves(s, ConsumerNext(s))
  {
    if Processing(s.consumer) {
      ProcessLeaves(s);
    } else if Consuming(s.consumer) {
      ConsumeLeaves(s);
    } else {
      IdleLeaves(s);
    }
  }

  lemma ConsumerCloser(s: State)
    requires Quiescent(s) && Busy(s)
    ensures Quiescent(ConsumerNext(s)) && Closer(s, ConsumerNext(s))
  {
    NextKeepsInv(s, ConsumerStep);
    ConsumerLeaves(s);
    if Processing(s.consumer) {
      ProcessCloser(s);
    } else {
      OthersCloser(s);
    }
  }

  lemma {:induction false} RunCons(s: State, a: Action, rest: seq<Action>)
    requires |s.slots| > 0
    ensures Run(s, [a] + rest) == Run(Next(s, a), rest)
    decreases |rest|
  {
    var all := [a] + rest;
    if rest == [] {
      assert all[..0] == [];
    } else {
      RunCons(s, a, rest[..|rest| - 1]);
      assert all[..|all| - 1] == [a] + rest[..|rest| - 1];
    }
  }

  predicate ConsumerOnly(schedule: seq<Action>) {
    forall i | 0 <= i < |schedule| :: schedule[i].ConsumerStep?
  }

  /** The consumer alone consumes every claimed position, unless it is already leaving. */
  lemma {:induction false} ConsumerCatchesUp(s: State) returns (schedule: seq<Action>)
    requires Quiescent(s) && !PastCount(s.consumer)
    ensures ConsumerOnly(schedule) && Inv(Run(s, schedule)) && Run(s, schedule).deq >= s.enq
    decreases s.enq - s.deq, Stage(s), Left(s)
  {
    schedule := [];
    if s.deq < s.enq {
      ConsumerCloser(s);
      ConsumerLeaves(s);
      var rest := ConsumerCatchesUp(ConsumerNext(s));
      schedule := [ConsumerStep] + rest;
      RunCons(s, ConsumerStep, rest);
    }
  }

  /** The consumer alone reaches its exit with every claimed position consumed. */
  lemma {:induction false} ConsumerDrains(s: State) returns (schedule: seq<Action>)
    requires Quiescent(s) && s.stop
    ensures ConsumerOnly(schedule)
    ensures var t := Run(s, schedule); Inv(t) && t.consumer.Exited?
    ensures !PastCount(s.consumer) ==> Run(s, schedule).deq == s.enq
    decreases s.enq - s.deq, Stage(s), Left(s)
  {
    schedule := [];
    if !s.consumer.Exited? {
      ConsumerCloser(s);
      ConsumerLeaves(s);
      var s' := ConsumerNext(s);
      var rest := ConsumerDrains(s');
      schedule := [ConsumerStep] + rest;
      RunCons(s, ConsumerStep, rest);
      assert Next(s, ConsumerStep) == s';
      if PastCount(s'.consumer) {
        ExitKeepsDeq(s', rest);
      }
    }
  }

  lemma {:induction false} ExitKeepsDeq(s: State, schedule: seq<Action>)
    requires |s.slots| > 0 && PastCount(s.consumer)
    requires ConsumerOnly(schedule)
    ensures PastCount(Run(s, schedule).consumer) && Run(s, schedule).deq == s.deq
    decreases |schedule|
  {
    if schedule != [] {
      ExitKeepsDeq(s, schedule[..|schedule| - 1]);
      ConsumerLeaves(Run(s, schedule[..|schedule| - 1]));
    }
  }

  // ----- calls in flight -----

  /** How far a call is from leaving the in-flight count, if nobody disturbs it. */
  ghost function CallStage(s: State, call: Call): nat {
    var len := |call.line.text|;
    match call.pc
    case Checking(pos) => if pos == s.enq then 5 + len else 7 + len
    case Loading => 6 + len
    case Swapping(pos) => if pos == s.enq then 4 + len else 6 + len
    case Filling(_, done) => if done <= len then 3 + len - done else 3
    case Publishing(_) => 2
    case Leaving(_) => 1
    case Refusing => 1
    case _ => 0
  }

  /** A producer that has just loaded the current position finds its slot free, or the ring full. */
  lemma FreshCheck(s: State, pos: nat)
    requires Shape(s) && FreeOk(s) && PositionsOk(s) && pos == s.enq
    ensures SlotAt(s, pos).sequence <= pos
  {
    var q := InWindow(|s.slots|, pos, Released(s));
    assert SlotAt(s, q) == SlotAt(s, pos);
    if q < s.enq {
      assert PosOk(s, q);
    } else {
      FreeSlot(s, q);
    }
  }

  lemma CallCloser(s: State, c: CallId)
    requires Inv(s) && c in s.calls && InRegion(s.calls[c].pc)
    ensures c in CallNext(s, c, false).calls
    ensures CallStage(CallNext(s, c, false), CallNext(s, c, false).calls[c]) < CallStage(s, s.calls[c])
  {
    assert CallOk(s, c);
    if s.calls[c].pc.Checking? && s.calls[c].pc.pos == s.enq {
      FreshCheck(s, s.enq);
    }
    if s.calls[c].pc.Filling? {
      OwnerInWindow(s, c);
    }
  }

  lemma {:induction false} RunAppend(s: State, a: seq<Action>, b: seq<Action>)
    requires |s.slots| > 0
    ensures Run(s, a + b) == Run(Run(s, a), b)
    decreases |b|
  {
    if b == [] {
      assert a + b == a;
    } else {
      RunAppend(s, a, b[..|b| - 1]);
      assert (a + b)[..|a + b| - 1] == a + b[..|b| - 1];
    }
  }

  predicate CallsOnly(schedule: seq<Action>) {
    forall i | 0 <= i < |schedule| :: schedule[i].CallStep?
  }

  /** One call finishes by its own steps; nobody else's state changes but the counters. */
  lemma {:induction false} CallFinishes(s: State, c: CallId) returns (schedule: seq<Action>)
    requires Inv(s) && c in s.calls && InRegion(s.calls[c].pc)
    ensures CallsOnly(schedule)
    ensures var t := Run(s, schedule); Inv(t) && t.inFlight == s.inFlight - 1 && t.stop == s.stop && t.consumer == s.consumer
    decreases CallStage(s, s.calls[c])
  {
    var t := CallNext(s, c, false);
    CallCloser(s, c);
    CallMoves(s, c, false);
    NextKeepsInv(s, CallStep(c, false));
    var rest := [];
    if InRegion(t.calls[c].pc) {
      rest := CallFinishes(t, c);
    }
    schedule := [CallStep(c, false)] + rest;
    RunCons(s, CallStep(c, false), rest);
  }

  /** So do all that are in flight, one after the other. */
  lemma {:induction false} CallsFinish(s: State) returns (schedule: seq<Action>)
    requires Inv(s)
    ensures CallsOnly(schedule)
    ensures var t := Run(s, schedule); Quiescent(t) && t.stop == s.stop && t.consumer == s.consumer
    decreases s.inFlight
  {
    schedule := [];
    if s.inFlight > 0 {
      var c :| c in Region(s.calls);
      var first := CallFinishes(s, c);
      var rest := CallsFinish(Run(s, first));
      schedule := first + rest;
      RunAppend(s, first, rest);
    }
  }

  /**
   In every state after the stop flag, whatever calls are in flight, there is a continuation without
   new calls in which the consumer leaves its loop, so that the destructor's join returns; unless the
   consumer was leaving already, every position has been consumed then.
   */
  lemma JoinReturns(s: State) returns (schedule: seq<Action>)
    requires Inv(s) && s.stop
    ensures forall i | 0 <= i < |schedule| :: schedule[i].CallStep? || schedule[i].ConsumerStep?
    ensures var t := Run(s, schedule);
            && Inv(t) && t.inFlight == 0 && t.consumer.Exited?
            && (!PastCount(s.consumer) ==> t.deq == t.enq)
  {
    var calls := CallsFinish(s);
    var t := Run(s, calls);
    var rest := ConsumerDrains(t);
    schedule := calls + rest;
    RunAppend(s, calls, rest);
    ConsumerRunLeaves(t, rest);
  }

  lemma {:induction false} ConsumerRunLeaves(s: State, schedule: seq<Action>)
    requires |s.slots| > 0 && ConsumerOnly(schedule)
    ensures var t := Run(s, schedule);
            t.enq == s.enq && t.inFlight == s.inFlight && t.stop == s.stop && t.calls == s.calls && t.dropped == s.dropped
    decreases |schedule|
  {
    if schedule != [] {
      ConsumerRunLeaves(s, schedule[..|schedule| - 1]);
      ConsumerLeaves(Run(s, schedule[..|schedule| - 1]));
    }
  }
}

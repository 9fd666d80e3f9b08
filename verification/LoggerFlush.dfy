/**
 Whether `flush` returns (Support/lib/Log.cpp:547-563): it waits without a limit for the consumer to
 pass the position it loaded, and a consumer that has left its loop passes nothing any more.
 */
module LoggerFlush {
  import opened LoggerProtocol
  import opened LoggerInvariant
  import opened LoggerSteps
  import opened LoggerTheorems
  import opened LoggerProgress

  // ----- flushers keep their target -----

  /** A flusher that waits keeps waiting for the same position, or has passed the barrier. */
  lemma WaitingStep(s: State, a: Action, f: FlushId, t: nat)
    requires |s.slots| > 0 && f in s.flushers && s.flushers[f].pc == Waiting(t) && s.deq < t
    ensures var s' := Next(s, a); f in s'.flushers && s'.flushers[f].pc == Waiting(t)
  {
    match a
    case CallStep(c, spurious) => if c in s.calls { CallMoves(s, c, spurious); }
    case ConsumerStep => ConsumerKeepsFlushers(s);
    case _ =>
  }

  lemma ProcessKeepsFlushers(s: State)
    requires |s.slots| > 0 && Processing(s.consumer)
    ensures ProcessNext(s).flushers == s.flushers
  {
  }

  lemma IdleKeepsFlushers(s: State)
    ensures IdleNext(s).flushers == s.flushers
  {
  }

  lemma ConsumerKeepsFlushers(s: State)
    requires |s.slots| > 0
    ensures ConsumerNext(s).flushers == s.flushers
  {
    if Processing(s.consumer) {
      ProcessKeepsFlushers(s);
    } else {
      IdleKeepsFlushers(s);
    }
  }

  /** Past its last look at the enqueue count the consumer stays where it is, whoever steps. */
  lemma LeavingStep(s: State, a: Action)
    requires |s.slots| > 0 && PastCount(s.consumer)
    ensures PastCount(Next(s, a).consumer) && Next(s, a).deq == s.deq
  {
    match a
    case CallStep(c, spurious) => if c in s.calls { CallMoves(s, c, spurious); }
    case FlushStep(f) => if f in s.flushers { FlusherIsQuiet(s, f); }
    case ConsumerStep => ConsumerLeaves(s);
    case _ =>
  }

  lemma {:induction false} NeverPassed(s: State, schedule: seq<Action>, f: FlushId, t: nat)
    requires |s.slots| > 0 && PastCount(s.consumer) && s.deq < t
    requires f in s.flushers && s.flushers[f].pc == Waiting(t)
    ensures var r := Run(s, schedule);
            PastCount(r.consumer) && r.deq == s.deq && f in r.flushers && r.flushers[f].pc == Waiting(t)
    decreases |schedule|
  {
    if schedule != [] {
      var most, last := schedule[..|schedule| - 1], schedule[|schedule| - 1];
      NeverPassed(s, most, f, t);
      WaitingStep(Run(s, most), last, f, t);
      LeavingStep(Run(s, most), last);
    }
  }

  // ----- a flusher that can return -----

  predicate Returns(s: State, f: FlushId) {
    f in s.flushers && s.flushers[f].pc.Returned?
  }

  lemma {:induction false} SinksFlushed(s: State, f: FlushId) returns (schedule: seq<Action>)
    requires |s.slots| > 0 && f in s.flushers && s.flushers[f].pc.FlushingSinks?
    ensures Returns(Run(s, schedule), f)
    decreases |s.sinks| - s.flushers[f].pc.k
  {
    var s' := FlushNext(s, f);
    var rest := [];
    if s.flushers[f].pc.k < |s.sinks| {
      rest := SinksFlushed(s', f);
    }
    schedule := [FlushStep(f)] + rest;
    RunCons(s, FlushStep(f), rest);
  }

  lemma PassedReturns(s: State, f: FlushId, t: nat) returns (schedule: seq<Action>)
    requires |s.slots| > 0 && f in s.flushers && s.flushers[f].pc == Waiting(t) && t <= s.deq
    ensures Returns(Run(s, schedule), f)
  {
    var rest := SinksFlushed(FlushNext(s, f), f);
    schedule := [FlushStep(f)] + rest;
    RunCons(s, FlushStep(f), rest);
  }

  lemma {:induction false} OthersRun(s: State, schedule: seq<Action>)
    requires |s.slots| > 0 && forall i | 0 <= i < |schedule| :: schedule[i].CallStep? || schedule[i].ConsumerStep?
    ensures Run(s, schedule).flushers == s.flushers
    decreases |schedule|
  {
    if schedule != [] {
      var most, last := schedule[..|schedule| - 1], schedule[|schedule| - 1];
      OthersRun(s, most);
      var r := Run(s, most);
      match last
      case CallStep(c, spurious) => if c in r.calls { CallMoves(r, c, spurious); }
      case _ => ConsumerKeepsFlushers(r);
    }
  }

  /** As long as the consumer is not leaving, the calls in flight and the consumer let the flush return. */
  lemma WaitEnds(s: State, f: FlushId, t: nat) returns (schedule: seq<Action>)
    requires Inv(s) && !PastCount(s.consumer) && f in s.flushers && s.flushers[f].pc == Waiting(t)
    ensures Returns(Run(s, schedule), f)
  {
    var calls := CallsFinish(s);
    var quiet := Run(s, calls);
    var steps := ConsumerCatchesUp(quiet);
    var caught := Run(quiet, steps);
    OthersRun(s, calls);
    OthersRun(quiet, steps);
    CallsKeepClaims(s, calls);
    assert FlusherOk(s, f);
    var last := PassedReturns(caught, f, t);
    schedule := calls + (steps + last);
    RunAppend(quiet, steps, last);
    RunAppend(s, calls, steps + last);
  }

  lemma {:induction false} CallsKeepClaims(s: State, schedule: seq<Action>)
    requires |s.slots| > 0 && CallsOnly(schedule)
    ensures Run(s, schedule).enq >= s.enq
    decreases |schedule|
  {
    if schedule != [] {
      var most, last := schedule[..|schedule| - 1], schedule[|schedule| - 1];
      CallsKeepClaims(s, most);
      var r := Run(s, most);
      if last.c in r.calls {
        CallMoves(r, last.c, last.spurious);
      }
    }
  }

  ghost predicate CanReturn(s: State, f: FlushId)
    requires |s.slots| > 0
  {
    exists schedule :: Returns(Run(s, schedule), f)
  }

  ghost predicate WaitsForever(s: State, f: FlushId, t: nat)
    requires |s.slots| > 0
  {
    forall schedule :: f in Run(s, schedule).flushers && Run(s, schedule).flushers[f].pc == Waiting(t)
  }

  lemma Stuck(s: State, f: FlushId, t: nat)
    requires |s.slots| > 0 && PastCount(s.consumer) && s.deq < t
    requires f in s.flushers && s.flushers[f].pc == Waiting(t)
    ensures WaitsForever(s, f, t) && !CanReturn(s, f)
  {
    forall schedule ensures f in Run(s, schedule).flushers && Run(s, schedule).flushers[f].pc == Waiting(t) {
      NeverPassed(s, schedule, f, t);
    }
  }

  lemma Free(s: State, f: FlushId, t: nat)
    requires Inv(s) && f in s.flushers && s.flushers[f].pc == Waiting(t)
    requires !PastCount(s.consumer) || t <= s.deq
    ensures CanReturn(s, f)
  {
    var schedule;
    if t <= s.deq {
      schedule := PassedReturns(s, f, t);
    } else {
      schedule := WaitEnds(s, f, t);
    }
    assert Returns(Run(s, schedule), f);
  }

  /**
   In every reachable state a waiting flush returns in some continuation if and only if the consumer has
   not taken its last look at the enqueue count, or had passed the flush's target by then.  In the other
   case it waits in every continuation.
   */
  lemma FlushReturnsExactly(s: State, cap: nat, sinks: nat, f: FlushId, t: nat)
    requires cap >= 2 && Reachable(s, cap, sinks) && |s.slots| > 0
    requires f in s.flushers && s.flushers[f].pc == Waiting(t)
    ensures CanReturn(s, f) <==> !PastCount(s.consumer) || t <= s.deq
    ensures !CanReturn(s, f) ==> WaitsForever(s, f, t)
  {
    ReachableInv(s, cap, sinks);
    if !PastCount(s.consumer) || t <= s.deq {
      Free(s, f, t);
    } else {
      Stuck(s, f, t);
    }
  }

  /** Such flushes exist: one that counts a record claimed after the consumer's exit. */
  lemma FlushCanWaitForever(cap: nat) returns (schedule: seq<Action>, f: FlushId)
    requires cap >= 2
    ensures WaitsForever(Run(Init(cap, 1), schedule), f, 1)
  {
    var s0, s := Init(cap, 1), Init(cap, 1);
    schedule, s := SoloExit(s0);
    schedule, s := SoloClaim(s0, schedule, s, 0);
    f := 0;
    schedule := Extend(s0, schedule, s, FlushBegin(f));
    s := s.(flushers := s.flushers[f := Flusher(s.enq, Entering)]);
    schedule := Extend(s0, schedule, s, FlushStep(f));
    s := s.(flushers := s.flushers[f := Flusher(s.enq, Targeting)]);
    schedule := Extend(s0, schedule, s, FlushStep(f));
    s := s.(flushers := s.flushers[f := Flusher(s.enq, Waiting(1))]);
    Stuck(s, f, 1);
  }

  // ----- after the join -----

  /** A flush that has not begun, or has not gone beyond its first question. */
  predicate NotWaiting(s: State, f: FlushId) {
    f in s.flushers ==> s.flushers[f].pc.Entering? || s.flushers[f].pc.ReturnedEarly?
  }

  lemma JoinedStep(s: State, a: Action, f: FlushId)
    requires |s.slots| > 0 && s.joined && NotWaiting(s, f)
    ensures Next(s, a).joined && NotWaiting(Next(s, a), f)
  {
    match a
    case CallStep(c, spurious) => if c in s.calls { CallMoves(s, c, spurious); }
    case FlushStep(g) => if g in s.flushers { FlusherIsQuiet(s, g); }
    case ConsumerStep => ConsumerKeepsFlushers(s);
    case _ =>
  }

  /**
   Once the destructor has joined the consumer no flush that begins, or has yet to ask, ever waits, whatever
   the other threads do: its first step returns.
   */
  lemma {:induction false} FlushAfterJoinReturns(s: State, schedule: seq<Action>, f: FlushId)
    requires |s.slots| > 0 && s.joined && NotWaiting(s, f)
    ensures var t := Run(s, schedule);
            && t.joined && NotWaiting(t, f)
            && (f in t.flushers ==>
                  f in Next(t, FlushStep(f)).flushers && Next(t, FlushStep(f)).flushers[f].pc.ReturnedEarly?)
    decreases |schedule|
  {
    if schedule != [] {
      var most, last := schedule[..|schedule| - 1], schedule[|schedule| - 1];
      FlushAfterJoinReturns(s, most, f);
      JoinedStep(Run(s, most), last, f);
    }
  }
}

/**
 Runs in which the 64 bit counters of the ring mislead the logger: after 2^64 - 1 records the shutdown
 test and the flush barrier, and for a producer stalled since the first record the two steps of `claim`.
 Up to the step that goes wrong they are runs on words and on unlimited counters alike.
 */
module LoggerTurns {
  import opened Arithmetic
  import opened LoggerProtocol
  import opened LoggerInvariant
  import opened LoggerSteps
  import opened LoggerTheorems
  import opened LoggerCounters
  import opened LoggerWords

  // ----- one record, from its claim to its consumption -----

  lemma NoDiff(n: nat)
    ensures SignedDiff(Word(n), Word(n)) == 0
  {
    DiffOfWords(n, n);
    WrapOnce(0);
  }

  lemma BehindByOne(n: nat)
    ensures SignedDiff(Word(n), Word(n + 1)) == -1
  {
    DiffOfWords(n, n + 1);
    WrapOnce(-1);
  }

  lemma FreeCheck(s: State, c: CallId, p: nat)
    requires |s.slots| > 0 && c in s.calls && s.calls[c].pc == Checking(p) && SlotAt(s, p).sequence == p
    ensures WordNext(s, CallStep(c, false)) == Next(s, CallStep(c, false)) == SetPc(s, c, Swapping(p))
  {
    NoDiff(p);
    CheckStep(s, c, p);
  }

  lemma CurrentSwap(s: State, c: CallId)
    requires |s.slots| > 0 && c in s.calls && s.calls[c].pc == Swapping(s.enq)
    ensures WordNext(s, CallStep(c, false)) == Next(s, CallStep(c, false))
    ensures Next(s, CallStep(c, false)) == SetPc(s.(enq := s.enq + 1, claims := s.claims + [c]), c, Filling(s.enq, 0))
  {
    SwapStep(s, c);
  }

  /** A new call, up to the load of the position. */
  lemma BothBegin(s0: State, schedule: seq<Action>, s: State, c: CallId) returns (longer: seq<Action>, t: State)
    requires Both(s0, schedule, s) && |s.slots| > 0 && c !in s.calls
    ensures Both(s0, longer, t)
    ensures t == s.(inFlight := s.inFlight + 1, calls := s.calls[c := Call(Line(7, []), Checking(s.enq), !s.stop)])
  {
    ShortLine();
    longer := BothExtend(s0, schedule, s, Begin(c, SHORT));
    t := s.(inFlight := s.inFlight + 1, calls := s.calls[c := Call(Line(7, []), Loading, !s.stop)]);
    longer := BothExtend(s0, longer, t, CallStep(c, false));
    LoadStep(t, c);
    t := SetPc(t, c, Checking(t.enq));
  }

  /** A call that has just loaded a free position claims it. */
  lemma BothSwap(s0: State, schedule: seq<Action>, s: State, c: CallId) returns (longer: seq<Action>, t: State)
    requires Both(s0, schedule, s) && |s.slots| > 0
    requires c in s.calls && s.calls[c].pc == Checking(s.enq) && SlotAt(s, s.enq).sequence == s.enq
    ensures Both(s0, longer, t)
    ensures t == SetPc(s.(enq := s.enq + 1, claims := s.claims + [c]), c, Filling(s.enq, 0))
  {
    FreeCheck(s, c, s.enq);
    longer := BothExtend(s0, schedule, s, CallStep(c, false));
    t := SetPc(s, c, Swapping(s.enq));
    CurrentSwap(t, c);
    longer := BothExtend(s0, longer, t, CallStep(c, false));
    t := SetPc(t.(enq := s.enq + 1, claims := s.claims + [c]), c, Filling(s.enq, 0));
  }

  lemma BothPublish(s0: State, schedule: seq<Action>, s: State, c: CallId, p: nat) returns (longer: seq<Action>, t: State)
    requires Both(s0, schedule, s) && |s.slots| > 0
    requires c in s.calls && s.calls[c].line == Line(7, []) && s.calls[c].pc == Filling(p, 0)
    ensures Both(s0, longer, t) && |t.slots| == |s.slots|
    ensures t == s.(slots := t.slots, inFlight := s.inFlight - 1, calls := s.calls[c := s.calls[c].(pc := Accepted(p))])
    ensures SlotAt(t, p).sequence == p + 1 && SlotAt(t, p).item == Item(7, 0)
  {
    longer := BothExtend(s0, schedule, s, CallStep(c, false));
    StoreStep(s, c, p);
    t := SetPc(SetSlot(s, p, SlotAt(s, p).(item := Item(7, 0))), c, Publishing(p));
    longer := BothExtend(s0, longer, t, CallStep(c, false));
    PublishStep(t, c, p);
    t := SetPc(SetSlot(t, p, SlotAt(t, p).(sequence := p + 1)), c, Leaving(p));
    longer := BothExtend(s0, longer, t, CallStep(c, false));
    LeaveStep(t, c, p);
    t := SetPc(t.(inFlight := t.inFlight - 1), c, Accepted(p));
  }

  /** A new call that finds its position free, from beginning to end. */
  lemma BothCall(s0: State, schedule: seq<Action>, s: State, c: CallId) returns (longer: seq<Action>, t: State)
    requires Both(s0, schedule, s) && |s.slots| > 0 && c !in s.calls && SlotAt(s, s.enq).sequence == s.enq
    ensures Both(s0, longer, t) && |t.slots| == |s.slots|
    ensures t == s.(slots := t.slots, enq := s.enq + 1, claims := s.claims + [c],
                    calls := s.calls[c := Call(Line(7, []), Accepted(s.enq), !s.stop)])
    ensures SlotAt(t, s.enq).sequence == s.enq + 1 && SlotAt(t, s.enq).item == Item(7, 0)
  {
    longer, t := BothBegin(s0, schedule, s, c);
    longer, t := BothSwap(s0, longer, t, c);
    longer, t := BothPublish(s0, longer, t, c, s.enq);
  }

  lemma {:induction false} BothWrite(s0: State, schedule: seq<Action>, s: State, line: Line, k: nat)
    returns (longer: seq<Action>, t: State)
    requires Both(s0, schedule, s) && |s.slots| > 0 && s.consumer == Writing(line, k) && k <= |s.sinks|
    ensures Both(s0, longer, t) && t == s.(sinks := t.sinks, consumer := Releasing) && |t.sinks| == |s.sinks|
    decreases |s.sinks| - k
  {
    longer := BothExtend(s0, schedule, s, ConsumerStep);
    t := ProcessNext(s);
    if k < |s.sinks| {
      longer, t := BothWrite(s0, longer, t, line, k + 1);
    }
  }

  /** The consumer takes the record at the front. */
  lemma BothTake(s0: State, schedule: seq<Action>, s: State) returns (longer: seq<Action>, t: State)
    requires Both(s0, schedule, s) && |s.slots| > 0 && s.consumer == Peeking
    requires SlotAt(s, s.deq).sequence == s.deq + 1 && SlotAt(s, s.deq).item == Item(7, 0)
    ensures Both(s0, longer, t) && t == s.(consumer := Writing(Line(7, []), 0))
  {
    NoDiff(s.deq + 1);
    longer := BothExtend(s0, schedule, s, ConsumerStep);
    t := s.(consumer := Reading([]));
    longer := BothExtend(s0, longer, t, ConsumerStep);
    t := s.(consumer := Writing(Line(7, []), 0));
  }

  /** And hands its slot back. */
  lemma BothRelease(s0: State, schedule: seq<Action>, s: State) returns (longer: seq<Action>, t: State)
    requires Both(s0, schedule, s) && |s.slots| > 0 && s.consumer == Releasing
    ensures Both(s0, longer, t) && |t.slots| == |s.slots|
    ensures t == s.(slots := t.slots, deq := s.deq + 1, consumer := Peeking)
  {
    longer := BothExtend(s0, schedule, s, ConsumerStep);
    t := SetSlot(s, s.deq, SlotAt(s, s.deq).(sequence := s.deq + |s.slots|)).(consumer := Advancing);
    longer := BothExtend(s0, longer, t, ConsumerStep);
    t := t.(deq := t.deq + 1, consumer := Peeking);
  }

  lemma BothConsume(s0: State, schedule: seq<Action>, s: State) returns (longer: seq<Action>, t: State)
    requires Both(s0, schedule, s) && |s.slots| > 0 && s.consumer == Peeking
    requires SlotAt(s, s.deq).sequence == s.deq + 1 && SlotAt(s, s.deq).item == Item(7, 0)
    ensures Both(s0, longer, t) && |t.slots| == |s.slots| && |t.sinks| == |s.sinks|
    ensures t == s.(slots := t.slots, sinks := t.sinks, deq := s.deq + 1)
  {
    longer, t := BothTake(s0, schedule, s);
    longer, t := BothWrite(s0, longer, t, Line(7, []), 0);
    longer, t := BothRelease(s0, longer, t);
  }

  // ----- any number of records -----

  /** The first n records have come and gone; the calls of `kept` have not moved. */
  ghost predicate AtRest(s: State, cap: nat, sinks: nat, n: nat, kept: map<CallId, Call>, inFlight: int) {
    && |s.slots| == cap && |s.sinks| == sinks && s.enq == n == s.deq && s.consumer == Peeking
    && !s.stop && !s.joined && s.flushers == map[] && s.inFlight == inFlight
    && (forall c | c in kept :: c == 0 && c in s.calls && s.calls[c] == kept[c])
    && (forall c | c in s.calls :: c <= n)
  }

  lemma OneRecord(s0: State, schedule: seq<Action>, s: State, cap: nat, sinks: nat, n: nat, kept: map<CallId, Call>, inFlight: int)
    returns (longer: seq<Action>, t: State)
    requires Both(s0, schedule, s) && cap > 0 && AtRest(s, cap, sinks, n, kept, inFlight) && SlotAt(s, n).sequence == n
    ensures Both(s0, longer, t) && AtRest(t, cap, sinks, n + 1, kept, inFlight)
  {
    var c: CallId := n + 1;
    longer, t := BothCall(s0, schedule, s, c);
    longer, t := BothConsume(s0, longer, t);
  }

  lemma {:induction false} Records(cap: nat, sinks: nat, schedule: seq<Action>, s: State, kept: map<CallId, Call>, inFlight: int, n: nat)
    returns (longer: seq<Action>, t: State)
    requires cap >= 2 && Both(Init(cap, sinks), schedule, s) && AtRest(s, cap, sinks, 0, kept, inFlight)
    ensures Both(Init(cap, sinks), longer, t) && AtRest(t, cap, sinks, n, kept, inFlight) && Inv(t)
    decreases n
  {
    InitOk(cap, sinks);
    if n == 0 {
      longer, t := schedule, s;
    } else {
      longer, t := Records(cap, sinks, schedule, s, kept, inFlight, n - 1);
      FreeSlot(t, n - 1);
      longer, t := OneRecord(Init(cap, sinks), longer, t, cap, sinks, n - 1, kept, inFlight);
    }
    RunKeepsInv(Init(cap, sinks), longer);
  }

  lemma TurnOver()
    ensures Word(WORD) == 0 && Word(WORD - 1) == WORD - 1
  {
  }

  // ----- the shutdown test -----

  lemma EmptyPeek(s: State)
    requires |s.slots| > 0 && s.consumer == Peeking && SlotAt(s, s.deq).sequence == s.deq
    ensures WordNext(s, ConsumerStep) == Next(s, ConsumerStep) == s.(consumer := TestingStop)
  {
    BehindByOne(s.deq);
  }

  /** The logger is stopped, and the consumer makes the first two parts of its test. */
  lemma BothStop(s0: State, schedule: seq<Action>, s: State) returns (longer: seq<Action>, t: State)
    requires Both(s0, schedule, s) && |s.slots| > 0 && s.consumer == TestingStop && s.inFlight == 0
    ensures Both(s0, longer, t) && t == s.(stop := true, consumer := TestingCount)
  {
    longer := BothExtend(s0, schedule, s, SetStop);
    t := s.(stop := true);
    longer := BothExtend(s0, longer, t, ConsumerStep);
    t := t.(consumer := TestingInFlight);
    longer := BothExtend(s0, longer, t, ConsumerStep);
    t := t.(consumer := TestingCount);
  }

  /** From an empty ring the consumer has gone on to the test, a call has come, and the logger is stopped. */
  lemma StopAfterCall(s0: State, schedule: seq<Action>, s: State, c: CallId) returns (longer: seq<Action>, t: State)
    requires Both(s0, schedule, s) && |s.slots| > 0 && s.consumer == Peeking && !s.stop && s.inFlight == 0
    requires c !in s.calls && s.deq == s.enq && SlotAt(s, s.enq).sequence == s.enq
    ensures Both(s0, longer, t)
    ensures t == s.(slots := t.slots, enq := s.enq + 1, claims := s.claims + [c], stop := true, consumer := TestingCount,
                    calls := s.calls[c := Call(Line(7, []), Accepted(s.enq), true)])
  {
    EmptyPeek(s);
    longer := BothExtend(s0, schedule, s, ConsumerStep);
    t := s.(consumer := TestingStop);
    longer, t := BothCall(s0, longer, t, c);
    longer, t := BothStop(s0, longer, t);
  }

  /**
   For every capacity from two there is a run to the count test with a record unread that the words do
   not show: the record's call began before the stop flag and was accepted.
   */
  lemma CountTestFails(cap: nat, sinks: nat) returns (schedule: seq<Action>, s: State, c: CallId)
    requires cap >= 2
    ensures Both(Init(cap, sinks), schedule, s) && Inv(s) && |s.sinks| == sinks
    ensures s.consumer.TestingCount? && s.enq == WORD && s.deq == WORD - 1
    ensures c in s.calls && s.calls[c].early && s.calls[c].pc == Accepted(s.deq)
    ensures Word(s.enq) <= Word(s.deq)
  {
    var s0 := Init(cap, sinks);
    schedule, s := Records(cap, sinks, [], s0, map[], 0, WORD - 1);
    FreeSlot(s, s.enq);
    c := WORD;
    schedule, s := StopAfterCall(s0, schedule, s, c);
    InitOk(cap, sinks);
    RunKeepsInv(s0, schedule);
    TurnOver();
  }

  lemma WordExtend(s0: State, schedule: seq<Action>, s: State, a: Action) returns (longer: seq<Action>)
    requires |s0.slots| > 0 && s == WordRun(s0, schedule) && |s.slots| > 0
    ensures longer == schedule + [a] && WordRun(s0, longer) == WordNext(s, a)
  {
    longer := schedule + [a];
    assert longer[..|longer| - 1] == schedule;
  }

  /** Each sink has been given n lines. */
  ghost predicate Given(s: State, n: nat) {
    forall i | 0 <= i < |s.sinks| :: |s.sinks[i].written| == n
  }

  lemma {:induction false} WordLastFlush(s0: State, schedule: seq<Action>, s: State, k: nat, n: nat)
    returns (longer: seq<Action>, t: State)
    requires |s0.slots| > 0 && s == WordRun(s0, schedule) && |s.slots| > 0
    requires s.consumer == FlushingLast(k) && k <= |s.sinks| && Given(s, n)
    ensures t == WordRun(s0, longer) && t == s.(sinks := t.sinks, consumer := Exited)
    ensures |t.sinks| == |s.sinks| && Given(t, n)
    decreases |s.sinks| - k
  {
    longer := WordExtend(s0, schedule, s, ConsumerStep);
    t := IdleNext(s);
    if k < |s.sinks| {
      longer, t := WordLastFlush(s0, longer, t, k + 1, n);
    }
  }

  lemma WordCallKeeps(s: State, c: CallId, spurious: bool)
    requires |s.slots| > 0 && c in s.calls
    ensures var t := WordNext(s, CallStep(c, spurious)); t.consumer == s.consumer && t.sinks == s.sinks
  {
    CallMoves(s, c, spurious);
  }

  lemma WordFlushKeeps(s: State, f: FlushId, n: nat)
    requires |s.slots| > 0 && f in s.flushers && Given(s, n)
    ensures var t := WordNext(s, FlushStep(f)); t.consumer == s.consumer && |t.sinks| == |s.sinks| && Given(t, n)
  {
    var t := WordNext(s, FlushStep(f));
    FlusherIsQuiet(s, f);
    forall i | 0 <= i < |t.sinks| ensures |t.sinks[i].written| == n {
      assert t.sinks[i].written == s.sinks[i].written;
    }
  }

  lemma WordExitedStep(s: State, a: Action, n: nat)
    requires |s.slots| > 0 && s.consumer.Exited? && Given(s, n)
    ensures var t := WordNext(s, a); t.consumer.Exited? && |t.sinks| == |s.sinks| && Given(t, n)
  {
    match a
    case CallStep(c, spurious) => if c in s.calls { WordCallKeeps(s, c, spurious); }
    case FlushStep(f) => if f in s.flushers { WordFlushKeeps(s, f, n); }
    case _ =>
  }

  /** On words too the exit is final. */
  lemma {:induction false} WordExitIsFinal(s: State, schedule: seq<Action>, n: nat)
    requires |s.slots| > 0 && s.consumer.Exited? && Given(s, n)
    ensures var t := WordRun(s, schedule); t.consumer.Exited? && |t.sinks| == |s.sinks| && Given(t, n)
    decreases |schedule|
  {
    if schedule != [] {
      var most := schedule[..|schedule| - 1];
      WordExitIsFinal(s, most, n);
      WordExitedStep(WordRun(s, most), schedule[|schedule| - 1], n);
    }
  }

  lemma CountTestGiven(s: State)
    requires Inv(s) && s.consumer.TestingCount?
    ensures Given(s, s.deq)
  {
    forall i | 0 <= i < |s.sinks| ensures |s.sinks[i].written| == s.deq {
      assert SinkOk(s, i);
    }
  }

  /**
   On words the shutdown promise fails: for every capacity from two there is a run after which the
   consumer has left, a call that began before the stop flag was told its record was accepted, and the
   record's position is beyond everything any sink is ever given.
   */
  lemma EarlyRecordLost(cap: nat, sinks: nat) returns (schedule: seq<Action>, c: CallId)
    requires cap >= 2
    ensures var s := WordRun(Init(cap, sinks), schedule);
            && s.consumer.Exited? && c in s.calls && s.calls[c].early && s.calls[c].pc == Accepted(WORD - 1)
            && forall more :: Given(WordRun(s, more), WORD - 1)
  {
    var s0, s := Init(cap, sinks), Init(cap, sinks);
    schedule, s, c := CountTestFails(cap, sinks);
    CountTestGiven(s);
    schedule := WordExtend(s0, schedule, s, ConsumerStep);
    s := s.(consumer := FlushingLast(0));
    schedule, s := WordLastFlush(s0, schedule, s, 0, WORD - 1);
    forall more ensures Given(WordRun(s, more), WORD - 1) {
      WordExitIsFinal(s, more, WORD - 1);
    }
  }

  // ----- the flush barrier -----

  lemma BothFlushWaits(s0: State, schedule: seq<Action>, s: State, f: FlushId) returns (longer: seq<Action>, t: State)
    requires Both(s0, schedule, s) && |s.slots| > 0 && !s.joined && f !in s.flushers
    ensures Both(s0, longer, t) && t == s.(flushers := s.flushers[f := Flusher(s.enq, Waiting(s.enq))])
  {
    longer := BothExtend(s0, schedule, s, FlushBegin(f));
    t := s.(flushers := s.flushers[f := Flusher(s.enq, Entering)]);
    longer := BothExtend(s0, longer, t, FlushStep(f));
    t := s.(flushers := s.flushers[f := Flusher(s.enq, Targeting)]);
    longer := BothExtend(s0, longer, t, FlushStep(f));
    t := s.(flushers := s.flushers[f := Flusher(s.enq, Waiting(s.enq))]);
  }

  /** A run after which a flush passes the barrier on words while a record claimed before it is unread. */
  lemma FlushTestFails(cap: nat, sinks: nat) returns (schedule: seq<Action>, s: State, f: FlushId)
    requires cap >= 2
    ensures Both(Init(cap, sinks), schedule, s)
    ensures f in s.flushers && s.flushers[f] == Flusher(WORD, Waiting(WORD)) && s.deq == WORD - 1
    ensures f in WordNext(s, FlushStep(f)).flushers
    ensures WordNext(s, FlushStep(f)).flushers[f].pc == FlushingSinks(WORD, 0)
  {
    var s0 := Init(cap, sinks);
    schedule, s := Records(cap, sinks, [], s0, map[], 0, WORD - 1);
    FreeSlot(s, s.enq);
    schedule, s := BothCall(s0, schedule, s, WORD);
    f := 0;
    schedule, s := BothFlushWaits(s0, schedule, s, f);
    TurnOver();
  }

  // ----- a stalled producer -----

  lemma StalledCheck(cap: nat, sinks: nat) returns (schedule: seq<Action>, s: State, kept: map<CallId, Call>)
    requires cap >= 2
    ensures Both(Init(cap, sinks), schedule, s) && AtRest(s, cap, sinks, 0, kept, 1)
    ensures kept == map[0 := Call(Line(7, []), Checking(0), true)]
    ensures SlotAt(s, 0).sequence == 0
  {
    kept := map[0 := Call(Line(7, []), Checking(0), true)];
    schedule, s := BothBegin(Init(cap, sinks), [], Init(cap, sinks), 0);
  }

  lemma StalledSwap(cap: nat, sinks: nat) returns (schedule: seq<Action>, s: State, kept: map<CallId, Call>)
    requires cap >= 2
    ensures Both(Init(cap, sinks), schedule, s) && AtRest(s, cap, sinks, 0, kept, 1)
    ensures kept == map[0 := Call(Line(7, []), Swapping(0), true)]
  {
    schedule, s, kept := StalledCheck(cap, sinks);
    FreeCheck(s, 0, 0);
    schedule := BothExtend(Init(cap, sinks), schedule, s, CallStep(0, false));
    s := SetPc(s, 0, Swapping(0));
    kept := map[0 := Call(Line(7, []), Swapping(0), true)];
  }

  /**
   A producer that stalls between its check and its swap for a whole turn wins a position on words that
   it has not checked.
   */
  lemma SwapTestFails(cap: nat, sinks: nat) returns (schedule: seq<Action>, s: State)
    requires cap >= 2
    ensures Both(Init(cap, sinks), schedule, s)
    ensures 0 in s.calls && s.calls[0].pc == Swapping(0) && s.enq == WORD
    ensures 0 in WordNext(s, CallStep(0, false)).calls
    ensures WordNext(s, CallStep(0, false)).calls[0].pc == Filling(WORD, 0)
  {
    var kept;
    schedule, s, kept := StalledSwap(cap, sinks);
    schedule, s := Records(cap, sinks, schedule, s, kept, 1, WORD);
    TurnOver();
  }

  /** Half a turn ahead of a position its slot reads as behind it. */
  lemma FarSlotReadsFull(q: int)
    requires HALF <= q < WORD
    ensures SignedDiff(Word(q), Word(0)) < 0
  {
    DiffOfWords(q, 0);
    WrapLater(q);
    ModOfSmall(q, WORD);
  }

  lemma FarSlot(s: State, cap: nat)
    requires 2 <= cap <= HALF && Inv(s) && |s.slots| == cap && s.enq == HALF == s.deq && s.consumer.Peeking?
    ensures HALF <= SlotAt(s, 0).sequence < WORD
  {
    var q := InWindow(cap, 0, HALF);
    FreeSlot(s, q);
  }

  /** A producer that stalls before its check for half a turn is refused on words by an empty ring. */
  lemma ClaimTestFails(cap: nat, sinks: nat) returns (schedule: seq<Action>, s: State)
    requires 2 <= cap <= HALF
    ensures Both(Init(cap, sinks), schedule, s)
    ensures 0 in s.calls && s.calls[0].pc == Checking(0) && s.enq == s.deq == HALF
    ensures 0 in WordNext(s, CallStep(0, false)).calls
    ensures WordNext(s, CallStep(0, false)).calls[0].pc == Refusing
  {
    var kept;
    schedule, s, kept := StalledCheck(cap, sinks);
    schedule, s := Records(cap, sinks, schedule, s, kept, 1, HALF);
    FarSlot(s, cap);
    FarSlotReadsFull(SlotAt(s, 0).sequence);
  }
}

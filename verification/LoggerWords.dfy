/**
 The logger on 64 bit words: the protocol with each of the code's five tests on counters made on words.
 As long as few enough positions have been claimed it is the protocol on unlimited counters, step for
 step, so that everything proved there holds of it.
 */
module LoggerWords {
  import opened LoggerProtocol
  import opened LoggerSteps
  import opened LoggerTheorems
  import opened LoggerCounters

  // ----- the five tests -----

  /** `claim`: full, free, or neither; see MpscRingBuffer.h:85-94. */
  function WordCheck(s: State, c: CallId, pos: nat): (r: State)
    requires |s.slots| > 0 && c in s.calls
    ensures r.slots == s.slots && r.enq == s.enq
  {
    var diff := SignedDiff(Word(SlotAt(s, pos).sequence), Word(pos));
    SetPc(s, c, if diff == 0 then Swapping(pos) else if diff < 0 then Refusing else Loading)
  }

  /** The compare-and-swap; the position won is the current one, of which `pos` is the word. */
  function WordSwap(s: State, c: CallId, pos: nat, spurious: bool): (r: State)
    requires c in s.calls
    ensures r.slots == s.slots && r.enq >= s.enq
  {
    if Word(s.enq) == Word(pos) && !spurious
    then SetPc(s.(enq := s.enq + 1, claims := s.claims + [c]), c, Filling(s.enq, 0))
    else SetPc(s, c, Checking(s.enq))
  }

  /** `peek` */
  function WordPeek(s: State): (r: State)
    requires |s.slots| > 0
    ensures r.slots == s.slots && r.enq == s.enq
  {
    var diff := SignedDiff(Word(SlotAt(s, s.deq).sequence), Word(s.deq + 1));
    s.(consumer := if diff == 0 then Reading([]) else TestingStop)
  }

  /** The count part of the shutdown test. */
  function WordCount(s: State): (r: State)
    ensures r.slots == s.slots && r.enq == s.enq
  {
    s.(consumer := if Word(s.enq) <= Word(s.deq) then FlushingLast(0) else FlushingIdle(0))
  }

  /** The wait of `flush`. */
  function WordWait(s: State, f: FlushId, t: nat): (r: State)
    requires f in s.flushers
    ensures r.slots == s.slots && r.enq == s.enq
  {
    if Word(s.deq) < Word(t) then s
    else s.(flushers := s.flushers[f := s.flushers[f].(pc := FlushingSinks(t, 0))])
  }

  function WordNext(s: State, a: Action): (r: State)
    requires |s.slots| > 0
    ensures |r.slots| == |s.slots|
  {
    match a
    case CallStep(c, spurious) =>
      if c in s.calls && s.calls[c].pc.Checking? then WordCheck(s, c, s.calls[c].pc.pos)
      else if c in s.calls && s.calls[c].pc.Swapping? then WordSwap(s, c, s.calls[c].pc.pos, spurious)
      else Next(s, a)
    case ConsumerStep =>
      if s.consumer.Peeking? then WordPeek(s) else if s.consumer.TestingCount? then WordCount(s) else Next(s, a)
    case FlushStep(f) =>
      if f in s.flushers && s.flushers[f].pc.Waiting? then WordWait(s, f, s.flushers[f].pc.target) else Next(s, a)
    case _ => Next(s, a)
  }

  /** The state a schedule leads to on words. */
  function WordRun(s: State, schedule: seq<Action>): (r: State)
    requires |s.slots| > 0
    ensures |r.slots| > 0
    decreases |schedule|
  {
    if schedule == [] then s else WordNext(WordRun(s, schedule[..|schedule| - 1]), schedule[|schedule| - 1])
  }

  // ----- where they agree -----

  lemma SmallWord(n: nat)
    requires n < WORD
    ensures Word(n) == n
  {
  }

  lemma CheckAgrees(s: State, c: CallId, pos: nat, spurious: bool)
    requires |s.slots| > 0 && c in s.calls && s.calls[c].pc == Checking(pos) && Decides(SlotAt(s, pos).sequence, pos)
    ensures WordCheck(s, c, pos) == Next(s, CallStep(c, spurious))
  {
  }

  lemma SwapAgrees(s: State, c: CallId, pos: nat, spurious: bool)
    requires |s.slots| > 0 && c in s.calls && s.calls[c].pc == Swapping(pos) && ToldApart(s.enq, pos)
    ensures WordSwap(s, c, pos, spurious) == Next(s, CallStep(c, spurious))
  {
  }

  lemma PeekAgrees(s: State)
    requires |s.slots| > 0 && s.consumer.Peeking?
    requires SignedDiff(Word(SlotAt(s, s.deq).sequence), Word(s.deq + 1)) == 0 <==> SlotAt(s, s.deq).sequence == s.deq + 1
    ensures WordPeek(s) == Next(s, ConsumerStep)
  {
  }

  lemma CountAgrees(s: State)
    requires |s.slots| > 0 && s.consumer.TestingCount? && (Word(s.enq) <= Word(s.deq) <==> s.enq <= s.deq)
    ensures WordCount(s) == Next(s, ConsumerStep)
  {
  }

  lemma WaitAgrees(s: State, f: FlushId, t: nat)
    requires |s.slots| > 0 && f in s.flushers && s.flushers[f].pc == Waiting(t) && (Word(s.deq) < Word(t) <==> s.deq < t)
    ensures WordWait(s, f, t) == Next(s, FlushStep(f))
  {
  }

  lemma CallAgrees(s: State, cap: nat, sinks: nat, c: CallId, spurious: bool)
    requires 2 <= cap <= HALF && Reachable(s, cap, sinks) && |s.slots| > 0 && s.enq <= HALF - cap
    ensures WordNext(s, CallStep(c, spurious)) == Next(s, CallStep(c, spurious))
  {
    if c in s.calls && s.calls[c].pc.Checking? {
      var pos := s.calls[c].pc.pos;
      ClaimTestExactly(s, cap, sinks, c, pos, SlotAt(s, pos).sequence);
      CheckAgrees(s, c, pos, spurious);
    } else if c in s.calls && s.calls[c].pc.Swapping? {
      LoadedBefore(s, cap, sinks, c);
      SmallWord(s.enq);
      SmallWord(s.calls[c].pc.pos);
      SwapAgrees(s, c, s.calls[c].pc.pos, spurious);
    }
  }

  lemma ConsumerAgrees(s: State, cap: nat, sinks: nat)
    requires 2 <= cap <= HALF && Reachable(s, cap, sinks) && |s.slots| > 0 && s.enq <= HALF - cap
    ensures WordNext(s, ConsumerStep) == Next(s, ConsumerStep)
  {
    if s.consumer.Peeking? {
      PeekTestExact(s, cap, sinks);
      PeekAgrees(s);
    } else if s.consumer.TestingCount? {
      CountsApart(s, cap, sinks);
      SmallWord(s.enq);
      SmallWord(s.deq);
      CountAgrees(s);
    }
  }

  lemma FlusherAgrees(s: State, cap: nat, sinks: nat, f: FlushId)
    requires 2 <= cap <= HALF && Reachable(s, cap, sinks) && |s.slots| > 0 && s.enq <= HALF - cap
    ensures WordNext(s, FlushStep(f)) == Next(s, FlushStep(f))
  {
    if f in s.flushers && s.flushers[f].pc.Waiting? {
      CountsApart(s, cap, sinks);
      TargetLoaded(s, cap, sinks, f);
      SmallWord(s.deq);
      SmallWord(s.flushers[f].pc.target);
      WaitAgrees(s, f, s.flushers[f].pc.target);
    }
  }

  /**
   While at most 2^63 less a capacity of positions have been claimed, all five tests decide on words as
   on unlimited counters, in every reachable state: every action has the same effect.
   */
  lemma WordsDecide(s: State, cap: nat, sinks: nat, a: Action)
    requires 2 <= cap <= HALF && Reachable(s, cap, sinks) && |s.slots| > 0 && s.enq <= HALF - cap
    ensures WordNext(s, a) == Next(s, a)
  {
    match a
    case CallStep(c, spurious) => CallAgrees(s, cap, sinks, c, spurious);
    case ConsumerStep => ConsumerAgrees(s, cap, sinks);
    case FlushStep(f) => FlusherAgrees(s, cap, sinks, f);
    case _ =>
  }

  lemma NextClaims(s: State, a: Action)
    requires |s.slots| > 0
    ensures Next(s, a).enq >= s.enq
  {
    match a
    case CallStep(c, spurious) => if c in s.calls { CallMoves(s, c, spurious); }
    case ConsumerStep => ConsumerClaimsNothing(s);
    case FlushStep(f) => if f in s.flushers { FlusherIsQuiet(s, f); }
    case _ =>
  }

  lemma ProcessClaimsNothing(s: State)
    requires |s.slots| > 0 && Processing(s.consumer)
    ensures ProcessNext(s).enq == s.enq
  {
  }

  lemma IdleClaimsNothing(s: State)
    ensures IdleNext(s).enq == s.enq
  {
  }

  lemma ConsumerClaimsNothing(s: State)
    requires |s.slots| > 0
    ensures ConsumerNext(s).enq == s.enq
  {
    if Processing(s.consumer) {
      ProcessClaimsNothing(s);
    } else {
      IdleClaimsNothing(s);
    }
  }

  lemma WordNextClaims(s: State, a: Action)
    requires |s.slots| > 0
    ensures WordNext(s, a).enq >= s.enq
  {
    NextClaims(s, a);
  }

  /** So does every run that claims no more than that. */
  lemma {:induction false} WordRunAgrees(cap: nat, sinks: nat, schedule: seq<Action>)
    requires 2 <= cap <= HALF && WordRun(Init(cap, sinks), schedule).enq <= HALF - cap
    ensures WordRun(Init(cap, sinks), schedule) == Run(Init(cap, sinks), schedule)
    decreases |schedule|
  {
    if schedule != [] {
      var most, last := schedule[..|schedule| - 1], schedule[|schedule| - 1];
      var s := WordRun(Init(cap, sinks), most);
      WordNextClaims(s, last);
      WordRunAgrees(cap, sinks, most);
      assert Reachable(s, cap, sinks);
      WordsDecide(s, cap, sinks, last);
    }
  }

  // ----- both runs at once -----

  /** A schedule that leads to the state on words and on unlimited counters alike. */
  ghost predicate Both(s0: State, schedule: seq<Action>, s: State) {
    |s0.slots| > 0 && s == Run(s0, schedule) && s == WordRun(s0, schedule)
  }

  lemma BothExtend(s0: State, schedule: seq<Action>, s: State, a: Action) returns (longer: seq<Action>)
    requires Both(s0, schedule, s) && WordNext(s, a) == Next(s, a)
    ensures longer == schedule + [a] && Both(s0, longer, Next(s, a))
  {
    longer := schedule + [a];
    assert longer[..|longer| - 1] == schedule;
  }
}

/** Every action keeps the invariant. */
module LoggerSteps {
  import opened LoggerProtocol
  import opened LoggerInvariant

  // ----- producer steps -----

  /** What a producer step can change at all. */
  ghost predicate CallDelta(s: State, s': State, c: CallId) {
    && OneMoved(s.calls, s'.calls, c)
    && s.claims <= s'.claims && |s'.claims| - |s.claims| == s'.enq - s.enq
    && s'.deq == s.deq && s'.consumer == s.consumer && s'.sinks == s.sinks
    && s'.flushers == s.flushers && s'.stop == s.stop && s'.joined == s.joined
    && s'.inFlight - s.inFlight == Bit(InRegion(s'.calls[c].pc)) - Bit(InRegion(s.calls[c].pc))
    && s'.dropped - s.dropped == Bit(s'.calls[c].pc.Refused?) - Bit(s.calls[c].pc.Refused?)
  }

  ghost predicate OneMoved(calls: map<CallId, Call>, calls': map<CallId, Call>, c: CallId) {
    && c in calls && calls'.Keys == calls.Keys
    && (forall d | d in calls && d != c :: calls'[d] == calls[d])
    && calls'[c].line == calls[c].line && calls'[c].early == calls[c].early
    && PcDelta(calls[c].pc, calls'[c].pc)
  }

  predicate PcDelta(was: CallPc, now: CallPc) {
    && (Published(was) ==> Published(now) && now.pos == was.pos)
    && (!InRegion(was) ==> !InRegion(now) && (now.Accepted? <==> was.Accepted?))
    && (was.Refused? ==> now.Refused?)
  }

  function Bit(b: bool): int {
    if b then 1 else 0
  }

  lemma PcMoves(calls: map<CallId, Call>, c: CallId, pc: CallPc)
    requires c in calls && PcDelta(calls[c].pc, pc)
    ensures OneMoved(calls, calls[c := calls[c].(pc := pc)], c)
  {
  }

  lemma CallMoves(s: State, c: CallId, spurious: bool)
    requires |s.slots| > 0 && c in s.calls
    ensures CallDelta(s, CallNext(s, c, spurious), c)
  {
    if Claiming(s.calls[c].pc) {
      ClaimMoves(s, c, spurious);
    } else if Owning(s.calls[c].pc) {
      FillMoves(s, c);
    } else {
      LeaveMoves(s, c);
    }
  }

  lemma ClaimMoves(s: State, c: CallId, spurious: bool)
    requires |s.slots| > 0 && c in s.calls && Claiming(s.calls[c].pc)
    ensures CallDelta(s, ClaimNext(s, c, spurious), c)
  {
    PcMoves(s.calls, c, ClaimNext(s, c, spurious).calls[c].pc);
  }

  lemma FillMoves(s: State, c: CallId)
    requires |s.slots| > 0 && c in s.calls && Owning(s.calls[c].pc)
    ensures CallDelta(s, FillNext(s, c), c)
    ensures FillNext(s, c).enq == s.enq && FillNext(s, c).claims == s.claims
  {
    PcMoves(s.calls, c, FillNext(s, c).calls[c].pc);
  }

  lemma LeaveMoves(s: State, c: CallId)
    requires |s.slots| > 0 && c in s.calls && !Claiming(s.calls[c].pc) && !Owning(s.calls[c].pc)
    ensures CallDelta(s, LeaveNext(s, c), c)
    ensures LeaveNext(s, c).enq == s.enq && LeaveNext(s, c).claims == s.claims
  {
    PcMoves(s.calls, c, LeaveNext(s, c).calls[c].pc);
  }

  // Claiming: no slot changes.

  /**
   What reading a slot's sequence tells a claiming producer: equality means the position is inside
   the window, a smaller value means that all capacity slots are claimed and unreleased.
   */
  lemma CheckIsTruthful(s: State, c: CallId)
    requires Shape(s) && FreeOk(s) && PositionsOk(s)
    requires c in s.calls && s.calls[c].pc.Checking? && CallOk(s, c)
    ensures var pos := s.calls[c].pc.pos;
            && (SlotAt(s, pos).sequence == pos ==> Released(s) <= pos < Released(s) + |s.slots|)
            && (SlotAt(s, pos).sequence < pos ==> s.enq == Released(s) + |s.slots|)
  {
    var pos := s.calls[c].pc.pos;
    var q := InWindow(|s.slots|, pos, Released(s));
    assert SlotAt(s, q) == SlotAt(s, pos);
    if q < s.enq {
      assert PosOk(s, q);
    } else {
      assert SlotAt(s, q).sequence == q;
    }
  }

  lemma ClaimKeepsShape(s: State, c: CallId, spurious: bool)
    requires Shape(s) && FreeOk(s) && c in s.calls && CallOk(s, c) && Claiming(s.calls[c].pc)
    ensures Shape(ClaimNext(s, c, spurious)) && FreeOk(ClaimNext(s, c, spurious))
  {
    var s' := ClaimNext(s, c, spurious);
    forall p: nat | s'.enq <= p < Released(s') + |s'.slots| ensures SlotAt(s', p).sequence == p {
      assert SlotAt(s, p).sequence == p;
    }
  }

  lemma ClaimKeepsPositions(s: State, c: CallId, spurious: bool)
    requires Shape(s) && FreeOk(s) && PositionsOk(s) && c in s.calls && CallOk(s, c) && Claiming(s.calls[c].pc)
    ensures PositionsOk(ClaimNext(s, c, spurious))
  {
    var s' := ClaimNext(s, c, spurious);
    ClaimMoves(s, c, spurious);
    forall p | 0 <= p < |s'.claims| ensures PosOk(s', p) {
      if p < s.enq {
        assert PosOk(s, p) && SlotAt(s', p) == SlotAt(s, p);
      } else {
        assert SlotAt(s, p).sequence == p;
      }
    }
  }

  /** The facts `CallOk` records about the other calls only get easier. */
  lemma OthersOk(s: State, s': State, c: CallId)
    requires CallsOk(s) && CallDelta(s, s', c) && |s'.slots| == |s.slots|
    ensures forall d | d in s'.calls && d != c :: CallOk(s', d)
  {
    forall d | d in s'.calls && d != c ensures CallOk(s', d) {
      assert CallOk(s, d);
    }
  }

  lemma ClaimKeepsOwn(s: State, c: CallId, spurious: bool)
    requires Shape(s) && FreeOk(s) && PositionsOk(s) && c in s.calls && CallOk(s, c) && Claiming(s.calls[c].pc)
    ensures c in ClaimNext(s, c, spurious).calls && CallOk(ClaimNext(s, c, spurious), c)
  {
    if s.calls[c].pc.Checking? {
      CheckIsTruthful(s, c);
    }
  }

  lemma ClaimKeepsCalls(s: State, c: CallId, spurious: bool)
    requires Shape(s) && FreeOk(s) && PositionsOk(s) && CallsOk(s) && c in s.calls && Claiming(s.calls[c].pc)
    ensures CallsOk(ClaimNext(s, c, spurious))
  {
    ClaimMoves(s, c, spurious);
    OthersOk(s, ClaimNext(s, c, spurious), c);
    ClaimKeepsOwn(s, c, spurious);
  }

  // Filling: only the caller's own slot changes.

  /** A call that still owns its slot works on an unreleased position. */
  lemma OwnerInWindow(s: State, c: CallId)
    requires Shape(s) && PositionsOk(s) && c in s.calls && CallOk(s, c) && Owning(s.calls[c].pc)
    ensures var p := s.calls[c].pc.pos;
            Released(s) <= p < s.enq && s.claims[p] == c && SlotOk(SlotAt(s, p), s.calls[c], p)
  {
    assert PosOk(s, s.calls[c].pc.pos);
  }

  lemma FillSlot(s: State, c: CallId)
    requires Shape(s) && PositionsOk(s) && c in s.calls && CallOk(s, c) && Owning(s.calls[c].pc)
    ensures var s', p := FillNext(s, c), s.calls[c].pc.pos;
            && Claimed(s'.calls[c].pc) && s'.calls[c].pc.pos == p
            && SlotOk(SlotAt(s', p), s'.calls[c], p)
            && |SlotAt(s', p).arena| == |SlotAt(s, p).arena|
            && s'.slots == s.slots[Ix(|s.slots|, p) := SlotAt(s', p)]
  {
    OwnerInWindow(s, c);
  }

  lemma FillKeepsShape(s: State, c: CallId)
    requires Shape(s) && FreeOk(s) && PositionsOk(s) && c in s.calls && CallOk(s, c) && Owning(s.calls[c].pc)
    ensures Shape(FillNext(s, c)) && FreeOk(FillNext(s, c))
  {
    var s' := FillNext(s, c);
    FillMoves(s, c);
    FillSlot(s, c);
    OwnerInWindow(s, c);
    forall p: nat | s'.enq <= p < Released(s') + |s'.slots| ensures SlotAt(s', p).sequence == p {
      assert SlotAt(s, p).sequence == p;
      SlotDiffers(|s.slots|, p, s.calls[c].pc.pos);
    }
  }

  lemma FillKeepsPositions(s: State, c: CallId)
    requires Shape(s) && PositionsOk(s) && c in s.calls && CallOk(s, c) && Owning(s.calls[c].pc)
    ensures PositionsOk(FillNext(s, c))
  {
    var s' := FillNext(s, c);
    FillMoves(s, c);
    FillSlot(s, c);
    OwnerInWindow(s, c);
    forall p | 0 <= p < |s'.claims| ensures PosOk(s', p) {
      assert PosOk(s, p);
      if p != s.calls[c].pc.pos && p >= Released(s) {
        SlotDiffers(|s.slots|, p, s.calls[c].pc.pos);
      }
    }
  }

  lemma FillKeepsCalls(s: State, c: CallId)
    requires Shape(s) && PositionsOk(s) && CallsOk(s) && c in s.calls && Owning(s.calls[c].pc)
    ensures CallsOk(FillNext(s, c))
  {
    FillMoves(s, c);
    OthersOk(s, FillNext(s, c), c);
    assert CallOk(s, c);
    FillSlot(s, c);
  }

  // Leaving: only counters change.

  lemma LeaveKeepsSlots(s: State, c: CallId)
    requires Shape(s) && FreeOk(s) && PositionsOk(s)
    requires c in s.calls && !Claiming(s.calls[c].pc) && !Owning(s.calls[c].pc)
    ensures var s' := LeaveNext(s, c); Shape(s') && FreeOk(s') && PositionsOk(s')
  {
    var s' := LeaveNext(s, c);
    LeaveMoves(s, c);
    forall p | 0 <= p < |s'.claims| ensures PosOk(s', p) {
      assert PosOk(s, p) && SlotAt(s', p) == SlotAt(s, p);
    }
    forall p: nat | s'.enq <= p < Released(s') + |s'.slots| ensures SlotAt(s', p).sequence == p {
      assert SlotAt(s, p).sequence == p;
    }
  }

  lemma LeaveKeepsCalls(s: State, c: CallId)
    requires Shape(s) && CallsOk(s) && c in s.calls && !Claiming(s.calls[c].pc) && !Owning(s.calls[c].pc)
    ensures CallsOk(LeaveNext(s, c))
  {
    LeaveMoves(s, c);
    OthersOk(s, LeaveNext(s, c), c);
    assert CallOk(s, c);
  }

  // What the other parties rely on survives any producer step.

  lemma CallKeepsConsumer(s: State, s': State, c: CallId)
    requires ConsumerOk(s) && CallDelta(s, s', c)
    ensures ConsumerOk(s')
  {
  }

  lemma CallKeepsSinks(s: State, s': State, c: CallId)
    requires SinksOk(s) && CallDelta(s, s', c)
    ensures SinksOk(s')
  {
    forall i | 0 <= i < |s'.sinks| ensures SinkOk(s', i) {
      assert SinkOk(s, i);
    }
  }

  lemma CallKeepsFlushers(s: State, s': State, c: CallId)
    requires FlushersOk(s) && CallDelta(s, s', c)
    ensures FlushersOk(s')
  {
    forall f | f in s'.flushers ensures FlusherOk(s', f) {
      assert FlusherOk(s, f);
    }
  }

  lemma CallKeepsStop(s: State, s': State, c: CallId)
    requires StopOk(s) && CallDelta(s, s', c)
    ensures StopOk(s')
  {
  }

  lemma CallKeepsCounts(s: State, s': State, c: CallId)
    requires CountsOk(s) && CallDelta(s, s', c)
    ensures CountsOk(s')
  {
    CountOne(Region(s.calls), Region(s'.calls), c);
    CountOne(RefusedCalls(s.calls), RefusedCalls(s'.calls), c);
  }

  lemma CountOne(a: set<CallId>, b: set<CallId>, c: CallId)
    requires forall d | d != c :: d in a <==> d in b
    ensures |b| - |a| == Bit(c in b) - Bit(c in a)
  {
    assert a - {c} == b - {c};
    assert a == if c in a then (a - {c}) + {c} else a - {c};
    assert b == if c in b then (b - {c}) + {c} else b - {c};
  }

  lemma CallKeepsInv(s: State, c: CallId, spurious: bool)
    requires Inv(s) && c in s.calls
    ensures Inv(CallNext(s, c, spurious))
  {
    var s' := CallNext(s, c, spurious);
    CallMoves(s, c, spurious);
    assert CallOk(s, c);
    if Claiming(s.calls[c].pc) {
      ClaimKeepsShape(s, c, spurious);
      ClaimKeepsPositions(s, c, spurious);
      ClaimKeepsCalls(s, c, spurious);
    } else if Owning(s.calls[c].pc) {
      FillKeepsShape(s, c);
      FillKeepsPositions(s, c);
      FillKeepsCalls(s, c);
    } else {
      LeaveKeepsSlots(s, c);
      LeaveKeepsCalls(s, c);
    }
    CallKeepsConsumer(s, s', c);
    CallKeepsSinks(s, s', c);
    CallKeepsFlushers(s, s', c);
    CallKeepsStop(s, s', c);
    CallKeepsCounts(s, s', c);
  }

  // ----- consumer steps -----

  /** Nothing the producers can see changes. */
  ghost predicate Quiet(s: State, s': State) {
    && s'.slots == s.slots && s'.enq == s.enq && s'.claims == s.claims && s'.calls == s.calls
    && s'.inFlight == s.inFlight && s'.dropped == s.dropped
    && Released(s') == Released(s)
  }

  lemma QuietKeeps(s: State, s': State)
    requires Quiet(s, s') && Shape(s) && FreeOk(s) && PositionsOk(s) && CallsOk(s) && CountsOk(s)
    ensures Shape(s') && FreeOk(s') && PositionsOk(s') && CallsOk(s') && CountsOk(s')
  {
    forall p | 0 <= p < |s'.claims| ensures PosOk(s', p) {
      assert PosOk(s, p) && SlotAt(s', p) == SlotAt(s, p);
    }
    forall p: nat | s'.enq <= p < Released(s') + |s'.slots| ensures SlotAt(s', p).sequence == p {
      assert SlotAt(s, p).sequence == p;
    }
    forall d | d in s'.calls ensures CallOk(s', d) {
      assert CallOk(s, d);
    }
  }

  ghost predicate SinksGrow(a: seq<Sink>, b: seq<Sink>) {
    |a| == |b| && forall i | 0 <= i < |a| :: a[i].flushed <= b[i].flushed
  }

  /** A flusher's progress is never undone. */
  lemma FlushersStay(s: State, s': State)
    requires FlushersOk(s) && s'.flushers == s.flushers && s.enq <= s'.enq && s.deq <= s'.deq
    requires SinksGrow(s.sinks, s'.sinks) && (s.joined ==> s'.joined)
    ensures FlushersOk(s')
  {
    forall f | f in s'.flushers ensures FlusherOk(s', f) {
      assert FlusherOk(s, f);
    }
  }

  /** What the front slot holds is the record of the call that claimed it. */
  lemma FrontSlot(s: State)
    requires Shape(s) && FreeOk(s) && PositionsOk(s) && Processing(s.consumer)
    requires s.consumer.Peeking? ==> SlotAt(s, s.deq).sequence == s.deq + 1
    requires !s.consumer.Peeking? ==> FrontOk(s)
    ensures FrontOk(s) && Complete(SlotAt(s, s.deq), FrontLine(s))
  {
    if s.deq == s.enq {
      FreeSlot(s, s.deq);
    }
    assert PosOk(s, s.deq);
  }

  lemma FreeSlot(s: State, p: nat)
    requires |s.slots| > 0 && FreeOk(s) && s.enq <= p < Released(s) + |s.slots|
    ensures SlotAt(s, p).sequence == p
  {
  }

  lemma ProcessKeepsConsumer(s: State)
    requires Shape(s) && FreeOk(s) && PositionsOk(s) && ConsumerOk(s) && Processing(s.consumer)
    ensures Quiet(s, ProcessNext(s)) && ConsumerOk(ProcessNext(s))
  {
    if !s.consumer.Peeking? || SlotAt(s, s.deq).sequence == s.deq + 1 {
      FrontSlot(s);
    }
  }

  lemma WriteKeepsSinks(s: State, s': State, k: nat)
    requires SinksOk(s) && ConsumerOk(s) && s.consumer.Writing? && s.consumer.k == k < |s.sinks|
    requires s' == s.(sinks := s.sinks[k := s.sinks[k].(written := s.sinks[k].written + [s.consumer.line])],
                      consumer := Writing(s.consumer.line, k + 1))
    ensures SinksOk(s') && SinksGrow(s.sinks, s'.sinks)
  {
    forall i | 0 <= i < |s'.sinks| ensures SinkOk(s', i) {
      assert SinkOk(s, i);
    }
  }

  lemma ProcessKeepsSinks(s: State)
    requires |s.slots| > 0 && SinksOk(s) && ConsumerOk(s) && Processing(s.consumer)
    ensures SinksOk(ProcessNext(s)) && SinksGrow(s.sinks, ProcessNext(s).sinks)
  {
    if s.consumer.Writing? && s.consumer.k < |s.sinks| {
      WriteKeepsSinks(s, ProcessNext(s), s.consumer.k);
    } else {
      SinksOkAgain(s, ProcessNext(s));
    }
  }

  lemma ProcessKeepsInv(s: State)
    requires Inv(s) && Processing(s.consumer)
    ensures Inv(ProcessNext(s))
  {
    var s' := ProcessNext(s);
    ProcessKeepsConsumer(s);
    QuietKeeps(s, s');
    ProcessKeepsSinks(s);
    FlushersStay(s, s');
  }

  /** Handing a slot back moves the window by one position. */
  lemma ReleaseKeepsWindow(s: State)
    requires Shape(s) && FreeOk(s) && FrontOk(s) && s.consumer.Releasing?
    ensures Shape(ConsumeNext(s)) && FreeOk(ConsumeNext(s))
  {
    var s', cap := ConsumeNext(s), |s.slots|;
    forall p: nat | s'.enq <= p < Released(s') + cap ensures SlotAt(s', p).sequence == p {
      if p < s.deq + cap {
        FreeSlot(s, p);
        SlotDiffers(cap, p, s.deq);
      } else {
        assert Ix(cap, p) == Ix(cap, s.deq);
      }
    }
  }

  lemma ReleaseKeepsPositions(s: State)
    requires Shape(s) && PositionsOk(s) && CallsOk(s) && FrontOk(s) && s.consumer.Releasing?
    ensures PositionsOk(ConsumeNext(s)) && CallsOk(ConsumeNext(s))
  {
    var s' := ConsumeNext(s);
    forall p | 0 <= p < |s'.claims| ensures PosOk(s', p) {
      assert PosOk(s, p);
      if p > s.deq {
        SlotDiffers(|s.slots|, p, s.deq);
      }
    }
    forall d | d in s'.calls ensures CallOk(s', d) {
      assert CallOk(s, d);
    }
  }

  lemma ConsumeKeepsOthers(s: State)
    requires |s.slots| > 0 && ConsumerOk(s) && SinksOk(s) && FlushersOk(s) && StopOk(s) && CountsOk(s)
    requires Consuming(s.consumer)
    ensures var s' := ConsumeNext(s);
            ConsumerOk(s') && SinksOk(s') && FlushersOk(s') && StopOk(s') && CountsOk(s')
  {
    var s' := ConsumeNext(s);
    FlushersStay(s, s');
    forall i | 0 <= i < |s'.sinks| ensures SinkOk(s', i) {
      assert SinkOk(s, i);
    }
  }

  lemma ConsumeKeepsInv(s: State)
    requires Inv(s) && Consuming(s.consumer)
    ensures Inv(ConsumeNext(s))
  {
    ConsumeKeepsOthers(s);
    if s.consumer.Releasing? {
      ReleaseKeepsWindow(s);
      ReleaseKeepsPositions(s);
    } else {
      QuietKeeps(s, ConsumeNext(s));
    }
  }

  predicate Idle(pc: ConsumerPc) {
    !Processing(pc) && !Consuming(pc)
  }

  /** Flushing one sink, whoever does it. */
  lemma FlushSinkKeeps(s: State, k: nat)
    requires SinksOk(s) && k < |s.sinks|
    ensures SinksOk(FlushSink(s, k)) && SinksGrow(s.sinks, FlushSink(s, k).sinks)
    ensures FlushSink(s, k).sinks[k].flushed == WrittenCount(s, k)
  {
    var s' := FlushSink(s, k);
    forall i | 0 <= i < |s'.sinks| ensures SinkOk(s', i) && s.sinks[i].flushed <= s'.sinks[i].flushed {
      assert SinkOk(s, i);
    }
  }

  lemma SinksOkAgain(s: State, s': State)
    requires SinksOk(s) && s'.sinks == s.sinks && s'.claims == s.claims && s'.calls == s.calls
    requires forall i | 0 <= i < |s.sinks| :: WrittenCount(s', i) == WrittenCount(s, i)
    ensures SinksOk(s') && SinksGrow(s.sinks, s'.sinks)
  {
    forall i | 0 <= i < |s'.sinks| ensures SinkOk(s', i) {
      assert SinkOk(s, i);
    }
  }

  lemma IdleKeepsSinks(s: State)
    requires SinksOk(s) && ConsumerOk(s) && Idle(s.consumer)
    ensures var s' := IdleNext(s); SinksOk(s') && SinksGrow(s.sinks, s'.sinks)
  {
    if (s.consumer.FlushingIdle? || s.consumer.FlushingLast?) && s.consumer.k < |s.sinks| {
      FlushSinkKeeps(s, s.consumer.k);
      SinksOkAgain(FlushSink(s, s.consumer.k), IdleNext(s));
    } else {
      SinksOkAgain(s, IdleNext(s));
    }
  }

  lemma IdleIsQuiet(s: State)
    requires ConsumerOk(s) && Idle(s.consumer)
    ensures ConsumerOk(IdleNext(s)) && Quiet(s, IdleNext(s))
  {
  }

  /**
   The order of the reads is what makes this work: no early call is in flight when the in-flight
   count reads zero after the stop flag was seen, and every position an early call claimed is below
   the enqueue count read after that.
   */
  lemma IdleKeepsStop(s: State)
    requires Shape(s) && CallsOk(s) && SinksOk(s) && ConsumerOk(s) && CountsOk(s) && StopOk(s) && Idle(s.consumer)
    ensures StopOk(IdleNext(s))
  {
    match s.consumer
    case TestingInFlight =>
      if s.inFlight == 0 {
        assert Region(s.calls) == {};
        forall c | c in s.calls ensures !InRegion(s.calls[c].pc) {
          assert c !in Region(s.calls);
        }
      }
    case TestingCount =>
      forall c | c in s.calls && s.calls[c].early && s.calls[c].pc.Accepted? ensures s.calls[c].pc.pos < s.enq {
        assert CallOk(s, c);
      }
    case FlushingIdle(k) =>
      if k < |s.sinks| {
        assert SinkOk(s, k);
      }
    case FlushingLast(k) =>
      if k < |s.sinks| {
        assert SinkOk(s, k);
      }
    case _ =>
  }

  lemma IdleKeepsInv(s: State)
    requires Inv(s) && Idle(s.consumer)
    ensures Inv(IdleNext(s))
  {
    var s' := IdleNext(s);
    IdleKeepsSinks(s);
    IdleIsQuiet(s);
    IdleKeepsStop(s);
    QuietKeeps(s, s');
    FlushersStay(s, s');
  }

  // ----- flush, stop, join, begin -----

  lemma FlushSinkKeepsStop(s: State, s': State)
    requires StopOk(s) && SinksGrow(s.sinks, s'.sinks)
    requires s'.consumer == s.consumer && s'.stop == s.stop && s'.calls == s.calls && s'.deq == s.deq && s'.joined == s.joined
    ensures StopOk(s')
  {
  }

  lemma FlusherKeepsSinks(s: State, f: FlushId)
    requires SinksOk(s) && f in s.flushers && FlusherOk(s, f)
    ensures SinksGrow(s.sinks, FlushNext(s, f).sinks) && SinksOk(FlushNext(s, f))
  {
    var s', pc := FlushNext(s, f), s.flushers[f].pc;
    if pc.FlushingSinks? && pc.k < |s.sinks| {
      FlushSinkKeeps(s, pc.k);
      SinksOkAgain(FlushSink(s, pc.k), s');
    } else {
      SinksOkAgain(s, s');
    }
  }

  lemma FlusherKeepsOwn(s: State, f: FlushId)
    requires SinksOk(s) && StopOk(s) && f in s.flushers && FlusherOk(s, f)
    requires SinksGrow(s.sinks, FlushNext(s, f).sinks)
    ensures f in FlushNext(s, f).flushers && FlusherOk(FlushNext(s, f), f)
  {
    var pc := s.flushers[f].pc;
    if pc.FlushingSinks? && pc.k < |s.sinks| {
      assert SinkOk(s, pc.k);
    }
  }

  lemma FlusherMoves(s: State, f: FlushId)
    requires Shape(s) && SinksOk(s) && FlushersOk(s) && StopOk(s) && f in s.flushers
    ensures FlushersOk(FlushNext(s, f)) && SinksGrow(s.sinks, FlushNext(s, f).sinks) && SinksOk(FlushNext(s, f))
  {
    var s' := FlushNext(s, f);
    assert FlusherOk(s, f);
    FlusherKeepsSinks(s, f);
    FlusherKeepsOwn(s, f);
    FlusherIsQuiet(s, f);
    forall g | g in s'.flushers && g != f ensures FlusherOk(s', g) {
      assert g in s.flushers && s'.flushers[g] == s.flushers[g] && FlusherOk(s, g);
    }
  }

  lemma FlusherIsQuiet(s: State, f: FlushId)
    requires f in s.flushers
    ensures var s' := FlushNext(s, f);
            && Quiet(s, s') && s'.consumer == s.consumer && s'.stop == s.stop && s'.deq == s.deq && s'.joined == s.joined
            && |s'.sinks| == |s.sinks|
            && s'.flushers.Keys == s.flushers.Keys && forall g | g in s.flushers && g != f :: s'.flushers[g] == s.flushers[g]
  {
  }

  lemma FlushKeepsInv(s: State, f: FlushId)
    requires Inv(s) && f in s.flushers
    ensures Inv(FlushNext(s, f))
  {
    var s' := FlushNext(s, f);
    FlusherMoves(s, f);
    FlusherIsQuiet(s, f);
    QuietKeeps(s, s');
    FlushSinkKeepsStop(s, s');
    ConsumerStays(s, s');
  }

  lemma ConsumerStays(s: State, s': State)
    requires ConsumerOk(s) && Quiet(s, s') && s'.consumer == s.consumer && s'.deq == s.deq && |s'.sinks| == |s.sinks|
    ensures ConsumerOk(s')
  {
  }

  lemma BeginKeepsSlots(s: State, c: CallId, record: Record)
    requires Shape(s) && FreeOk(s) && PositionsOk(s) && CallsOk(s) && c !in s.calls
    ensures var s' := Next(s, Begin(c, record)); Shape(s') && FreeOk(s') && PositionsOk(s') && CallsOk(s')
  {
    var s' := Next(s, Begin(c, record));
    forall p | 0 <= p < |s'.claims| ensures PosOk(s', p) {
      assert PosOk(s, p) && SlotAt(s', p) == SlotAt(s, p);
    }
    forall p: nat | s'.enq <= p < Released(s') + |s'.slots| ensures SlotAt(s', p).sequence == p {
      FreeSlot(s, p);
    }
    forall d | d in s'.calls ensures CallOk(s', d) {
      assert d in s.calls ==> CallOk(s, d);
    }
  }

  lemma BeginKeepsOthers(s: State, c: CallId, record: Record)
    requires |s.slots| > 0 && ConsumerOk(s) && SinksOk(s) && FlushersOk(s) && StopOk(s) && CountsOk(s) && c !in s.calls
    ensures var s' := Next(s, Begin(c, record));
            ConsumerOk(s') && SinksOk(s') && FlushersOk(s') && StopOk(s') && CountsOk(s')
  {
    var s' := Next(s, Begin(c, record));
    forall i | 0 <= i < |s'.sinks| ensures SinkOk(s', i) {
      assert SinkOk(s, i);
    }
    FlushersStay(s, s');
    CountOne(Region(s.calls), Region(s'.calls), c);
    CountOne(RefusedCalls(s.calls), RefusedCalls(s'.calls), c);
  }

  lemma FlushBeginKeepsInv(s: State, f: FlushId)
    requires Inv(s) && f !in s.flushers
    ensures Inv(Next(s, FlushBegin(f)))
  {
    var s' := Next(s, FlushBegin(f));
    QuietKeeps(s, s');
    SinksOkAgain(s, s');
    forall g | g in s'.flushers ensures FlusherOk(s', g) {
      assert g in s.flushers ==> FlusherOk(s, g);
    }
  }

  lemma DrainKeepsInv(s: State, i: nat, n: nat)
    requires Inv(s)
    ensures Inv(Next(s, Drain(i, n)))
  {
    var s' := Next(s, Drain(i, n));
    QuietKeeps(s, s');
    forall j | 0 <= j < |s'.sinks| ensures SinkOk(s', j) {
      assert SinkOk(s, j);
    }
    FlushersStay(s, s');
    FlushSinkKeepsStop(s, s');
  }

  lemma StopKeepsInv(s: State, a: Action)
    requires Inv(s) && (a.SetStop? || a.Join?)
    ensures Inv(Next(s, a))
  {
    var s' := Next(s, a);
    QuietKeeps(s, s');
    SinksOkAgain(s, s');
    FlushersStay(s, s');
  }

  /** Every action, by whichever thread, keeps the invariant. */
  lemma NextKeepsInv(s: State, a: Action)
    requires Inv(s)
    ensures Inv(Next(s, a))
  {
    match a
    case Begin(c, record) => 
      if c !in s.calls {
        BeginKeepsSlots(s, c, record);
        BeginKeepsOthers(s, c, record);
      }
    case CallStep(c, spurious) => if c in s.calls { CallKeepsInv(s, c, spurious); }
    case ConsumerStep =>
      if Processing(s.consumer) {
        ProcessKeepsInv(s);
      } else if Consuming(s.consumer) {
        ConsumeKeepsInv(s);
      } else {
        IdleKeepsInv(s);
      }
    case FlushBegin(f) => if f !in s.flushers { FlushBeginKeepsInv(s, f); }
    case FlushStep(f) => if f in s.flushers { FlushKeepsInv(s, f); }
    case Drain(i, n) => DrainKeepsInv(s, i, n);
    case SetStop => StopKeepsInv(s, a);
    case Join => StopKeepsInv(s, a);
  }

  lemma {:induction false} RunKeepsInv(s: State, schedule: seq<Action>)
    requires Inv(s)
    ensures Inv(Run(s, schedule))
    decreases |schedule|
  {
    if schedule != [] {
      RunKeepsInv(s, schedule[..|schedule| - 1]);
      NextKeepsInv(Run(s, schedule[..|schedule| - 1]), schedule[|schedule| - 1]);
    }
  }
}

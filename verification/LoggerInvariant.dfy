/** What every step of the logger keeps. */
module LoggerInvariant {
  import opened Common
  import opened LoggerProtocol
  import opened Arithmetic
  import LoggerArena

  /** Positions below this have been handed back to producers by the consumer. */
  ghost function Released(s: State): nat {
    s.deq + (if s.consumer.Advancing? then 1 else 0)
  }

  predicate Claimed(pc: CallPc) {
    pc.Filling? || pc.Publishing? || pc.Leaving? || pc.Accepted?
  }

  predicate Published(pc: CallPc) {
    pc.Leaving? || pc.Accepted?
  }

  /** Between the in-flight increment and the in-flight decrement. */
  predicate InRegion(pc: CallPc) {
    !pc.Accepted? && !pc.Counting? && !pc.Refused?
  }

  ghost predicate Shape(s: State) {
    && |s.slots| >= 2
    && |s.claims| == s.enq
    && Released(s) <= s.enq <= Released(s) + |s.slots|
    && (forall i | 0 <= i < |s.slots| :: |s.slots[i].arena| == LoggerArena.STR_BUF_PER_SLOT)
  }

  /** Positions not yet claimed in the current window find their slot ready. */
  ghost predicate FreeOk(s: State)
    requires |s.slots| > 0
  {
    forall p: nat | s.enq <= p < Released(s) + |s.slots| :: SlotAt(s, p).sequence == p
  }

  ghost predicate Holds(arena: bytes, text: bytes, n: nat) {
    n <= |text| <= |arena| && forall k | 0 <= k < n :: arena[k] == text[k]
  }

  /** How the slot of a claimed, unreleased position looks at each stage of its call. */
  ghost predicate SlotOk(slot: Slot, call: Call, p: nat) {
    match call.pc
    case Filling(_, done) => slot.sequence == p && Holds(slot.arena, call.line.text, done)
    case Publishing(_) => slot.sequence == p && Complete(slot, call.line)
    case Leaving(_) => slot.sequence == p + 1 && Complete(slot, call.line)
    case Accepted(_) => slot.sequence == p + 1 && Complete(slot, call.line)
    case _ => false
  }

  ghost predicate Complete(slot: Slot, line: Line) {
    slot.item == Item(line.header, |line.text|) && Holds(slot.arena, line.text, |line.text|)
  }

  ghost predicate PosOk(s: State, p: nat)
    requires |s.slots| > 0 && p < |s.claims|
  {
    var c := s.claims[p];
    && c in s.calls
    && Claimed(s.calls[c].pc) && s.calls[c].pc.pos == p
    && (if p < Released(s) then Published(s.calls[c].pc) else SlotOk(SlotAt(s, p), s.calls[c], p))
  }

  ghost predicate PositionsOk(s: State)
    requires |s.slots| > 0
  {
    forall p | 0 <= p < |s.claims| :: PosOk(s, p)
  }

  ghost predicate CallOk(s: State, c: CallId)
    requires c in s.calls
  {
    var call := s.calls[c];
    && |call.line.text| <= LoggerArena.STR_BUF_PER_SLOT
    && (call.pc.Checking? ==> call.pc.pos <= s.enq)
    && (call.pc.Swapping? ==> call.pc.pos <= s.enq && call.pc.pos < Released(s) + |s.slots|)
    && (Claimed(call.pc) ==> call.pc.pos < |s.claims| && s.claims[call.pc.pos] == c)
  }

  ghost predicate CallsOk(s: State) {
    forall c | c in s.calls :: CallOk(s, c)
  }

  /** The position the consumer is working on is claimed and published. */
  ghost predicate FrontOk(s: State) {
    && s.deq < |s.claims|
    && s.claims[s.deq] in s.calls
    && Published(s.calls[s.claims[s.deq]].pc)
  }

  ghost function FrontLine(s: State): Line
    requires FrontOk(s)
  {
    s.calls[s.claims[s.deq]].line
  }

  ghost predicate ConsumerOk(s: State) {
    match s.consumer
    case Reading(got) => FrontOk(s) && got <= FrontLine(s).text
    case Writing(line, k) => FrontOk(s) && line == FrontLine(s) && k <= |s.sinks|
    case Releasing => FrontOk(s)
    case Advancing => FrontOk(s)
    case FlushingIdle(k) => k <= |s.sinks|
    case FlushingLast(k) => k <= |s.sinks|
    case _ => true
  }

  /** How many positions sink `i` has been given. */
  ghost function WrittenCount(s: State, i: nat): nat {
    s.deq + (match s.consumer
             case Writing(_, k) => if i < k then 1 else 0
             case Releasing => 1
             case Advancing => 1
             case _ => 0)
  }

  /** A sink holds the lines of the first positions, in claim order, and nothing else. */
  ghost predicate SinkOk(s: State, i: nat)
    requires i < |s.sinks|
  {
    && |s.sinks[i].written| == WrittenCount(s, i) <= |s.claims|
    && s.sinks[i].flushed <= |s.sinks[i].written|
    && (forall p | 0 <= p < |s.sinks[i].written| ::
          s.claims[p] in s.calls && s.sinks[i].written[p] == s.calls[s.claims[p]].line)
  }

  ghost predicate SinksOk(s: State) {
    forall i | 0 <= i < |s.sinks| :: SinkOk(s, i)
  }

  ghost predicate FlushedUpTo(sinks: seq<Sink>, k: nat, n: nat)
    requires k <= |sinks|
  {
    forall i | 0 <= i < k :: sinks[i].flushed >= n
  }

  ghost predicate FlusherOk(s: State, f: FlushId)
    requires f in s.flushers
  {
    var fl := s.flushers[f];
    match fl.pc
    case Entering => fl.start <= s.enq
    case Targeting => fl.start <= s.enq
    case Waiting(t) => fl.start <= t <= s.enq
    case FlushingSinks(t, k) => fl.start <= t <= s.deq && k <= |s.sinks| && FlushedUpTo(s.sinks, k, t)
    case Returned => FlushedUpTo(s.sinks, |s.sinks|, fl.start)
    case ReturnedEarly => s.joined
  }

  ghost predicate FlushersOk(s: State) {
    forall f | f in s.flushers :: FlusherOk(s, f)
  }

  /** The three reads of the shutdown test, in their order, and what each has established; and what has been flushed. */
  ghost predicate StopOk(s: State) {
    && (s.consumer.TestingInFlight? || PastInFlight(s.consumer) ==> s.stop)
    && (PastInFlight(s.consumer) ==> forall c | c in s.calls && s.calls[c].early :: !InRegion(s.calls[c].pc))
    && (PastCount(s.consumer) ==>
          forall c | c in s.calls && s.calls[c].early && s.calls[c].pc.Accepted? :: s.calls[c].pc.pos < s.deq)
    && (s.consumer.FlushingIdle? ==> s.consumer.k <= |s.sinks| && FlushedUpTo(s.sinks, s.consumer.k, s.deq))
    && (s.consumer.FlushingLast? ==> s.consumer.k <= |s.sinks| && FlushedUpTo(s.sinks, s.consumer.k, s.deq))
    && (s.consumer.Exited? ==> FlushedUpTo(s.sinks, |s.sinks|, s.deq))
    && (s.joined ==> s.consumer.Exited?)
  }

  predicate PastInFlight(pc: ConsumerPc) {
    pc.TestingCount? || PastCount(pc)
  }

  predicate PastCount(pc: ConsumerPc) {
    pc.FlushingLast? || pc.Exited?
  }

  ghost function Region(calls: map<CallId, Call>): set<CallId> {
    set c | c in calls && InRegion(calls[c].pc)
  }

  ghost function RefusedCalls(calls: map<CallId, Call>): set<CallId> {
    set c | c in calls && calls[c].pc.Refused?
  }

  ghost predicate CountsOk(s: State) {
    s.inFlight == |Region(s.calls)| && s.dropped == |RefusedCalls(s.calls)|
  }

  ghost predicate Inv(s: State) {
    && Shape(s) && FreeOk(s) && PositionsOk(s) && CallsOk(s)
    && ConsumerOk(s) && SinksOk(s) && FlushersOk(s) && StopOk(s) && CountsOk(s)
  }

  // ----- slot indices -----

  /** The slot index is the remainder; on words it is the masked position, see `LoggerCounters`. */
  lemma {:induction false} SlotIndexIsMod(cap: nat, p: nat)
    requires cap > 0
    ensures Ix(cap, p) == p % cap
    decreases p
  {
    if p >= cap {
      SlotIndexIsMod(cap, p - cap);
      ModShift(p - cap, 1, cap);
    } else {
      ModOfSmall(p, cap);
    }
  }

  /** Fewer than a capacity apart, two positions use different slots. */
  lemma {:induction false} SlotsDiffer(cap: nat, p: nat, q: nat)
    requires cap > 0 && p < q < p + cap
    ensures Ix(cap, p) != Ix(cap, q)
    decreases q
  {
    if p >= cap {
      SlotsDiffer(cap, p - cap, q - cap);
    }
  }

  lemma SlotDiffers(cap: nat, p: nat, q: nat)
    requires cap > 0 && p != q && p < q + cap && q < p + cap
    ensures Ix(cap, p) != Ix(cap, q)
  {
    if p < q { SlotsDiffer(cap, p, q); } else { SlotsDiffer(cap, q, p); }
  }

  /** Every position shares its slot with exactly one position of any window of capacity size. */
  lemma {:induction false} InWindow(cap: nat, p: nat, from: nat) returns (q: nat)
    requires cap > 0
    ensures from <= q < from + cap && Ix(cap, q) == Ix(cap, p)
    ensures q < p ==> q + cap <= p
    ensures p < q ==> p + cap <= q
    decreases Abs(p - from)
  {
    if p < from {
      assert Ix(cap, p + cap) == Ix(cap, p);
      if p + cap <= from {
        q := InWindow(cap, p + cap, from);
      } else {
        q := p + cap;
      }
    } else if p >= from + cap {
      assert Ix(cap, p) == Ix(cap, p - cap);
      q := InWindow(cap, p - cap, from);
    } else {
      q := p;
    }
  }

  // ----- initial state -----

  lemma InitOk(cap: nat, sinks: nat)
    requires cap >= 2
    ensures Inv(Init(cap, sinks))
  {
    var s := Init(cap, sinks);
    assert Region(s.calls) == {} && RefusedCalls(s.calls) == {};
  }
}

/**
 The asynchronous logger as a step machine: the ring of Support/include/Support/MpscRingBuffer.h with
 its per-slot sequence numbers, any number of concurrent `Logger::enqueue` calls, the consumer thread
 `Logger::run`, any number of concurrent `Logger::flush` calls and the destructor
 (Support/lib/Log.cpp:462-585).  Each step performs one shared access (or one byte of a copy); a
 schedule is an arbitrary list of actions, and an action that is not enabled changes nothing.
 */
module LoggerProtocol {
  import opened Common
  import LoggerArena

  type CallId = nat
  type FlushId = nat

  /** What a sink is asked to write: the by-value part of a record and its string bytes. */
  datatype Line = Line(header: nat, text: bytes)

  /** A record as the caller builds it; `header` stands for level, channel, format string, timestamp. */
  datatype Record = Record(header: nat, args: seq<LoggerArena.LogArg>)

  function LineOf(r: Record): (line: Line)
    ensures |line.text| <= LoggerArena.STR_BUF_PER_SLOT
  {
    Line(r.header, LoggerArena.Fitting(r.args, 0))
  }

  /** The record stored in a slot: by-value part and how many arena bytes its views cover. */
  datatype Item = Item(header: nat, len: nat)

  datatype Slot = Slot(sequence: int, item: Item, arena: bytes)

  /** Program counter of one `enqueue` call, from its in-flight increment on. */
  datatype CallPc =
    | Loading                          // claim: about to load enqueuePos
    | Checking(pos: nat)               // about to load the slot's sequence
    | Swapping(pos: nat)               // about to compare-and-swap enqueuePos
    | Filling(pos: nat, done: nat)     // copying string bytes, then storing the item
    | Publishing(pos: nat)             // about to store sequence = pos + 1
    | Leaving(pos: nat)                // about to decrement inFlightEnqueues
    | Accepted(pos: nat)               // returned true
    | Refusing                         // ring full: about to decrement inFlightEnqueues
    | Counting                         // about to increment droppedRecords
    | Refused                          // returned false

  /** `early` is history: the in-flight increment came before stopConsumer was set. */
  datatype Call = Call(line: Line, pc: CallPc, early: bool)

  datatype ConsumerPc =
    | Peeking
    | Reading(got: bytes)
    | Writing(line: Line, k: nat)
    | Releasing                        // consume: about to store sequence = pos + capacity
    | Advancing                        // consume: about to store dequeuePos = pos + 1
    | TestingStop
    | TestingInFlight
    | TestingCount
    | FlushingIdle(k: nat)
    | FlushingLast(k: nat)
    | Exited

  datatype FlushPc =
    | Entering                         // about to ask whether the consumer is joinable
    | Targeting                        // about to load enqueuePos
    | Waiting(target: nat)
    | FlushingSinks(target: nat, k: nat)
    | Returned
    | ReturnedEarly                    // the consumer was no longer joinable

  /** `start` is history: how many positions were claimed when the call began. */
  datatype Flusher = Flusher(start: nat, pc: FlushPc)

  /** A buffering sink: everything written, and how much of it reached the operating system. */
  datatype Sink = Sink(written: seq<Line>, flushed: nat)

  /** `claims` is history: which call won each position. */
  datatype State = State(
    slots: seq<Slot>, enq: nat, deq: nat,
    stop: bool, joined: bool, inFlight: int, dropped: nat,
    calls: map<CallId, Call>, consumer: ConsumerPc, flushers: map<FlushId, Flusher>,
    sinks: seq<Sink>, claims: seq<CallId>)

  datatype Action =
    | Begin(c: CallId, record: Record)
    | CallStep(c: CallId, spurious: bool) // `spurious`: compare_exchange_weak fails although equal
    | ConsumerStep
    | FlushBegin(f: FlushId)
    | FlushStep(f: FlushId)
    | Drain(sink: nat, upTo: nat)         // a stream empties its own buffer
    | SetStop
    | Join

  /** `pos & mask`, as repeated subtraction; see `SlotIndexIsMod`. */
  function Ix(cap: nat, pos: nat): (i: nat)
    requires cap > 0
    ensures i < cap
    decreases pos
  {
    if pos < cap then pos else Ix(cap, pos - cap)
  }

  function Put(a: bytes, i: nat, b: byte): (r: bytes)
    ensures |r| == |a|
  {
    if i < |a| then a[i := b] else a
  }

  function Get(a: bytes, i: nat): byte {
    if i < |a| then a[i] else 0
  }

  function Init(cap: nat, sinks: nat): State
    requires cap > 0
  {
    State(seq(cap, i requires 0 <= i => Slot(i, Item(0, 0), seq(LoggerArena.STR_BUF_PER_SLOT, _ => 0))), 0, 0,
          false, false, 0, 0, map[], Peeking, map[], seq(sinks, _ => Sink([], 0)), [])
  }

  function SlotAt(s: State, pos: nat): Slot
    requires |s.slots| > 0
  {
    s.slots[Ix(|s.slots|, pos)]
  }

  function SetSlot(s: State, pos: nat, slot: Slot): State
    requires |s.slots| > 0
  {
    s.(slots := s.slots[Ix(|s.slots|, pos) := slot])
  }

  function SetPc(s: State, c: CallId, pc: CallPc): State
    requires c in s.calls
  {
    s.(calls := s.calls[c := s.calls[c].(pc := pc)])
  }

  /** MpscRingBuffer::claim */
  function ClaimNext(s: State, c: CallId, spurious: bool): (r: State)
    requires |s.slots| > 0 && c in s.calls
    ensures r.slots == s.slots
  {
    match s.calls[c].pc
    case Loading => SetPc(s, c, Checking(s.enq))
    case Checking(pos) =>
      var sequence := SlotAt(s, pos).sequence;
      SetPc(s, c, if sequence == pos then Swapping(pos) else if sequence < pos then Refusing else Loading)
    case Swapping(pos) =>
      if s.enq == pos && !spurious
      then SetPc(s.(enq := s.enq + 1, claims := s.claims + [c]), c, Filling(pos, 0))
      else SetPc(s, c, Checking(s.enq))
    case _ => s
  }

  /** Filling the claimed slot, then MpscRingBuffer::publish. */
  function FillNext(s: State, c: CallId): (r: State)
    requires |s.slots| > 0 && c in s.calls
    ensures |r.slots| == |s.slots|
  {
    var line := s.calls[c].line;
    match s.calls[c].pc
    case Filling(pos, done) =>
      var slot := SlotAt(s, pos);
      if done < |line.text|
      then SetPc(SetSlot(s, pos, slot.(arena := Put(slot.arena, done, line.text[done]))), c, Filling(pos, done + 1))
      else SetPc(SetSlot(s, pos, slot.(item := Item(line.header, |line.text|))), c, Publishing(pos))
    case Publishing(pos) => SetPc(SetSlot(s, pos, SlotAt(s, pos).(sequence := pos + 1)), c, Leaving(pos))
    case _ => s
  }

  /** The counter updates on the way out of `enqueue`. */
  function LeaveNext(s: State, c: CallId): (r: State)
    requires c in s.calls
    ensures r.slots == s.slots
  {
    match s.calls[c].pc
    case Leaving(pos) => SetPc(s.(inFlight := s.inFlight - 1), c, Accepted(pos))
    case Refusing => SetPc(s.(inFlight := s.inFlight - 1), c, Counting)
    case Counting => SetPc(s.(dropped := s.dropped + 1), c, Refused)
    case _ => s
  }

  predicate Claiming(pc: CallPc) {
    pc.Loading? || pc.Checking? || pc.Swapping?
  }

  predicate Owning(pc: CallPc) {
    pc.Filling? || pc.Publishing?
  }

  function CallNext(s: State, c: CallId, spurious: bool): (r: State)
    requires |s.slots| > 0 && c in s.calls
    ensures |r.slots| == |s.slots|
  {
    if Claiming(s.calls[c].pc) then ClaimNext(s, c, spurious)
    else if Owning(s.calls[c].pc) then FillNext(s, c)
    else LeaveNext(s, c)
  }

  function FlushSink(s: State, k: nat): State
    requires k < |s.sinks|
  {
    s.(sinks := s.sinks[k := s.sinks[k].(flushed := |s.sinks[k].written|)])
  }

  /** peek, then processRecord: render the record, then hand the line to every sink. */
  function ProcessNext(s: State): (r: State)
    requires |s.slots| > 0
    ensures r.slots == s.slots
  {
    var slot := SlotAt(s, s.deq);
    match s.consumer
    case Peeking => s.(consumer := if slot.sequence == s.deq + 1 then Reading([]) else TestingStop)
    case Reading(got) =>
      if |got| < slot.item.len
      then s.(consumer := Reading(got + [Get(slot.arena, |got|)]))
      else s.(consumer := Writing(Line(slot.item.header, got), 0))
    case Writing(line, k) =>
      if k < |s.sinks|
      then s.(sinks := s.sinks[k := s.sinks[k].(written := s.sinks[k].written + [line])], consumer := Writing(line, k + 1))
      else s.(consumer := Releasing)
    case _ => s
  }

  /** MpscRingBuffer::consume */
  function ConsumeNext(s: State): (r: State)
    requires |s.slots| > 0
    ensures |r.slots| == |s.slots|
  {
    match s.consumer
    case Releasing =>
      SetSlot(s, s.deq, SlotAt(s, s.deq).(sequence := s.deq + |s.slots|)).(consumer := Advancing)
    case Advancing => s.(deq := s.deq + 1, consumer := Peeking)
    case _ => s
  }

  /** The empty branch of `run`: the shutdown test, or an idle flush; and the last flush. */
  function IdleNext(s: State): (r: State)
    ensures r.slots == s.slots
  {
    match s.consumer
    case TestingStop => s.(consumer := if s.stop then TestingInFlight else FlushingIdle(0))
    case TestingInFlight => s.(consumer := if s.inFlight == 0 then TestingCount else FlushingIdle(0))
    case TestingCount => s.(consumer := if s.enq <= s.deq then FlushingLast(0) else FlushingIdle(0))
    case FlushingIdle(k) =>
      if k < |s.sinks| then FlushSink(s, k).(consumer := FlushingIdle(k + 1)) else s.(consumer := Peeking)
    case FlushingLast(k) =>
      if k < |s.sinks| then FlushSink(s, k).(consumer := FlushingLast(k + 1)) else s.(consumer := Exited)
    case _ => s
  }

  predicate Processing(pc: ConsumerPc) {
    pc.Peeking? || pc.Reading? || pc.Writing?
  }

  predicate Consuming(pc: ConsumerPc) {
    pc.Releasing? || pc.Advancing?
  }

  /** `Logger::run` */
  function ConsumerNext(s: State): (r: State)
    requires |s.slots| > 0
    ensures |r.slots| == |s.slots|
  {
    if Processing(s.consumer) then ProcessNext(s)
    else if Consuming(s.consumer) then ConsumeNext(s)
    else IdleNext(s)
  }

  function FlushNext(s: State, f: FlushId): (r: State)
    requires f in s.flushers
    ensures |r.slots| == |s.slots|
  {
    var fl := s.flushers[f];
    match fl.pc
    case Entering => s.(flushers := s.flushers[f := fl.(pc := if s.joined then ReturnedEarly else Targeting)])
    case Targeting => s.(flushers := s.flushers[f := fl.(pc := Waiting(s.enq))])
    case Waiting(t) =>
      if s.deq < t then s else s.(flushers := s.flushers[f := fl.(pc := FlushingSinks(t, 0))])
    case FlushingSinks(t, k) =>
      if k < |s.sinks|
      then FlushSink(s, k).(flushers := s.flushers[f := fl.(pc := FlushingSinks(t, k + 1))])
      else s.(flushers := s.flushers[f := fl.(pc := Returned)])
    case Returned => s
    case ReturnedEarly => s
  }

  function Next(s: State, a: Action): (r: State)
    requires |s.slots| > 0
    ensures |r.slots| == |s.slots|
  {
    match a
    case Begin(c, record) =>
      if c in s.calls then s
      else s.(inFlight := s.inFlight + 1, calls := s.calls[c := Call(LineOf(record), Loading, !s.stop)])
    case CallStep(c, spurious) => if c in s.calls then CallNext(s, c, spurious) else s
    case ConsumerStep => ConsumerNext(s)
    case FlushBegin(f) =>
      if f in s.flushers then s else s.(flushers := s.flushers[f := Flusher(s.enq, Entering)])
    case FlushStep(f) => if f in s.flushers then FlushNext(s, f) else s
    case Drain(i, n) =>
      if i < |s.sinks| && s.sinks[i].flushed <= n <= |s.sinks[i].written|
      then s.(sinks := s.sinks[i := s.sinks[i].(flushed := n)]) else s
    case SetStop => s.(stop := true)
    case Join => if s.stop && s.consumer.Exited? then s.(joined := true) else s
  }

  /** The state a schedule leads to. */
  function Run(s: State, schedule: seq<Action>): (r: State)
    requires |s.slots| > 0
    ensures |r.slots| > 0
    decreases |schedule|
  {
    if schedule == [] then s else Next(Run(s, schedule[..|schedule| - 1]), schedule[|schedule| - 1])
  }
}

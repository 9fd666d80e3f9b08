# Verified models of the support and cache libraries

A Dafny model of the parts of this repository whose correctness rests on unbounded reasoning, with
proofs of what their documentation and tests promise. `dafny verify dfyconfig.toml` checks everything.

What is modelled, file by file:

- `LoggerArena`, `LoggerProtocol`, `LoggerInvariant`, `LoggerSteps`, `LoggerTheorems`,
  `LoggerRecords`, `LoggerProgress`, `LoggerFlush`, `LoggerSummary`, `LoggerCounters`,
  `LoggerWords`, `LoggerTurns`: the asynchronous logger. Any number of concurrent `enqueue` and
  `flush` calls, the consumer thread and the destructor act on the sequence-numbered ring; each step
  is one shared access or one copied byte, and a schedule is an arbitrary list of steps. The
  protocol counts without a limit; `LoggerCounters` compares its tests with those on the ring's 64
  bit words, `LoggerWords` is the protocol on words, and `LoggerTurns` has the runs in which the two
  part. `LoggerRecords` states what reaches the sinks in terms of the schedule alone: which call
  began when, with which record, before or after the stop flag. The copying of string arguments into
  a slot's arena is an in-place loop over two arrays.
- `FixedWidth`, `IPInt`, `IPIntWidths`, `IPIntAlgorithms`, `IPRational`, `IPWritten`:
  two's-complement patterns of a computed width, the unbounded integers kept at minimal width on top
  of them, gcd, fast exponentiation and rationals in lowest terms, the latter two at full width and,
  in `IPWritten`, as written. `Arithmetic` holds a few facts about products and remainders.
- `Diagnostics`, `DiagnosticLayout`: the payload of the cached transform, a recursive binary format
  with nested notes and a footer, written through a shared buffer and read through a shared cursor.
  The routines that read compute on wrapping 64 bit addresses as the source does; the functions they
  are proved against do the arithmetic that was meant. `DiagnosticLayout` states the format itself,
  byte by byte, for a writer and for a reader.
- `Base64`, `BlobChain`, `BlobRuns`, `BlobBackend`: the layered blob cache as linked mutable
  backends and, as their specification, as a list of layers; whole client runs compared with one
  plain map.
- `LineRaster`, `Depsets`, `DieAttributes`, `JoinMap`: the line rasteriser on a grid, memoised
  depset flattening, link-following attribute lookup, and the join map with its scope stack.
- `DeviceSpecs`, `FeatureStrings`: target requirement matching and signed feature strings.

Loops and objects of the source are methods and classes here; each is tied by its `ensures` to a
function, and the properties are lemmas about those functions.

## Findings

Where the code and its documentation, or an expected law, part ways, the model follows the code and
the exact condition is proved.

- The ring's assertion admits exactly the powers of two and, because zero less one wraps, zero
  (`AssertionAdmits`). With no slot at all there is nothing to claim from, so the protocol begins at
  one. With a single slot two producers can own it at once: slots are exclusive in every reachable
  state if and only if the capacity is at least two (`SlotsExclusiveIffTwo`). The logger uses 4096.
- A `flush` that waits for a record claimed after the consumer's last look at the enqueue count waits
  forever (`FlushCanWaitForever`); `FlushReturnsExactly` says when a waiting flush can return.
- The ring's counters are words. While at most 2^63 less a capacity of positions have been claimed, all
  five tests decide on them as on unlimited counters, so the logger on words is the logger proved
  (`WordsDecide`, `WordRunAgrees`). `peek` always does; for the other four the exact conditions are in
  `LoggerCounters`, and for each there is a run in which it goes wrong. When the enqueue count
  has begun a new turn of 2^64 and the consume count has not, the consumer leaves with an accepted
  record of an early call unread, for good (`EarlyRecordLost`), and a flush passes its barrier early
  (`FlushTestFails`). A producer stalled for half a turn is refused by an empty ring
  (`ClaimTestFails`), one stalled for a whole turn wins a position it has not checked
  (`SwapTestFails`).
- An `enqueue` that begins once the consumer has left its loop is told its record was accepted, and
  the record is never written (`LateRecordAcceptedAndLost`); an accepted record is written if and only
  if its position lies before the consumer's final one (`WrittenIffClaimedInTime`).
- `droppedRecords` is raised after `inFlightEnqueues` is lowered, so the shutdown summary can miss
  refused calls; the two printed numbers add up if and only if no caller is between the two updates
  (`SummaryAddsUp`), and for every capacity from two there is a run in which one is
  (`SummaryCanMissCalls`).
- `BlobCache.h` says a collision overwrites and that implementations ignore the delegate. The file
  layer's `insertSyncImpl` calls `containsSync`, which walks the delegates and skips known keys. So a
  file layer is never overwritten and never promoted into. `InsertReadsBackExactly` gives the exact
  condition under which an insertion is visible afterwards.
- `IPInt(uint64_t)` reads its argument as signed: the value is kept if and only if it is below 2^63
  (`FromUint64Exact`).
- `IPInt` computes an operator's width, a sum of two widths or of a width and a shift amount, in 32
  bits. From 2^32 on both operands are cut: `1 << 2^32` is 1 and `5 >> 2^32` is 5
  (`ShiftByLimitIsIdentity`), and two large powers of two add up to 0 (`SumCanBeCut`). `MulExactly`,
  `SumExactly`, `QuotientExactly`, `LeftShiftExactly` and `RightShiftExactly` say exactly when a result
  is right; below 2^32 every operator is exact (`BinopExact`).
- The decoder adds an untrusted size to a pointer before it compares. As written it agrees with what was
  meant, and stays in the buffer, if and only if the length it should reject, if there is one, does not
  wrap the address (`MachineExactly`). At every address but zero there are seventeen bytes that send the
  cursor to in front of the buffer (`CursorLeavesBuffer`).
- A target satisfies itself if and only if it disables no base name it also enables
  (`SatisfiesItselfExactly`). A feature list survives its text form if and only if no name is empty,
  contains a comma or occurs twice (`RoundTripExactly`).
- `record_id` prints a missing attribute as the text `None`, so different keys can share an id before
  hashing (`PlainBlobsCollide`, `AbsentTypeCollides`); `BlobsCollideExactly` covers fields that contain the
  separator as well.

## Model

| member | source | states |
|---|---|---|
| LoggerArena.CopyArg | Support/lib/Log.cpp:494-509 | One argument: a string's leading bytes that still fit go to the arena's next free bytes, nothing else in the arena changes, and the argument points there or to the empty literal |
| LoggerArena.CopyStringArgs | Support/lib/Log.cpp:489-509 | In place on the arguments and the arena: the arena begins with exactly the first min(total, 256) bytes of the concatenated originals, is untouched beyond, and reading the rewritten arguments yields that text |
| LoggerArena.FittingStep | Support/lib/Log.cpp:494-509 | Clipping the concatenation once at the arena's end is the same as clipping argument by argument |
| LoggerArena.StoredText | Support/lib/Log.cpp:489-509 | The stored strings, concatenated, are the prefix of the caller's text that fits, for any argument list and any fill level |
| LoggerArena.RangesDisjoint | Support/lib/Log.cpp:492-507 | Stored ranges are non-empty, lie inside the slot's arena, and an earlier argument's range ends before a later one's begins |
| LoggerArena.ArgumentsKept | Support/lib/Log.cpp:494-509 | Non-string arguments are unchanged and every string argument denotes a prefix of its own text |
| LoggerCounters.SlotIndexIsMask | Support/include/Support/MpscRingBuffer.h:56-74 | The masked word of a position, for a capacity that is a power of two, is the protocol's slot index, wraps of the counter included |
| LoggerCounters.AssertionAdmits | Support/include/Support/MpscRingBuffer.h:67-74 | The constructor's assertion, computed on 64 bit words, holds of exactly the powers of two and zero |
| LoggerCounters.ClaimTestExactly | Support/include/Support/MpscRingBuffer.h:81-97 | In every reachable state the three-way test on words decides as on unlimited counters if and only if the sequence number is not half a turn or more ahead, which takes 2^63 less a capacity of claims since the load |
| LoggerCounters.SwapTestExactly | Support/include/Support/MpscRingBuffer.h:86-89 | The compare-and-swap tells an old position from the current one except after whole turns of 2^64 |
| LoggerCounters.PeekTestExact | Support/include/Support/MpscRingBuffer.h:111-118 | In every reachable state the test in peek decides on words as on unlimited counters, for any number of records |
| LoggerCounters.CountTestExactly | Support/lib/Log.cpp:529-532 | The count part of the shutdown test decides on words as it should if and only if the counts are equal or in the same turn of 2^64 |
| LoggerCounters.FlushTestExactly | Support/lib/Log.cpp:550-553 | A flush whose target is not reached keeps waiting if and only if target and consume count are in the same turn of 2^64 |
| LoggerWords.WordsDecide | Support/include/Support/MpscRingBuffer.h:81-139 | While at most 2^63 less a capacity of positions have been claimed, in every reachable state every action has the same effect with its test made on words as on unlimited counters |
| LoggerWords.WordRunAgrees | Support/lib/Log.cpp:462-563 | So does every run that claims no more than that, whatever its schedule |
| LoggerTurns.CountTestFails | Support/lib/Log.cpp:529-532 | For every capacity from two, a run on words and on unlimited counters alike to the count test, with an accepted record of an early call unread that the words do not show |
| LoggerTurns.EarlyRecordLost | Support/lib/Log.cpp:522-545 | On words there is a run after which the consumer has left and an accepted record of an early call reaches no sink in any continuation |
| LoggerTurns.FlushTestFails | Support/lib/Log.cpp:550-553 | A run after which a flush goes past its barrier on words while a record claimed before it is unread |
| LoggerTurns.ClaimTestFails | Support/include/Support/MpscRingBuffer.h:85-91 | A run after which a producer stalled at its check is refused on words by an empty ring |
| LoggerTurns.SwapTestFails | Support/include/Support/MpscRingBuffer.h:86-89 | A run after which a producer stalled before its swap wins on words a position it has not checked |
| LoggerInvariant.SlotsDiffer | Support/include/Support/MpscRingBuffer.h:35-38 | Positions less than a capacity apart never share a slot or its arena |
| LoggerInvariant.InWindow | Support/include/Support/MpscRingBuffer.h:81-97 | Every position shares its slot with one position of any capacity-long window, at least a capacity away unless equal |
| LoggerSteps.CheckIsTruthful | Support/include/Support/MpscRingBuffer.h:81-97 | What a producer learns from a slot's sequence number: equality means the position is free or unreleased in the current window, a smaller number means all slots are taken |
| LoggerSteps.IdleKeepsStop | Support/lib/Log.cpp:529-532 | The three reads of the shutdown test, in their order, establish: no early call in flight, then no early accepted position unconsumed |
| LoggerSteps.NextKeepsInv | Support/lib/Log.cpp:479-563 | Every step of every thread keeps the whole invariant: window, free slots, ownership and contents of claimed slots, consumer, sinks, flushers, shutdown facts and counters |
| LoggerSteps.RunKeepsInv | Support/lib/Log.cpp:462-563 | The invariant holds after every schedule |
| LoggerTheorems.SlotsExclusiveIffTwo | Support/include/Support/MpscRingBuffer.h:67-97 | In all reachable states claimed and unreleased positions use different slots, if and only if the capacity is at least two |
| LoggerTheorems.RefusedExactly | Support/include/Support/MpscRingBuffer.h:79-97 | In every reachable state a call's next step refuses it if and only if it is about to check the next position to be claimed and exactly a capacity of positions is claimed and unreleased |
| LoggerRecords.CallFromSchedule | Support/lib/Log.cpp:479-512 | After any schedule a call's line is the header and the first 256 string bytes of the record of its first beginning, and it counts as early if and only if the stop flag was not set before |
| LoggerRecords.SinksFollowCallers | Support/lib/Log.cpp:489-527 | At every moment of every schedule each sink holds, for an initial stretch of the claim order and each once, the lines of the records the calls began with: the header and the first 256 bytes of the concatenated caller strings, however often the ring wraps |
| LoggerRecords.SubmissionOrder | Support/lib/Log.cpp:479-515 | If one call's record was accepted before another call began, it precedes the other's in the claim order, in which every sink has them: one thread's records are never swapped |
| LoggerRecords.EarlyRecordsSettled | Support/lib/Log.cpp:479-545 | On unlimited counters: once the consumer has left its loop, every call that began before the stop flag was refused, or the line of the record it began with is on every sink exactly once and flushed |
| LoggerRecords.EarlyRecordsSettledOnWords | Support/lib/Log.cpp:479-545 | The same on 64 bit words, for every run that has claimed at most 2^63 less a capacity of positions |
| LoggerTheorems.ExitIsFinal | Support/lib/Log.cpp:522-545 | After the exit no schedule changes a sink's contents or the consumer's position |
| LoggerTheorems.WrittenIffClaimedInTime | Support/lib/Log.cpp:529-545 | In any continuation after the exit an accepted record is on a sink, once, if and only if its position precedes the consumer's final one |
| LoggerTheorems.LateRecordAcceptedAndLost | Support/lib/Log.cpp:479-515 | For every capacity from two there is a schedule in which a call after the exit is accepted and its record never reaches the sink |
| LoggerTheorems.SummaryAddsUp | Support/lib/Log.cpp:462-475 | With no call after the stop flag, records written plus dropped are all calls, if and only if no refused caller has yet to count itself |
| LoggerSummary.SummaryCanMissCalls | Support/lib/Log.cpp:462-486 | For every capacity from two there is a run, all calls before the stop flag, that ends with the consumer's exit and a summary below the number of calls |
| LoggerRecords.FlushCoversRecords | Support/lib/Log.cpp:547-563 | When a flush returns after its barrier, every position claimed before the flush began is on every sink with the line of its caller's record, and flushed |
| LoggerRecords.FlushCoversLoaded | Support/lib/Log.cpp:547-563 | The same for every position claimed up to the moment at which the flush loads the count |
| LoggerTheorems.EarlyReturnMeansFlushed | Support/lib/Log.cpp:547-549 | A flush that returns because the consumer is not joinable finds everything the consumer will ever write flushed |
| LoggerTheorems.IdleFlushes | Support/lib/Log.cpp:534-537 | When the consumer goes back to looking for records after an idle round, everything it had written when the round began is flushed on every sink |
| LoggerFlush.FlushReturnsExactly | Support/lib/Log.cpp:547-563 | In every reachable state a waiting flush returns in some continuation if and only if the consumer has not taken its last look at the enqueue count or had passed the target; otherwise it waits in every continuation |
| LoggerFlush.FlushCanWaitForever | Support/lib/Log.cpp:547-563 | For every capacity from two there is a run after which a flush waits in every continuation |
| LoggerFlush.FlushAfterJoinReturns | Support/lib/Log.cpp:547-549 | Once the consumer has been joined, no flush that begins or has yet to ask ever waits, in any continuation: its first step returns |
| LoggerProgress.JoinReturns | Support/lib/Log.cpp:462-545 | In every state after the stop flag, with any calls in flight, those calls and the consumer have a continuation in which the consumer leaves its loop, every position consumed, so that the destructor's join returns |
| LoggerProgress.CallCloser | Support/lib/Log.cpp:479-515 | Every undisturbed step of a call brings it closer to leaving the in-flight count: the claim loop ends |
| FixedWidth.SignificantIsMinimal | Support/include/Support/IPInt.h:38-46 | The significant width is the least width that holds the value |
| FixedWidth.SextOrTruncKeeps | Support/lib/IPInt.cpp:71-72 | Extending or cutting to any width that holds the value keeps it |
| IPInts.Normalize | Support/include/Support/IPInt.h:42 | Cutting to the significant width keeps the value and yields a canonical pattern |
| IPInts.FromUint64Exact | Support/include/Support/IPInt.h:44-47 | The constructor keeps its argument if and only if it is below 2^63; from there on it is 2^64 less |
| IPInts.EqualIsValueEquality | Support/lib/IPInt.cpp:111-114 | Same width and same bits if and only if same integer |
| IPInts.CmpIsValueOrder | Support/lib/IPInt.cpp:22-41 | All four comparisons are integer order for operands of any widths |
| IPInts.WideExact | Support/lib/IPInt.cpp:43-109 | At the width an operator asks for it never saturates, wraps or truncates: sum, difference, product, truncated quotient and remainder, shifts by any amount are those of the integers |
| IPInts.BinopIsWide | Support/lib/IPInt.cpp:47-72 | While the width asked for fits 32 bits the operator as written runs at it |
| IPIntWidths.SumExactly | Support/lib/IPInt.cpp:47-79 | A sum or difference is exact if and only if it fits the width used and so does that of the operands as cut to it |
| IPIntWidths.MulExactly | Support/lib/IPInt.cpp:47-82 | A product is exact if and only if the sum of the widths fits 32 bits or a factor is zero |
| IPIntWidths.SumCanBeCut | Support/lib/IPInt.cpp:47-76 | There is a positive number whose sum with itself comes out as zero |
| IPIntWidths.QuotientExactly | Support/lib/IPInt.cpp:47-85 | A quotient is exact if and only if, multiplied back, it leaves a proper remainder of the operands as cut, save for the one pair that overflows |
| IPIntWidths.SmallQuotientExactly | Support/lib/IPInt.cpp:47-85 | For a dividend smaller than the divisor it is exact if and only if cutting keeps that order |
| IPIntWidths.QuotientCanBeCut | Support/lib/IPInt.cpp:47-85 | There are numbers whose quotient is one and comes out as zero |
| IPIntWidths.LeftShiftExactly | Support/lib/IPInt.cpp:56-93 | A left shift by n >= 0 is exact if and only if its width fits 32 bits or the number is zero |
| IPIntWidths.RightShiftExactly | Support/lib/IPInt.cpp:56-96 | A right shift by n >= 0 is exact if and only if its width fits 32 bits or the cut operands pass a test: two comparisons where n reaches the number's width, which is every cut shift of a number of at most 2^31 bits, and a comparison of bits otherwise |
| IPIntWidths.WideCutIsWrong | Support/lib/IPInt.cpp:56-96 | With n below the number's width and a cut width of at least 32 a right shift is never exact |
| IPIntWidths.ShiftByLimitIsIdentity | Support/lib/IPInt.cpp:56-96 | Any number of at most 32 bits shifted by a multiple of 2^32, in either direction, comes back unchanged |
| IPIntWidths.TruncBits | Support/lib/IPInt.cpp:71-72 | Cutting a pattern keeps its low bits |
| IPInts.BinopExact | Support/lib/IPInt.cpp:43-109 | As written, every arithmetic operator is exact while the width it asks for fits 32 bits |
| IPInts.LogicExact | Support/lib/IPInt.cpp:97-105 | As written, each bit of the unbounded two's-complement expansion of the result is the conjunction, disjunction or exclusive disjunction of the operands' bits |
| FixedWidth.HalvedIsFloor | Support/lib/IPInt.cpp:94-96 | Arithmetic right shift by n is the floor of the quotient by 2^n |
| IPIntAlgorithms.Gcd | Support/lib/IPInt.cpp:165-176 | The loop, on the remainder as written, ends and yields Euclid's result; the magnitude of the truncated remainder falls |
| IPIntAlgorithms.EuclidIsGreatest | Support/lib/IPInt.cpp:165-176 | The result divides both numbers, every common divisor divides it, and it is zero only for two zeros, for any signs |
| IPWritten.Exponentiate | Support/lib/IPInt.cpp:178-202 | On the operators as written, while no product of the loop can ask for 2^32 bits: the power, or for a negative exponent the reciprocal power truncated toward zero |
| IPIntAlgorithms.ExponentiateWide | Support/lib/IPInt.cpp:178-202 | On operators at full width: the same for every base and exponent the source accepts |
| IPWritten.BudgetStep | Support/lib/IPInt.cpp:195-200 | The bits of base and accumulator stay within twice base width times exponent: doubling them costs no more than halving the exponent frees |
| IPIntAlgorithms.SquareStep | Support/lib/IPInt.cpp:195-200 | One round of squaring keeps accumulator times remaining power |
| IPIntAlgorithms.EarlyIsReciprocal | Support/lib/IPInt.cpp:183-190 | The three early answers are the truncated reciprocal powers |
| IPIntAlgorithms.AndOneIsParity | Support/lib/IPInt.cpp:188 | Masking with one yields the parity of an integer of any width and sign |
| IPIntAlgorithms.BitsDetermine | Support/lib/IPInt.cpp:97-105 | An integer is determined by its unbounded two's-complement expansion |
| IPWritten.Construct | Support/lib/IPRational.cpp:38-49 | On the operators as written, while the widths leave room: positive denominator, no common factor, same value |
| IPRationals.ReducedIsLowest | Support/lib/IPRational.cpp:38-49 | At full width canonicalising any numerator and non-zero denominator yields lowest terms and keeps the value |
| IPRationals.Bezout | Support/lib/IPInt.cpp:165-176 | The gcd is an integer combination of its arguments |
| IPRationals.LowestIsUnique | Support/lib/IPRational.cpp:38-49 | Two fractions in lowest terms with equal cross products have equal fields |
| IPRationals.EqualsIsValueEquality | Support/lib/IPRational.cpp:107-110 | Comparing fields is comparing values |
| IPWritten.Compare32 | Support/lib/IPRational.cpp:70-83 | On the operators as written, while the cross products leave room: each comparison is that of the values |
| IPRationals.CompareIsValueOrder | Support/lib/IPRational.cpp:70-83 | At full width all four comparisons are the order of values, although less is defined as neither greater nor equal |
| IPWritten.ArithmeticExact | Support/lib/IPRational.cpp:86-105 | On the operators as written, while the widths leave room: sum, difference, product and quotient are exact and in lowest terms |
| IPRationals.OperateExact | Support/lib/IPRational.cpp:86-105 | At full width they are so for all numbers in lowest terms |
| IPWritten.Magnitude32 | Support/lib/IPRational.cpp:139-143 | On the operators as written, while the widths leave room: abs is in lowest terms and is the absolute value |
| IPRationals.MagnitudeExact | Support/lib/IPRational.cpp:139-143 | At full width it is so for all numbers in lowest terms |
| Diagnostics.EncodeDiagnostics | Cache/lib/CachedTransform.cpp:102-121 | Appends exactly the list's encoding to the shared buffer, keeping what was there, for any nesting of notes |
| Diagnostics.EncodeOne | Cache/lib/CachedTransform.cpp:115-120 | Appends exactly one diagnostic's encoding, notes included |
| Diagnostics.DecodeDiagnostics | Cache/lib/CachedTransform.cpp:123-185 | On arbitrary bytes at any address the loop ends; result and cursor are those of the decoder that was meant, with the cursor in bounds, if and only if what that one rejects as too short does not wrap; otherwise a read outside the buffer has passed and the cursor has not moved forward |
| Diagnostics.DecodeLoop | Cache/lib/CachedTransform.cpp:154-184 | The loop pushes exactly the counted diagnostics, or stops where the first of them fails |
| Diagnostics.DecodeOne | Cache/lib/CachedTransform.cpp:154-183 | The same for one diagnostic with its notes |
| Diagnostics.NextInt | Cache/lib/CachedTransform.cpp:128-135 | The length test and the cursor's move are computed modulo the address space; the outcome is the intended one unless the end wraps |
| Diagnostics.NextString | Cache/lib/CachedTransform.cpp:138-147 | The same for a string and its untrusted size |
| Diagnostics.MachineExactly | Cache/lib/CachedTransform.cpp:123-185 | The same if and only if and cursor bounds, for the outcome itself |
| Diagnostics.WrappingSizePasses | Cache/lib/CachedTransform.cpp:138-147 | A size whose end wraps, as the last thing in a list, is rejected by the intended decoder and passes the one as written |
| Diagnostics.CursorLeavesBuffer | Cache/lib/CachedTransform.cpp:138-147 | At every address but zero there is a list that leaves the cursor one byte in front of the buffer |
| Diagnostics.EncodedOnMachine | Cache/lib/CachedTransform.cpp:102-185 | An encoded list decodes to itself on the machine too, at any address |
| Diagnostics.OnCacheHit | Cache/lib/CachedTransform.cpp:318-334 | The routine yields, on arbitrary bytes at any address, the hit of the specification |
| Diagnostics.ListAt | Cache/lib/CachedTransform.cpp:102-185 | Wherever an encoded list stands in the data it decodes to itself and the cursor ends right behind it |
| Diagnostics.DecodeInvertsEncode | Cache/lib/CachedTransform.cpp:102-185 | Decoding an encoded list between arbitrary bytes returns the list and stops at the following bytes |
| Diagnostics.EncodingsPrefixFree | Cache/lib/CachedTransform.cpp:102-121 | No encoding is a prefix of another: equal data means equal lists and equal rests |
| Diagnostics.HitRecoversMiss | Cache/lib/CachedTransform.cpp:291-341 | A cache hit recovers exactly the bytecode and diagnostic trees the miss stored, wherever the buffer lies |
| DiagnosticLayout.DecodedExactly | Cache/lib/CachedTransform.cpp:123-185 | Decoding arbitrary bytes yields a list and an end if and only if the bytes lay out that list up to that end: little-endian counts and sizes, text, one byte skipped after each text, parseable locations |
| DiagnosticLayout.FailureExplained | Cache/lib/CachedTransform.cpp:128-170 | Whatever is reported is what is wrong at the place where decoding stopped |
| DiagnosticLayout.ListWritten | Cache/lib/CachedTransform.cpp:102-121 | An encoded list follows the layout to the byte, with a zero after each text and the location as it is printed |
| DiagnosticLayout.PayloadWritten | Cache/lib/CachedTransform.cpp:283-303 | Bytecode in front, then the list up to the last eight bytes, and these hold the bytecode's size |
| DiagnosticLayout.HitExactly | Cache/lib/CachedTransform.cpp:323-334 | A hit recovers a bytecode and a list if and only if the footer holds the bytecode's size, it fits, and the list stands right behind it |
| Diagnostics.LengthTestExact | Cache/lib/CachedTransform.cpp:142-143 | On wrapping 64 bit addresses the length test is the intended one if and only if the string fits or the sum does not wrap |
| Base64.ReplaceAll | Support/lib/Base64.cpp:31-32 | Every occurrence of one character is replaced, nothing else changes |
| Base64.EncodeInPlace | Support/lib/Base64.cpp:29-40 | The bounded pop-back loop strips the trailing padding of the translated standard encoding |
| Base64.DecodeEncode | Support/lib/Base64.cpp:30-53 | The standard encoding of section 4 of RFC 4648, padding included, decodes to its input |
| Base64.EncodedLength | Support/lib/Base64.cpp:34-38 | Symbols and padding together are four for every three bytes begun |
| Base64.EncodedShape | Support/lib/Base64.cpp:29-40 | Exactly the padding is removed, and letters, digits, minus and underscore remain |
| Base64.RoundTrip | Support/lib/Base64.cpp:29-60 | Decoding inverts encoding on every non-empty byte string |
| Base64.NamesDistinct | Cache/lib/BlobCache.cpp:529-541 | Different keys never share a cache file |
| Base64.NamesSafe | Cache/lib/BlobCache.cpp:529-541 | No cache file name is empty or contains plus, slash or equals |
| Base64.EncodeIsStandard | Support/lib/Base64.cpp:30 | The encoding is that of section 4 of RFC 4648: each three bytes as a 24 bit number in four digits of the alphabet, and the padding of a short last group |
| Base64.URLSafeExactly | Support/lib/Base64.cpp:29-40 | The name is that text without its padding, with minus for plus and underscore for slash |
| BlobChain.FileRoundTrip | Cache/lib/BlobCache.cpp:420-518 | A file written by an insertion passes its checksum and reads back as the blob |
| BlobChain.ReadFileExactly | Cache/lib/BlobCache.cpp:485-518 | A file reads as a blob if and only if it is the blob and its checksum; an empty file, one shorter than a checksum and a checksum that does not match are the three errors |
| BlobChain.FindIsFirstHolder | Cache/lib/BlobCache.cpp:284-309 | A search answers with what the first layer that holds the key answers, damaged files included |
| BlobChain.HeldFileAnswers | Cache/lib/BlobCache.cpp:485-518 | A file layer that holds a key answers with the file's contents, or its error |
| BlobChain.LookupAfterInsert | Cache/lib/BlobCache.cpp:139-148 | After an insertion into any chain the answer for the key is the new blob if the insertion reads back, and every other answer is unchanged |
| BlobChain.InsertReadsBackExactly | Cache/lib/BlobCache.cpp:385-402 | The inserted blob is found afterwards if and only if: a new key meets a writable layer; a known key meets a memory layer no later than its holder, or the same blob |
| BlobChain.FindAnswers | Cache/lib/BlobCache.cpp:284-309 | A search returns the first holder's blob, and its promotion changes no answer of the chain for any key |
| BlobChain.ContainsIffNotAbsent | Cache/lib/BlobCache.cpp:203-214 | Even with damaged files, presence is reported exactly when a search does not report absence |
| BlobChain.ContainsIffLookup | Cache/lib/BlobCache.cpp:203-214 | On sound files presence is reported exactly when some layer holds a blob |
| BlobChain.MissChangesNothing | Cache/lib/BlobCache.cpp:284-298 | An unsuccessful search leaves every layer as it was |
| BlobChain.PromotionOnlyIntoMemory | Cache/lib/BlobCache.cpp:299-309 | A blob found further on is stored in a memory layer in front; a file layer in front is left unchanged |
| BlobChain.InsertIdempotent | Cache/lib/BlobCache.cpp:139-148 | Inserting twice leaves every layer of every chain as inserting once |
| BlobChain.InsertAsyncIsSync | Cache/lib/BlobCache.cpp:105-166 | The asynchronous insertion, which visits the delegates twice, leaves every layer as the synchronous one |
| BlobChain.ContainsAsyncIsSync | Cache/lib/BlobCache.cpp:168-231 | The asynchronous presence test answers as the synchronous one |
| BlobChain.FindAsyncIsSync | Cache/lib/BlobCache.cpp:233-328 | The asynchronous search gives the same answer and leaves the same layers, damaged files included |
| BlobRuns.StepRefines | Cache/lib/BlobCache.cpp:105-328 | One operation on a chain that represents a map is the map's operation, provided an insertion reads back |
| BlobRuns.MemoryHeadedIsAMap | Cache/lib/BlobCache.cpp:105-362 | A chain headed by a memory layer gives the answers of one plain map over every run of mixed synchronous and asynchronous operations |
| BlobRuns.LayersAgreeForever | Cache/lib/BlobCache.cpp:105-328 | If each key is only ever inserted with one blob, all layers agree after every run |
| BlobRuns.ConsistentUseIsAMap | Cache/lib/BlobCache.cpp:105-328 | Under such use every chain with a writable layer, in any order of layers, behaves as a plain map over every run |
| BlobRuns.WriteVisibleExactly | Cache/lib/BlobCache.cpp:385-402 | A write followed by a read looks like the map's if and only if the insertion reads back |
| BlobRuns.FileLayerKeepsFirstBlob | Cache/lib/BlobCache.cpp:385-394 | A concrete write to a file layer that is not visible afterwards |
| BlobBackends.Backend.constructor | Cache/lib/BlobCache.cpp:371-373 | A new backend is a chain of its one layer |
| BlobBackends.Backend.ContainsSync | Cache/lib/BlobCache.cpp:203-214 | The walk along the delegates answers whether any layer holds the key |
| BlobBackends.Backend.InsertSyncImpl | Cache/lib/BlobCache.cpp:345-443 | The first layer becomes what its kind stores, and no other layer changes |
| BlobBackends.Backend.InsertSync | Cache/lib/BlobCache.cpp:139-148 | Every linked layer becomes that of the chain insertion |
| BlobBackends.Backend.FindSync | Cache/lib/BlobCache.cpp:284-309 | Answer and all linked layers are those of the chain search, promotion included |
| BlobBackends.Backend.InsertWrapped | Cache/lib/BlobCache.cpp:105-166 | The wrapper leaves the layers of the repeated insertion |
| BlobBackends.Backend.ContainsWrapped | Cache/lib/BlobCache.cpp:168-231 | The wrapper answers as the repeated presence test |
| BlobBackends.Backend.FindWrapped | Cache/lib/BlobCache.cpp:233-328 | Answer and layers are those of the repeated search |
| BlobBackends.Backend.AppendDelegate | Cache/lib/BlobCache.cpp:330-335 | The other chain is linked behind the last backend, with every layer of both unchanged |
| LineRaster.Pset | tools/galaxigans-art.py:27-30 | Exactly the cell at the shifted point gets the colour, and a point off the grid changes nothing |
| LineRaster.Line | tools/galaxigans-art.py:32-45 | The loop ends for all endpoints after max(dx, dy) + 1 points and colours exactly the pixels of the ideal line, as given by the row PixelExactly |
| LineRaster.EndsExactly | tools/galaxigans-art.py:37-40 | The endpoint test is met at step max(dx, dy) and never earlier |
| LineRaster.PixelExactly | tools/galaxigans-art.py:32-45 | With dx at least dy the n-th pixel is n columns on and the ideal height rounded to the nearest row, otherwise it is n rows on and the ideal column rounded; a tie goes away from the start |
| LineRaster.StepsTouch | tools/galaxigans-art.py:41-45 | Each step moves one pixel along the longer side and at most one along the other |
| LineRaster.HalfPixel | tools/galaxigans-art.py:32-45 | Every plotted pixel is within half a pixel of the ideal line, measured along the shorter side |
| Depsets.Resolver.constructor | tools/make-ninja.py:118-121 | The empty cache is complete |
| Depsets.Resolver.Resolve | tools/make-ninja.py:123-145 | For any graph, with cycles, sharing or missing nodes, and any earlier queries: exactly the artifacts of the reachable nodes, with every cache entry complete |
| Depsets.Collected | tools/make-ninja.py:127-140 | When the worklist is empty every artifact along every path from a visited node has been collected |
| Depsets.ByIdExactly | tools/make-ninja.py:118-121 | The table maps an identifier to the last node that has it |
| DieAttributes.Attr | spikes/mojo-join-map.py:73-89 | Ends on any link graph, finds nothing without a die, and leaves the answer and shared visited set of the specification |
| DieAttributes.VisitIsSearch | spikes/mojo-join-map.py:73-89 | Sharing the visited set between the branches never changes the answer of a search that shares nothing |
| DieAttributes.FoundIffReachable | spikes/mojo-join-map.py:73-89 | A value is found if and only if some die reachable through the links carries the attribute, and it is such a die's value |
| DieAttributes.LinkedExactly | spikes/mojo-join-map.py:83-85 | A die links to another exactly through its abstract origin or its specification, where that is a known offset |
| DieAttributes.OriginsFirst | spikes/mojo-join-map.py:81-88 | The first die along the chain of abstract origins that carries the attribute gives the answer, whatever the specifications on the way hold |
| DieAttributes.SpecificationNext | spikes/mojo-join-map.py:83-88 | Without an abstract origin the specification's value is the answer |
| JoinMap.PopTo | spikes/mojo-join-map.py:109-111 | After popping, the stack is exactly the chain of entries that enclose the new one, and depths stay strictly increasing |
| JoinMap.PoppedIsAncestors | spikes/mojo-join-map.py:107-118 | When popping stops the stack holds every ancestor of the entry and nothing else |
| JoinMap.InnermostScope | spikes/mojo-join-map.py:112-116 | The search from the top finds the nearest enclosing scope, or reports that there is none |
| JoinMap.EnclosingScopes | spikes/mojo-join-map.py:107-118 | An offset is mapped if and only if some variable entry with it has an enclosing scope, and then to the nearest scope of the last such entry; nothing else is mapped |
| JoinMap.ScopesExactly | spikes/mojo-join-map.py:107-118 | The same of the function the loop is proved against |
| JoinMap.AddVariable | spikes/mojo-join-map.py:148-154 | The entry's record gains its offset at the end and keeps its key, or is created with the entry's; the offset leads to it; no other record or offset changes |
| JoinMap.Build | spikes/mojo-join-map.py:142-161 | The loop yields the fold of all variable entries: the offsets in the table are theirs, and with distinct offsets each leads to the id of its own key and is listed there |
| JoinMap.BuiltExactly | spikes/mojo-join-map.py:142-161 | From the entries alone: the offsets are those of the variable entries, each leads to the id of the key made from the entry and its nearest scope, and that record lists it |
| JoinMap.RecordsExact | spikes/mojo-join-map.py:146-154 | A record exists for exactly the ids that occur, and lists exactly the entries with its id, in order |
| JoinMap.OffsetsExact | spikes/mojo-join-map.py:146-154 | The offset table covers exactly the variable entries and names an id of theirs |
| JoinMap.Validate | spikes/mojo-join-map.py:164-178 | The first two checks are silent if and only if every variable entry is mapped and, unless its record id is empty, is in its record's list |
| JoinMap.BuiltPasses | spikes/mojo-join-map.py:164-178 | A built map lists every variable entry and so always passes both checks, whatever the ids and even with repeated offsets |
| JoinMap.RecordsPartition | spikes/mojo-join-map.py:142-154 | With distinct offsets each variable entry is in the list of its own id, in no other, and once |
| JoinMap.ListedInOrder | spikes/mojo-join-map.py:146-153 | Entries that share an id are listed in the order in which they come |
| JoinMap.FirstKeyKept | spikes/mojo-join-map.py:149-152 | A record has the key of the first entry with its id, also where later ones differ |
| JoinMap.KeysRightIffNoCollision | spikes/mojo-join-map.py:149-152 | Every entry is filed under its own key if and only if no two different keys share an id |
| JoinMap.BlobSpelled | spikes/mojo-join-map.py:134-139 | The hashed text is the five fields, absent ones as None, with the unit separator between |
| JoinMap.BlobsCollideExactly | spikes/mojo-join-map.py:134-139 | Any two keys give the same hashed text if and only if their printed fields, split at the separator, are the same pieces in the same order |
| JoinMap.PlainBlobsCollide | spikes/mojo-join-map.py:134-139 | Without the separator in a field that is so if and only if the fields agree up to absent against the text None |
| JoinMap.AbsentTypeCollides | spikes/mojo-join-map.py:134-139 | Every key without a type shares its text with a different key |
| DeviceSpecs.ParseFeatureList | Support/lib/DeviceSpecs.cpp:296-311 | The loop yields the map by base name, legacy features left out |
| DeviceSpecs.FirstFeatureCounts | Support/lib/DeviceSpecs.cpp:296-311 | A base name is in the map if and only if a non-legacy feature has it, and the first such feature is kept |
| DeviceSpecs.CheckFeatures | Support/lib/DeviceSpecs.cpp:315-354 | In whatever order the map is walked, exactly the unmet base names are reported, and none if and only if every required feature that counts is met by the rule of the lists alone |
| DeviceSpecs.OrderExactly | Support/lib/DeviceSpecs.cpp:52-72 | A provided name is at least a required one if and only if they are the same, or both are of the sm family, where a bare sm has version 0, and the provided version is at least the required one |
| DeviceSpecs.DigitOrder | Support/lib/DeviceSpecs.cpp:264-279 | Between digit strings of values below 2^64, sm_s satisfies sm_t if and only if t's value is at most s's |
| DeviceSpecs.FeaturesExactly | Support/lib/DeviceSpecs.cpp:296-354 | Features are satisfied if and only if for each required one, the first of its base that is not legacy, no disabled one has its base and the first provided one of that base is at least it |
| DeviceSpecs.SatisfiesExactly | Support/lib/DeviceSpecs.cpp:232-372 | A target satisfies another if and only if architecture and system agree where the other names them, its arch is at least the other's, its features are met and the interface is the same where named |
| DeviceSpecs.FeaturesTransitive | Support/lib/DeviceSpecs.cpp:315-354 | Feature satisfaction composes through versions, disabled and legacy features and empty constraints |
| DeviceSpecs.SatisfiesTransitive | Support/lib/DeviceSpecs.cpp:356-372 | If A satisfies B and B satisfies C then A satisfies C |
| DeviceSpecs.SatisfiesItselfExactly | Support/lib/DeviceSpecs.cpp:315-372 | A target satisfies itself if and only if its enabled and disabled base names are disjoint |
| FeatureStrings.EncodeFeatures | Support/lib/DeviceSpecs.cpp:86-101 | The two appending loops give the comma-joined signed names, enabled ones first |
| FeatureStrings.DecodeFeatures | Support/lib/DeviceSpecs.cpp:103-141 | The two loops yield the decoding, on every text |
| FeatureStrings.DecodedExactly | Support/lib/DeviceSpecs.cpp:103-141 | Decoding fails if and only if a piece between commas is a lone sign; otherwise a name is enabled if and only if the last piece that is it, with or without a sign, has no minus, and disabled if and only if it has |
| FeatureStrings.DecodedInOrder | Support/lib/DeviceSpecs.cpp:107-139 | Both lists are in the order in which the names first appear |
| FeatureStrings.PiecesExactly | Support/lib/DeviceSpecs.cpp:107 | The pieces contain no comma and, glued with commas, give the text back |
| FeatureStrings.EncodedExactly | Support/lib/DeviceSpecs.cpp:86-101 | The text is the enabled names behind a plus and the disabled ones behind a minus, with commas between |
| FeatureStrings.DecodedIsWellFormed | Support/lib/DeviceSpecs.cpp:103-141 | Whatever the text, decoded names are non-empty, free of commas and distinct within and across the two lists |
| FeatureStrings.RoundTripExactly | Support/lib/DeviceSpecs.cpp:86-141 | Decoding inverts encoding if and only if the names are non-empty, free of commas and all distinct |

## Left out

- Logger: memory orderings, spin waiting, the condition variable and rendering; steps interleave with sequential consistency, a record is its by-value part and its string bytes, and a sink is the list of lines it was given with a flushed length.
- Logger: on words, only the shutdown promise is restated; the other theorems carry over in the same way while the bound holds. Past the first wrong step the words are followed only to the exit. A subtraction of two `intptr_t` that overflows is taken to wrap.
- Logger: sinks that fail, and `log` calls from signal handlers.
- LoggerProgress.JoinReturns: a continuation exists; that a fair scheduler always finds one, and callers that keep beginning new calls, are not modelled.
- IPWritten.Exponentiate: the bound counts the last square, which the loop computes and does not use, so it is sufficient and not exact; beyond it the operators' own exact conditions are in `IPIntWidths`.
- IPWritten.Construct: the bounds on the widths of numerator and denominator are sufficient and not exact, likewise for IPWritten.ArithmeticExact, IPWritten.Compare32 and IPWritten.Magnitude32.
- IPIntWidths.RightShiftExactly: a cut width of zero, which LLVM cannot normalise, is excluded for all operators; a shift amount beyond 64 bits, on which `getZExtValue` asserts, contributes its low bits, as it does with assertions off. Exactness by a negative amount is stated only below the limit.
- LLVM's integer class is modelled by its documented operations on bit patterns, LLVM's base 64 routines by RFC 4648, its triple parser by an architecture name, a known predicate and an operating system value.
- DeviceSpecs.SatisfiesTransitive: relies on two facts about LLVM's triple parser, that the empty triple has no parts and that `aarch64` and `arm64` are known together.
- Diagnostics.DecodeDiagnostics: after a read outside the buffer has passed its test nothing is modelled; the outcome records where the cursor stands.
- Diagnostics.HitRecoversMiss: assumes that MLIR parses a printed location back to the same location; bytecode is opaque bytes, lengths are below 2^64, and a footer larger than the buffer, which the source asserts on, is a separate outcome.
- The decoder's error text, and the rest of the pass manager around the payload.
- Blob cache: locks, mmap, directories, disk space, checksums as anything but an uninterpreted 16 byte function, and failing writes; files are a map from name to bytes.
- Blob cache: asynchronous operations run one after another to completion; interleavings of tasks of different operations are not modelled.
- BlobChain.FileRoundTrip: a file shorter than its checksum, on which the source would read out of range, is a separate error.
- Base64.RoundTrip: the empty string, for which the source reads the last character of an empty string, is excluded.
- Base64.EncodeInPlace: the string is a value that the method reassigns, not a buffer shared with a caller.
- DieAttributes.Attr: the die asked about must be the table's own entry for its offset; `_ref`, `unquote` and the type name's regular expression are parameters or left out.
- JoinMap.Build: record key and record id are arbitrary functions, the hash among them; schema and uuid are left out.
- JoinMap.Validate: the report on records that differ only by type and the uuid comparison are left out.
- LineRaster: rectangles, ellipses, triangles and palettes.
- Depsets: artifact paths and the emission of the ninja file.
- DeviceSpecs: JSON, `hasFeature`, device references and error text; the order in which unmet features are listed depends on hash order and is a set here.
- Statistics, micro benchmarks, timers, signal handling, plugin loading and configuration lookup, which are floating point or platform plumbing.

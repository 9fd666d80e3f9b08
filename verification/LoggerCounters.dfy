/**
 The ring's counters are 64 bit words (Support/include/Support/MpscRingBuffer.h:56-142), while the
 protocol counts without a limit.  Here every test the code makes on words is compared with the test
 on the unlimited counters, in every reachable state: where they agree, and exactly when they do not.
 */
module LoggerCounters {
  import opened Arithmetic
  import opened FixedWidth
  import opened LoggerProtocol
  import opened LoggerInvariant
  import opened LoggerSteps
  import opened LoggerTheorems

  const WORD: nat := 0x1_0000_0000_0000_0000
  const HALF: int := 0x8000_0000_0000_0000

  /** A counter as it is stored. */
  function Word(n: int): nat {
    n % WORD
  }

  /** `static_cast<intptr_t>(a) - static_cast<intptr_t>(b)`, wrapping. */
  function SignedDiff(a: nat, b: nat): int {
    (a - b + HALF) % WORD - HALF
  }

  predicate SameSign(a: int, b: int) {
    (a < 0 <==> b < 0) && (a == 0 <==> b == 0)
  }

  lemma DiffOfWords(a: int, b: int)
    ensures SignedDiff(Word(a), Word(b)) == (a - b + HALF) % WORD - HALF
  {
    var qa, qb := a / WORD, b / WORD;
    assert a == qa * WORD + Word(a) && b == qb * WORD + Word(b);
    ModShift(Word(a) - Word(b) + HALF, qa - qb, WORD);
  }

  lemma WrapOnce(d: int)
    requires -HALF <= d < HALF
    ensures (d + HALF) % WORD == d + HALF
  {
    ModOfSmall(d + HALF, WORD);
  }

  lemma WrapLater(d: int)
    requires d >= 0
    ensures (d + HALF) % WORD - HALF == if d % WORD < HALF then d % WORD else d % WORD - WORD
  {
    var q, r := d / WORD, d % WORD;
    assert d == q * WORD + r;
    ModShift(r + HALF, q, WORD);
    if r < HALF {
      WrapOnce(r);
    } else {
      ModShift(r - HALF, 1, WORD);
      ModOfSmall(r - HALF, WORD);
    }
  }

  /** Around zero, and on either side of each full turn, the wrapped difference has the right sign. */
  lemma SignExactly(d: int)
    requires d >= -HALF
    ensures SameSign((d + HALF) % WORD - HALF, d) <==> d <= 0 || 0 < d % WORD < HALF
  {
    if d < HALF {
      WrapOnce(d);
      if d >= 0 {
        WrapLater(d);
      }
    } else {
      WrapLater(d);
    }
  }

  /** The three-way comparison of two words decides as that of the counters. */
  predicate Decides(a: int, b: int) {
    SameSign(SignedDiff(Word(a), Word(b)), a - b)
  }

  /** Ahead by half a turn or more, up to a full one, after whole turns are taken off. */
  predicate FarAhead(d: int) {
    d > 0 && (d % WORD == 0 || d % WORD >= HALF)
  }

  lemma DecidesExactly(a: int, b: int)
    requires a - b >= -HALF
    ensures (Decides(a, b) <==> !FarAhead(a - b)) && (a - b < HALF ==> Decides(a, b))
  {
    DiffOfWords(a, b);
    SignExactly(a - b);
    if 0 < a - b < HALF {
      ModOfSmall(a - b, WORD);
    }
  }

  // ----- claim -----

  /** The sequence number a claiming producer reads, between its bounds. */
  lemma SequenceBounds(s: State, pos: nat)
    requires Shape(s) && FreeOk(s) && PositionsOk(s) && pos <= s.enq
    ensures pos - |s.slots| <= SlotAt(s, pos).sequence < s.enq + |s.slots|
  {
    var q := InWindow(|s.slots|, pos, Released(s));
    assert SlotAt(s, q) == SlotAt(s, pos);
    if q < s.enq {
      assert PosOk(s, q);
    } else {
      FreeSlot(s, q);
    }
  }

  lemma LoadedBefore(s: State, cap: nat, sinks: nat, c: CallId)
    requires 2 <= cap && Reachable(s, cap, sinks)
    requires c in s.calls && (s.calls[c].pc.Checking? || s.calls[c].pc.Swapping?)
    ensures s.calls[c].pc.pos <= s.enq
  {
    ReachableInv(s, cap, sinks);
    assert CallOk(s, c);
  }

  lemma ReadBetween(s: State, cap: nat, sinks: nat, pos: nat)
    requires 2 <= cap && Reachable(s, cap, sinks) && |s.slots| > 0 && pos <= s.enq
    ensures pos - cap <= SlotAt(s, pos).sequence < s.enq + cap
  {
    ReachableInv(s, cap, sinks);
    SequenceBounds(s, pos);
  }

  /**
   The three-way test in `claim` decides on words as on the unlimited counters if and only if the
   sequence number is not half a turn or more ahead of the position; it is not as long as fewer than
   2^63 less a capacity of positions have been claimed since the position was loaded.
   */
  lemma ClaimTestExactly(s: State, cap: nat, sinks: nat, c: CallId, pos: nat, sequence: int)
    requires 2 <= cap <= HALF && Reachable(s, cap, sinks) && |s.slots| > 0
    requires c in s.calls && s.calls[c].pc == Checking(pos) && SlotAt(s, pos).sequence == sequence
    ensures Decides(sequence, pos) <==> !FarAhead(sequence - pos)
    ensures s.enq - pos <= HALF - cap ==> Decides(sequence, pos)
  {
    LoadedBefore(s, cap, sinks, c);
    ReadBetween(s, cap, sinks, pos);
    DecidesExactly(sequence, pos);
  }

  lemma SameWord(a: nat, b: nat)
    requires b <= a
    ensures Word(a) == Word(b) <==> (a - b) % WORD == 0
  {
    var qa, qb := a / WORD, b / WORD;
    assert a == qa * WORD + Word(a) && b == qb * WORD + Word(b);
    var d := Word(a) - Word(b);
    ModShift(d, qa - qb, WORD);
    ModOfSmall(d, WORD);
  }

  /** On words the comparison in a compare-and-swap tells two counters apart. */
  predicate ToldApart(a: nat, b: nat) {
    Word(a) == Word(b) <==> a == b
  }

  predicate WholeTurns(d: nat) {
    d > 0 && d % WORD == 0
  }

  lemma ToldApartExactly(a: nat, b: nat)
    requires b <= a
    ensures ToldApart(a, b) <==> !WholeTurns(a - b)
  {
    SameWord(a, b);
  }

  /** The compare-and-swap takes an old position for the current one exactly after a whole number of turns. */
  lemma SwapTestExactly(s: State, cap: nat, sinks: nat, c: CallId)
    requires cap >= 2 && Reachable(s, cap, sinks) && |s.slots| > 0 && c in s.calls && s.calls[c].pc.Swapping?
    ensures var pos := s.calls[c].pc.pos; pos <= s.enq && (ToldApart(s.enq, pos) <==> !WholeTurns(s.enq - pos))
  {
    LoadedBefore(s, cap, sinks, c);
    ToldApartExactly(s.enq, s.calls[c].pc.pos);
  }

  // ----- peek -----

  lemma FrontBounds(s: State, cap: nat, sinks: nat)
    requires 2 <= cap && Reachable(s, cap, sinks) && |s.slots| > 0 && s.consumer.Peeking?
    ensures s.deq <= SlotAt(s, s.deq).sequence <= s.deq + 1
  {
    ReachableInv(s, cap, sinks);
    if s.deq < s.enq {
      assert PosOk(s, s.deq);
    } else {
      FreeSlot(s, s.deq);
    }
  }

  /** The test in `peek` decides on words as on the unlimited counters, in every reachable state. */
  lemma PeekTestExact(s: State, cap: nat, sinks: nat)
    requires 2 <= cap && Reachable(s, cap, sinks) && |s.slots| > 0 && s.consumer.Peeking?
    ensures var sequence := SlotAt(s, s.deq).sequence;
            SignedDiff(Word(sequence), Word(s.deq + 1)) == 0 <==> sequence == s.deq + 1
  {
    FrontBounds(s, cap, sinks);
    var sequence := SlotAt(s, s.deq).sequence;
    DiffOfWords(sequence, s.deq + 1);
    WrapOnce(sequence - (s.deq + 1));
  }

  // ----- the counts -----

  /** Less than a turn apart, words keep the order exactly within one turn. */
  lemma OrderExactly(low: nat, high: nat)
    requires low < high < low + WORD
    ensures Word(low) < Word(high) <==> low / WORD == high / WORD
    ensures Word(high) <= Word(low) <==> low / WORD != high / WORD
  {
    var ql, qh := low / WORD, high / WORD;
    assert low == ql * WORD + Word(low) && high == qh * WORD + Word(high);
    MulSign(qh - ql, WORD);
    assert (qh - ql) * WORD == qh * WORD - ql * WORD;
  }

  lemma CountsApart(s: State, cap: nat, sinks: nat)
    requires cap >= 2 && Reachable(s, cap, sinks)
    ensures s.deq <= s.enq <= s.deq + 1 + cap
    ensures s.consumer.TestingCount? ==> s.enq <= s.deq + cap
  {
    ReachableInv(s, cap, sinks);
  }

  lemma TargetLoaded(s: State, cap: nat, sinks: nat, f: FlushId)
    requires cap >= 2 && Reachable(s, cap, sinks) && f in s.flushers && s.flushers[f].pc.Waiting?
    ensures s.flushers[f].pc.target <= s.enq
  {
    ReachableInv(s, cap, sinks);
    assert FlusherOk(s, f);
  }

  /**
   The last part of the shutdown test, enqueue count against consume count, decides on words as it
   should if and only if the two are equal or within the same turn of 2^64.  Where the enqueue count has
   begun a new turn and the consume count has not, the consumer leaves with records unread.
   */
  lemma CountTestExactly(s: State, cap: nat, sinks: nat)
    requires 2 <= cap < WORD && Reachable(s, cap, sinks) && s.consumer.TestingCount?
    ensures (Word(s.enq) <= Word(s.deq) <==> s.enq <= s.deq) <==> s.enq == s.deq || s.enq / WORD == s.deq / WORD
  {
    CountsApart(s, cap, sinks);
    if s.deq < s.enq {
      OrderExactly(s.deq, s.enq);
    }
  }

  /** A flush whose target is not reached keeps waiting if and only if both are within the same turn. */
  lemma FlushTestExactly(s: State, cap: nat, sinks: nat, f: FlushId, t: nat)
    requires 2 <= cap < WORD - 1 && Reachable(s, cap, sinks)
    requires f in s.flushers && s.flushers[f].pc == Waiting(t) && s.deq < t
    ensures Word(s.deq) < Word(t) <==> s.deq / WORD == t / WORD
  {
    TargetLoaded(s, cap, sinks, f);
    CountsApart(s, cap, sinks);
    OrderExactly(s.deq, t);
  }

  // ----- the slot index -----

  /** Masking with a power of two less one is the remainder. */
  lemma {:induction false} MaskIsRemainder(x: nat, k: nat, width: nat)
    requires k <= width && x < Pow2(width)
    ensures Bitwise(And, x, Pow2(k) - 1, width) == x % Pow2(k)
    decreases width
  {
    if k == 0 {
      MaskNothing(x, width);
    } else {
      MaskIsRemainder(x / 2, k - 1, width - 1);
      MaskStep(x, Pow2(k - 1), width);
    }
  }

  lemma MaskStep(x: nat, p: nat, width: nat)
    requires p >= 1 && width > 0 && Bitwise(And, x / 2, p - 1, width - 1) == (x / 2) % p
    ensures Bitwise(And, x, 2 * p - 1, width) == x % (2 * p)
  {
    AndStep(x, 2 * p - 1, width);
    HalfOfMask(p);
    DoubledRemainder(x, p);
  }

  lemma AndStep(x: nat, y: nat, width: nat)
    requires width > 0
    ensures Bitwise(And, x, y, width)
         == 2 * Bitwise(And, x / 2, y / 2, width - 1) + if x % 2 == 1 && y % 2 == 1 then 1 else 0
  {
  }

  lemma {:induction false} MaskNothing(x: nat, width: nat)
    ensures Bitwise(And, x, 0, width) == 0
    decreases width
  {
    if width > 0 {
      MaskNothing(x / 2, width - 1);
    }
  }

  lemma HalfOfMask(p: nat)
    requires p >= 1
    ensures (2 * p - 1) / 2 == p - 1 && (2 * p - 1) % 2 == 1
  {
  }

  lemma DoubledRemainder(x: nat, p: nat)
    requires p >= 1
    ensures x % (2 * p) == 2 * ((x / 2) % p) + x % 2
  {
    var q, r := (x / 2) / p, (x / 2) % p;
    assert x / 2 == q * p + r;
    assert x == q * (2 * p) + (2 * r + x % 2);
    ModShift(2 * r + x % 2, q, 2 * p);
    ModOfSmall(2 * r + x % 2, 2 * p);
  }

  lemma WordIsPow2()
    ensures Pow2(64) == WORD
  {
    Squared(8, 256);
    Squared(16, 0x1_0000);
    Squared(32, 0x1_0000_0000);
  }

  lemma Squared(n: nat, p: nat)
    requires Pow2(n) == p
    ensures Pow2(2 * n) == p * p
  {
    Pow2Add(n, n);
  }

  lemma RemainderOfWord(n: nat, k: nat)
    requires k <= 64
    ensures Word(n) % Pow2(k) == n % Pow2(k)
  {
    WordIsPow2();
    Pow2Add(64 - k, k);
    TurnsVanish(n, n / WORD, Pow2(64 - k), Pow2(k));
  }

  lemma TurnsVanish(n: nat, q: int, p: int, m: int)
    requires m > 0 && p * m == WORD && n == q * WORD + Word(n)
    ensures Word(n) % m == n % m
  {
    assert q * WORD == (q * p) * m;
    ModShift(Word(n), q * p, m);
  }

  /** `pos & mask`, on words: for a capacity that is a power of two it is the protocol's slot index. */
  lemma SlotIndexIsMask(k: nat, pos: nat)
    requires k <= 64
    ensures Ix(Pow2(k), pos) == Bitwise(And, Word(pos), Pow2(k) - 1, 64)
  {
    SlotIndexIsMod(Pow2(k), pos);
    WordIsPow2();
    MaskIsRemainder(Word(pos), k, 64);
    RemainderOfWord(pos, k);
  }

  // ----- the constructor's assertion -----

  lemma {:induction false} OnlyPowersHaveOneBit(c: nat, width: nat) returns (k: nat)
    requires 0 < c < Pow2(width)
    ensures Bitwise(And, c, c - 1, width) == 0 <==> c == Pow2(k)
    decreases width
  {
    if c % 2 == 1 {
      k := 0;
      OddWithLess(c, width);
    } else {
      var j := OnlyPowersHaveOneBit(c / 2, width - 1);
      k := j + 1;
      assert (c - 1) / 2 == c / 2 - 1;
    }
  }

  /** An odd number and its predecessor share all bits above the last. */
  lemma OddWithLess(c: nat, width: nat)
    requires 0 < c < Pow2(width) && c % 2 == 1
    ensures Bitwise(And, c, c - 1, width) == 0 <==> c == 1
  {
    assert (c - 1) / 2 == c / 2;
    SameBits(c / 2, width - 1);
  }

  lemma {:induction false} SameBits(x: nat, width: nat)
    requires x < Pow2(width)
    ensures Bitwise(And, x, x, width) == x
    decreases width
  {
    if width > 0 {
      SameBits(x / 2, width - 1);
    }
  }

  /** `(capacity & (capacity - 1)) == 0` holds of the powers of two and, since zero less one wraps, of zero. */
  lemma AssertionAdmits(capacity: nat)
    requires capacity < WORD
    ensures Bitwise(And, capacity, (capacity - 1) % WORD, 64) == 0 <==> capacity == 0 || exists k: nat :: capacity == Pow2(k)
  {
    WordIsPow2();
    if capacity > 0 {
      ModOfSmall(capacity - 1, WORD);
      var j := OnlyPowersHaveOneBit(capacity, 64);
      if k: nat :| capacity == Pow2(k) {
        if k < 64 {
          PowerHasOneBit(k, 64);
        } else {
          Pow2Monotone(64, k);
        }
      }
    } else {
      NothingMasked(WORD - 1, 64);
    }
  }

  lemma {:induction false} PowerHasOneBit(k: nat, width: nat)
    requires k < width
    ensures Bitwise(And, Pow2(k), Pow2(k) - 1, width) == 0
    decreases width
  {
    if k == 0 {
      MaskNothing(1, width);
    } else {
      PowerHasOneBit(k - 1, width - 1);
      HalfOfMask(Pow2(k - 1));
    }
  }

  lemma {:induction false} NothingMasked(y: nat, width: nat)
    ensures Bitwise(And, 0, y, width) == 0
    decreases width
  {
    if width > 0 {
      NothingMasked(y / 2, width - 1);
    }
  }
}
